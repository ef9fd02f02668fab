/**
 * `Central`: the leader-driven consensus application.  The leader
 * broadcasts a growing DATA payload once per round to the nodes it
 * believes are in its group, records the term each follower replies with,
 * and retransmits to the followers that have not caught up.
 *
 * Each entry point is a pure step: it returns the new state together with
 * the packets sent and the timers armed.
 */
module Central {
  import opened Bytes
  import opened Wrappers
  import opened Faults
  import opened Net
  import Packets

  /** Retransmission rounds stop once the increment reaches this value. */
  const MAX_INCREMENT: int := 20
  /** Seconds between a broadcast and its first retransmission, and between retransmissions. */
  const RETRANSMIT_DELAY: int := 2
  /** Seconds between two disseminations. */
  const DISSEMINATION_PERIOD: int := 50
  const INITIAL_DATA_SIZE: int := 50000
  const DATA_SIZE_STEP: int := 100
  /** The node that `SetUp` makes leader. */
  const LEADER_NODE: int := 1

  /** `pair<bool, int>`: whether the node is in the group, and the last term it replied with. */
  datatype Follower = Follower(inGroup: bool, lastTerm: int)

  datatype CentralState = CentralState(
    running: bool,
    isLeader: bool,
    self: nat,
    peers: seq<Ipv4Address>,
    currentTerm: Int32,
    sizeOfData: int,
    allNodes: seq<Follower>)

  /** What `SetUp` establishes and every later step keeps. */
  predicate Valid(c: CentralState)
  {
    c.self < |c.peers| && |c.allNodes| == |c.peers|
  }

  datatype Send = Send(dest: Ipv4Address, packet: Packets.Packet)

  datatype Timer =
    | RetransmitTimer(delay: int, term: Int32, increment: int)
    | DisseminateTimer(delay: int)

  datatype Step = Step(state: CentralState, sends: seq<Send>, timers: seq<Timer>)

  /** The constructor. */
  function Init(self: nat): (c: CentralState)
    ensures !c.running && !c.isLeader && c.currentTerm == 0 && c.sizeOfData == INITIAL_DATA_SIZE
  {
    CentralState(false, false, self, [], 0, INITIAL_DATA_SIZE, [])
  }

  /** `SetUp`: one not-in-group, term-0 entry per peer; node 1 becomes leader. */
  function SetUp(c: CentralState, peers: seq<Ipv4Address>): (r: CentralState)
    requires c.self < |peers|
    ensures Valid(r)
    ensures r.peers == peers
    ensures forall i :: 0 <= i < |r.allNodes| ==> r.allNodes[i] == Follower(false, 0)
    ensures r.isLeader <==> c.isLeader || c.self == LEADER_NODE
    ensures r.running == c.running && r.currentTerm == c.currentTerm
  {
    c.(peers := peers,
       allNodes := seq(|peers|, _ => Follower(false, 0)),
       isLeader := c.isLeader || c.self == LEADER_NODE)
  }

  /** `StartApplication`: the node runs and disseminates at once. */
  function StartApplication(c: CentralState): (r: Step)
    ensures r.state == c.(running := true)
    ensures r.timers == [DisseminateTimer(0)] && r.sends == []
  {
    Step(c.(running := true), [], [DisseminateTimer(0)])
  }

  function StopApplication(c: CentralState): (r: CentralState)
    ensures r == c.(running := false)
  {
    c.(running := false)
  }

  /** `SendPacket`: nothing goes out when stopped or when ip is the node's own address. */
  function SendPacket(c: CentralState, p: Packets.Packet, ip: Ipv4Address): (r: seq<Send>)
    requires Valid(c)
    ensures r == [] || r == [Send(ip, p)]
    ensures r == [] <==> !c.running || ip == c.peers[c.self]
  {
    if !c.running || ip == IpFromId(c.peers, c.self) then [] else [Send(ip, p)]
  }

  /** Whether the peer-table entry i designates a node the group table marks present. */
  predicate InGroupEntry(c: CentralState, i: int)
    requires Valid(c) && 0 <= i < |c.peers|
  {
    c.allNodes[IdFromIp(c.peers, c.peers[i])].inGroup
  }

  /** The sends of `BroadcastPacket` over the peer-table entries from position `from` on. */
  function BroadcastFrom(c: CentralState, p: Packets.Packet, from: nat): (r: seq<Send>)
    requires Valid(c) && from <= |c.peers|
    decreases |c.peers| - from
  {
    if from == |c.peers| then []
    else
      (if InGroupEntry(c, from) then SendPacket(c, p, c.peers[from]) else [])
      + BroadcastFrom(c, p, from + 1)
  }

  lemma {:induction false} BroadcastFromSends(c: CentralState, p: Packets.Packet, from: nat)
    requires Valid(c) && from <= |c.peers|
    ensures forall s :: s in BroadcastFrom(c, p, from) <==>
      s.packet == p && c.running && s.dest != c.peers[c.self] &&
      exists i :: from <= i < |c.peers| && c.peers[i] == s.dest && InGroupEntry(c, i)
    decreases |c.peers| - from
  {
    if from < |c.peers| {
      BroadcastFromSends(c, p, from + 1);
    }
  }

  /**
   * `BroadcastPacket`: p goes to every address of the peer table whose
   * node the group table marks present, except the node's own address.
   */
  function BroadcastPacket(c: CentralState, p: Packets.Packet): (r: seq<Send>)
    requires Valid(c)
    ensures forall s :: s in r <==>
      s.packet == p && c.running && s.dest != c.peers[c.self] &&
      exists i :: 0 <= i < |c.peers| && c.peers[i] == s.dest && InGroupEntry(c, i)
  {
    BroadcastFromSends(c, p, 0);
    if !c.running then [] else BroadcastFrom(c, p, 0)
  }

  /**
   * `DisseminateData`: the leader enlarges the data set, opens a new term,
   * broadcasts the DATA packet and arms the first retransmission and the
   * next dissemination.
   */
  function DisseminateData(c: CentralState, noise: nat -> Byte): (r: Step)
    requires Valid(c)
    ensures Valid(r.state)
    ensures !c.running || !c.isLeader ==> r == Step(c, [], [])
    ensures c.running && c.isLeader ==>
      r.state == c.(currentTerm := Wrap32(c.currentTerm + 1), sizeOfData := c.sizeOfData + DATA_SIZE_STEP)
      && r.timers == [RetransmitTimer(RETRANSMIT_DELAY, r.state.currentTerm, 1), DisseminateTimer(DISSEMINATION_PERIOD)]
      && r.sends == BroadcastPacket(r.state, Packets.DataPacket(r.state.currentTerm, r.state.sizeOfData, noise))
  {
    if !c.running || !c.isLeader then Step(c, [], [])
    else
      var c1 := c.(sizeOfData := c.sizeOfData + DATA_SIZE_STEP, currentTerm := Wrap32(c.currentTerm + 1));
      var p := Packets.DataPacket(c1.currentTerm, c1.sizeOfData, noise);
      Step(c1, BroadcastPacket(c1, p),
           [RetransmitTimer(RETRANSMIT_DELAY, c1.currentTerm, 1), DisseminateTimer(DISSEMINATION_PERIOD)])
  }

  /** `SendData`: a DATA packet of the current term to one follower. */
  function SendData(c: CentralState, size: int, dest: Ipv4Address, noise: nat -> Byte): (r: seq<Send>)
    requires Valid(c)
    ensures forall s :: s in r ==>
      s.dest == dest && s.packet.service == Packets.DATA && Packets.GetTerm(s.packet) == c.currentTerm
    ensures c.running && c.isLeader && dest != c.peers[c.self] ==> |r| == 1
  {
    if !c.running || !c.isLeader then []
    else
      var p := Packets.DataPacket(c.currentTerm, size, noise);
      Packets.DataPacketTerm(c.currentTerm, size, noise);
      SendPacket(c, p, dest)
  }

  /** Whether follower i is lagging: another node, in the group, behind the current term. */
  predicate Lagging(c: CentralState, i: int)
    requires Valid(c) && 0 <= i < |c.allNodes|
  {
    i != c.self && c.allNodes[i].inGroup && c.allNodes[i].lastTerm < c.currentTerm
  }

  /** The sends of one retransmission round over the entries from position `from` on. */
  function RetransmitFrom(c: CentralState, from: nat, noise: nat -> Byte): (r: seq<Send>)
    requires Valid(c) && from <= |c.allNodes|
    decreases |c.allNodes| - from
  {
    if from == |c.allNodes| then []
    else
      (if Lagging(c, from) then SendData(c, c.sizeOfData, IpFromId(c.peers, from), noise) else [])
      + RetransmitFrom(c, from + 1, noise)
  }

  lemma {:induction false} RetransmitFromSound(c: CentralState, from: nat, noise: nat -> Byte)
    requires Valid(c) && from <= |c.allNodes|
    ensures forall s :: s in RetransmitFrom(c, from, noise) ==>
      Packets.GetTerm(s.packet) == c.currentTerm &&
      exists i :: from <= i < |c.peers| && Lagging(c, i) && s.dest == c.peers[i]
    decreases |c.allNodes| - from
  {
    if from < |c.allNodes| {
      RetransmitFromSound(c, from + 1, noise);
      var here := if Lagging(c, from) then SendData(c, c.sizeOfData, IpFromId(c.peers, from), noise) else [];
      assert RetransmitFrom(c, from, noise) == here + RetransmitFrom(c, from + 1, noise);
      forall s | s in here
        ensures Packets.GetTerm(s.packet) == c.currentTerm && Lagging(c, from) && s.dest == c.peers[from]
      {
      }
    }
  }

  lemma {:induction false} RetransmitFromComplete(c: CentralState, from: nat, noise: nat -> Byte)
    requires Valid(c) && from <= |c.allNodes| && c.running && c.isLeader
    ensures forall i :: from <= i < |c.peers| && Lagging(c, i) && c.peers[i] != c.peers[c.self] ==>
      exists s :: s in RetransmitFrom(c, from, noise) && s.dest == c.peers[i]
    decreases |c.allNodes| - from
  {
    if from < |c.allNodes| {
      RetransmitFromComplete(c, from + 1, noise);
      var here := if Lagging(c, from) then SendData(c, c.sizeOfData, IpFromId(c.peers, from), noise) else [];
      var rest := RetransmitFrom(c, from + 1, noise);
      var all := RetransmitFrom(c, from, noise);
      assert all == here + rest;
      forall i | from <= i < |c.peers| && Lagging(c, i) && c.peers[i] != c.peers[c.self]
        ensures exists s :: s in all && s.dest == c.peers[i]
      {
        if i == from {
          assert |here| == 1 && here[0].dest == c.peers[from];
          assert here[0] in all;
        } else {
          var s :| s in rest && s.dest == c.peers[i];
          assert s in all;
        }
      }
    }
  }

  /**
   * `RetransmitData`: below the increment cap, resend the current term's
   * data to every lagging follower and, if there was one, try again later.
   */
  function RetransmitData(c: CentralState, term: Int32, increment: int, noise: nat -> Byte): (r: Step)
    requires Valid(c)
    ensures r.state == c
    ensures (!c.running || !c.isLeader || increment >= MAX_INCREMENT) ==> r.sends == [] && r.timers == []
    ensures c.running && c.isLeader && increment < MAX_INCREMENT ==>
      ((r.timers == [RetransmitTimer(RETRANSMIT_DELAY, term, increment + 1)]) <==>
       (exists i :: 0 <= i < |c.allNodes| && Lagging(c, i)))
    ensures forall t :: t in r.timers ==> t == RetransmitTimer(RETRANSMIT_DELAY, term, increment + 1)
    ensures forall s :: s in r.sends ==>
      Packets.GetTerm(s.packet) == c.currentTerm &&
      exists i :: 0 <= i < |c.peers| && Lagging(c, i) && s.dest == c.peers[i]
    ensures c.running && c.isLeader && increment < MAX_INCREMENT ==>
      forall i :: 0 <= i < |c.peers| && Lagging(c, i) && c.peers[i] != c.peers[c.self] ==>
        exists s :: s in r.sends && s.dest == c.peers[i]
  {
    if !c.running || !c.isLeader || increment >= MAX_INCREMENT then Step(c, [], [])
    else
      RetransmitFromSound(c, 0, noise);
      RetransmitFromComplete(c, 0, noise);
      var require := exists i :: 0 <= i < |c.allNodes| && Lagging(c, i);
      Step(c, RetransmitFrom(c, 0, noise),
           if require then [RetransmitTimer(RETRANSMIT_DELAY, term, increment + 1)] else [])
  }

  /** Every retransmission round raises the increment, so a chain of rounds stops within the cap. */
  lemma RetransmissionChainBounded(c: CentralState, term: Int32, increment: int, noise: nat -> Byte)
    requires Valid(c)
    ensures forall t :: t in RetransmitData(c, term, increment, noise).timers ==>
      t.RetransmitTimer? && t.increment == increment + 1 && t.increment <= MAX_INCREMENT
  {
  }

  /**
   * `ProcessFollowerResponse`: the leader records the term of the reply
   * against the sender.  An address outside the peer table makes the id
   * -1, and indexing the group table with it is a fault.
   */
  function ProcessFollowerResponse(c: CentralState, p: Packets.Packet, sender: Ipv4Address): (r: Result<CentralState, Fault>)
    requires Valid(c)
    ensures !c.running || !c.isLeader ==> r == Success(c)
    ensures c.running && c.isLeader && sender !in c.peers ==> r == Failure(IndexOutOfRange(-1))
    ensures r.Success? ==> Valid(r.value) && r.value.(allNodes := c.allNodes) == c
    ensures c.running && c.isLeader && sender in c.peers ==>
      r.Success? &&
      var id := IdFromIp(c.peers, sender);
      r.value.allNodes == c.allNodes[id := c.allNodes[id].(lastTerm := Packets.GetTerm(p))]
  {
    if !c.running || !c.isLeader then Success(c)
    else
      var id := IdFromIp(c.peers, sender);
      if id < 0 then Failure(IndexOutOfRange(id))
      else Success(c.(allNodes := c.allNodes[id := c.allNodes[id].(lastTerm := Packets.GetTerm(p))]))
  }

  predicate HasMemberId(group: seq<Member>, id: int)
  {
    exists m :: m in group && m.id == id
  }

  /**
   * `ReceiveNewTopology`: exactly the ids of the new group that index the
   * group table become present; the reply terms are kept.
   */
  function ReceiveNewTopology(c: CentralState, group: seq<Member>): (r: CentralState)
    requires Valid(c)
    ensures Valid(r)
    ensures !c.running ==> r == c
    ensures c.running ==> r.(allNodes := c.allNodes) == c
    ensures c.running ==> forall i :: 0 <= i < |r.allNodes| ==>
      r.allNodes[i] == Follower(HasMemberId(group, i), c.allNodes[i].lastTerm)
  {
    if !c.running then c
    else c.(allNodes := seq(|c.allNodes|, i requires 0 <= i < |c.allNodes| =>
                              Follower(HasMemberId(group, i), c.allNodes[i].lastTerm)))
  }

  /**
   * `ReceivePacket`: a follower answers DATA with a REPLY of the same
   * term; a REPLY goes to `ProcessFollowerResponse`.  A size field below
   * the header makes the payload length negative, which throws and is
   * caught: the packet is dropped.  A buffer shorter than the header, or
   * than the size it declares, is read past its end.
   */
  function ReceivePacket(c: CentralState, from: Ipv4Address, data: Bytes): (r: Result<Step, Fault>)
    requires Valid(c)
    ensures |data| < Packets.HEADER_SIZE ==> r == Failure(MalformedPacket)
    ensures |data| >= Packets.HEADER_SIZE && DecodeInt32(data) < Packets.HEADER_SIZE ==> r == Success(Step(c, [], []))
    ensures |data| >= Packets.HEADER_SIZE && DecodeInt32(data) > |data| ==> r == Failure(MalformedPacket)
    ensures r.Success? ==> r.value.timers == [] && Valid(r.value.state)
    ensures Packets.Parse(data).Success? && Packets.Parse(data).value.service == Packets.DATA ==>
      r == Success(Step(c, SendPacket(c, Packets.ReplyPacket(Packets.GetTerm(Packets.Parse(data).value)), from), []))
  {
    match Packets.Parse(data)
    case Failure(NegativeLength(_)) => Success(Step(c, [], []))
    case Failure(e) => Failure(e)
    case Success(p) =>
      if p.service == Packets.DATA then
        Success(Step(c, SendPacket(c, Packets.ReplyPacket(Packets.GetTerm(p)), from), []))
      else if p.service == Packets.REPLY then
        match ProcessFollowerResponse(c, p, from)
        case Failure(e) => Failure(e)
        case Success(c1) => Success(Step(c1, [], []))
      else Success(Step(c, [], []))
  }

  /** A running follower answers a DATA packet from another node with a REPLY carrying the same term. */
  lemma FollowerReplies(f: CentralState, from: Ipv4Address, term: Int32, size: int, noise: nat -> Byte)
    requires Valid(f) && f.running && from != f.peers[f.self] && size < TWO31 - 9
    ensures ReceivePacket(f, from, Packets.Serialize(Packets.DataPacket(term, size, noise))) ==
      Success(Step(f, [Send(from, Packets.ReplyPacket(term))], []))
  {
    var data := Packets.DataPacket(term, size, noise);
    Packets.TermRecovered(term, size, noise);
    Packets.ParseSerialize(data, []);
    assert Packets.Serialize(data) + [] == Packets.Serialize(data);
  }

  /** Once the leader has processed a follower's REPLY with the current term, it no longer counts that follower as lagging. */
  lemma LeaderTakesReply(c: CentralState, i: nat)
    requires Valid(c) && c.running && c.isLeader && i < |c.peers|
    requires forall a, b :: 0 <= a < b < |c.peers| ==> c.peers[a] != c.peers[b]
    ensures var lr := ReceivePacket(c, c.peers[i], Packets.Serialize(Packets.ReplyPacket(c.currentTerm)));
      lr.Success? && !Lagging(lr.value.state, i)
  {
    var reply := Packets.ReplyPacket(c.currentTerm);
    Packets.TermRecovered(c.currentTerm, 0, _ => 0);
    Packets.ParseSerialize(reply, []);
    assert Packets.Serialize(reply) + [] == Packets.Serialize(reply);
    IdFromIpOfIpFromId(c.peers, i);
  }

  /**
   * One DATA/REPLY exchange ends retransmission to a follower: the
   * follower answers the leader's DATA packet with the same term, and once
   * the leader has processed that reply it no longer counts the follower
   * as lagging.
   */
  lemma ReplyEndsLag(c: CentralState, f: CentralState, i: nat, size: int, noise: nat -> Byte)
    requires Valid(c) && Valid(f) && c.running && c.isLeader && f.running
    requires i < |c.peers|
    requires forall a, b :: 0 <= a < b < |c.peers| ==> c.peers[a] != c.peers[b]
    requires c.peers[c.self] != f.peers[f.self]
    requires size < TWO31 - 9
    ensures
      var data := Packets.DataPacket(c.currentTerm, size, noise);
      var fr := ReceivePacket(f, c.peers[c.self], Packets.Serialize(data));
      fr.Success? && |fr.value.sends| == 1 && fr.value.sends[0].dest == c.peers[c.self] &&
      var lr := ReceivePacket(c, c.peers[i], Packets.Serialize(fr.value.sends[0].packet));
      lr.Success? && !Lagging(lr.value.state, i)
  {
    FollowerReplies(f, c.peers[c.self], c.currentTerm, size, noise);
    LeaderTakesReply(c, i);
  }
}
