/**
 * `B4Mesh`: the state of one node of the blockgraph protocol, the
 * messages it exchanges and the effects its handlers have on the
 * outside world.
 *
 * The node is an immutable record; each handler is a function from the
 * state before to the state after.  Packets sent, blocks handed to the
 * consensus module and callbacks scheduled are appended to `outbox`.
 */
module Node {
  import opened Bytes
  import opened Wrappers
  import opened Faults
  import opened Net
  import opened Transactions
  import opened Blocks
  import opened Assoc
  import opened Blockgraphs

  /** Mempool capacity, in kilobytes. */
  const SIZE_MEMPOOL: int := 5000
  /** Block size ceiling, in kilobytes. */
  const MAX_SIZE_BLOCK: int := 54
  /** Mempool content needed before a block is generated, in kilobytes. */
  const MIN_SIZE_BLOCK: int := 36
  /** Size assumed per transaction when filling a block, in bytes. */
  const TX_MEAN_SIZE: int := 450
  /** Minimum seconds between two generated blocks. */
  const TIME_BTW_BLOCK: int := 15
  /** Age in seconds after which a pending transaction is broadcast again. */
  const RETRANSMISSION_TIMER: int := 60

  /** Natures of a topology change. */
  const NONE: int := 0
  const SPLIT: int := 1
  const MERGE: int := 2
  const ARBITRARY: int := 3

  /** Sub-types of a CHANGE_TOPO message, its first four bytes. */
  const CHILDLESSBLOCK_REQ: Int32 := 0
  const CHILDLESSBLOCK_REP: Int32 := 1
  const GROUPBRANCH_REQ: Int32 := 2

  /**
   * The list an unknown parent is checked against before it is added to
   * the missing list: the missing list itself, or the waiting list as an
   * earlier revision of the code did.
   */
  datatype ParentFilter = AgainstMissingList | AgainstWaitingList

  /** The protocol messages, by service. */
  datatype Message =
    | TransactionMsg(tx: Transaction)
    | BlockMsg(block: Block)
    | RequestBlock(hash: Bytes)
    | ChangeTopo(payload: Bytes)

  datatype Effect =
    | Send(dest: Ipv4Address, msg: Message)
      // a packet handed to the socket
    | ToConsensus(block: Block)
      // a generated block submitted to the consensus module
    | ScheduleBranchRequest(jitter: bool)
      // `SendBranchRequest`, now or after a random delay below one second
    | ScheduleChildlessTimer
      // `timer_childless_fct`, six seconds later
    | ScheduleStartMerge
      // `StartMerge` again, one second later
    | ScheduleTopologyUpdate(change: nat, groupId: Bytes, group: seq<Member>)
      // `UpdateTopologyInfo`, five seconds later

  datatype NodeState = NodeState(
    running: bool,
    self: int,
    selfIp: Ipv4Address,
    peers: seq<Ipv4Address>,
    groupId: Bytes,
    group: seq<Member>,
    previousGroup: seq<Member>,
    groupIdRegister: seq<Bytes>,
    missingList: MultiMap<Ipv4Address>,
    missingChildless: seq<Bytes>,
    waitingList: Map<Block>,
    mempool: Map<Transaction>,
    recoverBranch: MultiMap<int>,
    blockgraph: Graph,
    mergeBlock: bool,
    createBlock: bool,
    startMerge: bool,
    lastBlockCreationTime: int,
    change: nat,
    lastChange: int,
    lastLeader: int,
    lostTrans: nat,
    lostPacket: nat,
    numDumpingBlock: nat,
    numDumpingTxs: nat,
    numRTxsG: nat,
    outbox: seq<Effect>)

  /** The constructor followed by `SetUp(node, peers, …)` and `StartApplication`. */
  function Init(self: int, selfIp: Ipv4Address, peers: seq<Ipv4Address>): (s: NodeState)
    ensures s.running && s.self == self && s.selfIp == selfIp && s.peers == peers
    ensures s.groupId == Zeros(HASH_SIZE) && s.group == [] && s.previousGroup == []
    ensures s.missingList == [] && s.waitingList == [] && s.mempool == [] && s.recoverBranch == []
    ensures s.missingChildless == [] && s.blockgraph == Empty()
    ensures !s.mergeBlock && s.createBlock && !s.startMerge
    ensures s.lastLeader == -1 && s.change == 0 && s.outbox == []
  {
    NodeState(true, self, selfIp, peers, Zeros(HASH_SIZE), [], [], [], [], [], [], [], [],
      Empty(), false, true, false, 0, 0, NONE, -1, 0, 0, 0, 0, 0, [])
  }

  /** `IsBlockInWaitingList`. */
  predicate InWaitingList(s: NodeState, h: Bytes)
  {
    HasKey(s.waitingList, h)
  }

  /** `IsBlockInMissingList`. */
  predicate InMissingList(s: NodeState, h: Bytes)
  {
    HasKey(s.missingList, h)
  }

  /**
   * `GetIdFromIp` as written: the loop runs to `i <= peers.size()`, so an
   * address that is not a peer makes it read one element past the end.
   */
  function GetIdFromIpAsWritten(peers: seq<Ipv4Address>, ip: Ipv4Address): (r: Result<int, Fault>)
    ensures r.Success? <==> ip in peers
    ensures r.Success? ==> 0 <= r.value < |peers| && peers[r.value] == ip
    ensures r.Success? ==> forall j :: 0 <= j < r.value ==> peers[j] != ip
    ensures r.Failure? ==> r.error == IndexOutOfRange(|peers|)
  {
    ScanPeers(peers, ip, 0)
  }

  function ScanPeers(peers: seq<Ipv4Address>, ip: Ipv4Address, i: nat): (r: Result<int, Fault>)
    requires i <= |peers|
    requires forall j :: 0 <= j < i ==> peers[j] != ip
    ensures r.Success? <==> ip in peers
    ensures r.Success? ==> i <= r.value < |peers| && peers[r.value] == ip
    ensures r.Success? ==> forall j :: 0 <= j < r.value ==> peers[j] != ip
    ensures r.Failure? ==> r.error == IndexOutOfRange(|peers|)
    decreases |peers| - i
  {
    if i == |peers| then Failure(IndexOutOfRange(i))
    else if peers[i] == ip then Success(i)
    else ScanPeers(peers, ip, i + 1)
  }

  /**
   * Where the as-written lookup succeeds it agrees with the corrected one,
   * `Net.IdFromIp`; where it reads past the end, the corrected one answers -1.
   */
  lemma GetIdFromIpCorrected(peers: seq<Ipv4Address>, ip: Ipv4Address)
    ensures GetIdFromIpAsWritten(peers, ip).Success? ==> GetIdFromIpAsWritten(peers, ip).value == IdFromIp(peers, ip)
    ensures GetIdFromIpAsWritten(peers, ip).Failure? <==> IdFromIp(peers, ip) == -1
  {
  }

  /** An address outside a one-peer table: the as-written lookup faults, the corrected one gives -1. */
  lemma GetIdFromIpOverrun()
    ensures GetIdFromIpAsWritten([7], 8) == Failure(IndexOutOfRange(1))
    ensures IdFromIp([7], 8) == -1
  {
  }

  /** `GetIpAddressFromId`: `peers[id]`, which is undefined outside the table. */
  function GetIpAddressFromId(peers: seq<Ipv4Address>, id: int): (r: Result<Ipv4Address, Fault>)
    ensures r.Success? <==> 0 <= id < |peers|
    ensures r.Success? ==> r.value == peers[id]
    ensures r.Failure? ==> r.error == IndexOutOfRange(id)
  {
    if 0 <= id < |peers| then Success(peers[id]) else Failure(IndexOutOfRange(id))
  }

  /** `SendPacket`: nothing leaves a stopped node. */
  function SendPacket(s: NodeState, msg: Message, ip: Ipv4Address): (r: NodeState)
    ensures r == s.(outbox := r.outbox)
    ensures r.outbox == s.outbox + (if s.running then [Send(ip, msg)] else [])
  {
    if s.running then s.(outbox := s.outbox + [Send(ip, msg)]) else s
  }

  /** The packets `BroadcastPacket` sends: one per listed address except the node's own. */
  function BroadcastSends(selfIp: Ipv4Address, msg: Message, dests: seq<Ipv4Address>): (r: seq<Effect>)
    ensures forall e :: e in r ==> e.Send? && e.msg == msg && e.dest != selfIp && e.dest in dests
    ensures forall d :: d in dests && d != selfIp ==> Send(d, msg) in r
    ensures |r| <= |dests|
  {
    if |dests| == 0 then []
    else (if dests[0] != selfIp then [Send(dests[0], msg)] else []) + BroadcastSends(selfIp, msg, dests[1..])
  }

  /** `BroadcastPacket`. */
  function BroadcastPacket(s: NodeState, msg: Message, dests: seq<Ipv4Address>): (r: NodeState)
    ensures r == s.(outbox := r.outbox)
    ensures r.outbox == s.outbox + (if s.running then BroadcastSends(s.selfIp, msg, dests) else [])
  {
    if s.running then s.(outbox := s.outbox + BroadcastSends(s.selfIp, msg, dests)) else s
  }

  /** The addresses of a group's members, in order. */
  function Addresses(g: seq<Member>): (r: seq<Ipv4Address>)
    ensures |r| == |g|
    ensures forall i :: 0 <= i < |g| ==> r[i] == g[i].ip
  {
    if |g| == 0 then [] else [g[0].ip] + Addresses(g[1..])
  }

  /**
   * `BroadcastTransaction`: the transaction goes to every member of the
   * current group except the node itself, and a stopped node sends nothing.
   */
  function BroadcastTransaction(s: NodeState, t: Transaction): (r: NodeState)
    ensures r == s.(outbox := r.outbox)
    ensures !s.running ==> r == s
    ensures |s.outbox| <= |r.outbox| && r.outbox[..|s.outbox|] == s.outbox
    ensures s.running ==> forall m :: m in s.group && m.ip != s.selfIp ==> Send(m.ip, TransactionMsg(t)) in r.outbox[|s.outbox|..]
    ensures forall e :: e in r.outbox[|s.outbox|..] ==>
      e.Send? && e.msg == TransactionMsg(t) && e.dest != s.selfIp && e.dest in Addresses(s.group)
  {
    var r := BroadcastPacket(s, TransactionMsg(t), Addresses(s.group));
    assert r.outbox[|s.outbox|..] == (if s.running then BroadcastSends(s.selfIp, TransactionMsg(t), Addresses(s.group)) else []);
    assert forall m :: m in s.group ==> m.ip in Addresses(s.group) by {
      forall m | m in s.group
        ensures m.ip in Addresses(s.group)
      {
        var i :| 0 <= i < |s.group| && s.group[i] == m;
        assert Addresses(s.group)[i] == m.ip;
      }
    }
    r
  }
}
