/**
 * The leader's side of a merge: after a MERGE the leader asks the nodes
 * that joined for their childless hashes, records each answer in the
 * branch registry, and builds the merge block once every new node has
 * answered or the six-second timer expires, whichever comes first.
 */
module Leader {
  import opened Bytes
  import opened Wrappers
  import opened Faults
  import opened Net
  import opened Transactions
  import opened Blocks
  import opened Assoc
  import opened Blockgraphs
  import opened Node
  import opened Sync
  import opened Topology
  import opened Factory

  // ---------------------------------------------------------------------
  // Asking the new nodes
  // ---------------------------------------------------------------------

  /** The CHILDLESSBLOCK_REQ payload: the message type alone. */
  function ChildlessRequest(): (r: Bytes)
    ensures |r| == 4 && DecodeInt32(r) == CHILDLESSBLOCK_REQ
  {
    DecodeEncodeInt32(CHILDLESSBLOCK_REQ, []);
    assert EncodeInt32(CHILDLESSBLOCK_REQ) + [] == EncodeInt32(CHILDLESSBLOCK_REQ);
    EncodeInt32(CHILDLESSBLOCK_REQ)
  }

  /**
   * The effects added after `prefix` are requests for childless hashes,
   * one to each new node other than the node itself and to nobody else,
   * followed by the reply timer.
   */
  predicate AsksNewNodes(s: NodeState, prefix: seq<Effect>, out: seq<Effect>)
  {
    && |prefix| < |out| && out[..|prefix|] == prefix
    && out[|out| - 1] == ScheduleChildlessTimer
    && (forall m :: m in GetNewNodes(s) && m.ip != s.selfIp ==>
          Send(m.ip, ChangeTopo(ChildlessRequest())) in out[|prefix|..|out| - 1])
    && (forall e :: e in out[|prefix|..|out| - 1] ==>
          e.Send? && e.msg == ChangeTopo(ChildlessRequest()) && e.dest != s.selfIp && e.dest in Addresses(GetNewNodes(s)))
  }

  /**
   * `Ask4ChildlessHashes`: the request is broadcast to the new nodes and
   * the reply timer is armed; a stopped node sends nothing but still arms
   * the timer.
   */
  function Ask4ChildlessHashes(s: NodeState): (r: NodeState)
    ensures r == s.(outbox := r.outbox)
    ensures s.running ==> AsksNewNodes(s, s.outbox, r.outbox)
    ensures !s.running ==> r.outbox == s.outbox + [ScheduleChildlessTimer]
  {
    var dests := Addresses(GetNewNodes(s));
    var msg := ChangeTopo(ChildlessRequest());
    var b := BroadcastPacket(s, msg, dests);
    var r := b.(outbox := b.outbox + [ScheduleChildlessTimer]);
    if s.running then AsksEveryNewNode(s, s.outbox); r else r
  }

  /** The broadcast to the new nodes, followed by the reply timer, asks each of them and nobody else. */
  lemma AsksEveryNewNode(s: NodeState, prefix: seq<Effect>)
    ensures AsksNewNodes(s, prefix,
      prefix + BroadcastSends(s.selfIp, ChangeTopo(ChildlessRequest()), Addresses(GetNewNodes(s))) + [ScheduleChildlessTimer])
  {
    var news := GetNewNodes(s);
    var dests := Addresses(news);
    var sends := BroadcastSends(s.selfIp, ChangeTopo(ChildlessRequest()), dests);
    var out := prefix + sends + [ScheduleChildlessTimer];
    assert out[..|prefix|] == prefix;
    assert out[|prefix|..|out| - 1] == sends;
    forall m | m in news
      ensures m.ip in dests
    {
      var i :| 0 <= i < |news| && news[i] == m;
      assert dests[i] == m.ip;
    }
  }

  /**
   * `StartMerge`: a running leader whose topology has settled stops block
   * creation, asks the new nodes and disarms the merge; one whose
   * topology has not settled tries again a second later.
   */
  function StartMerge(s: NodeState, isLeader: bool): (r: NodeState)
    ensures !s.running || !isLeader ==> r == s
    ensures s.running && isLeader && !s.startMerge ==> r == s.(outbox := s.outbox + [ScheduleStartMerge])
    ensures s.running && isLeader && s.startMerge ==>
      && r == s.(createBlock := false, startMerge := false, outbox := r.outbox)
      && AsksNewNodes(s, s.outbox, r.outbox)
  {
    if !s.running || !isLeader then s
    else if s.startMerge then Ask4ChildlessHashes(s.(createBlock := false)).(startMerge := false)
    else s.(outbox := s.outbox + [ScheduleStartMerge])
  }

  // ---------------------------------------------------------------------
  // Answers
  // ---------------------------------------------------------------------

  /** Some entry of the branch registry names the id as a holder. */
  predicate Answered(rb: MultiMap<int>, id: int)
  {
    exists i :: 0 <= i < |rb| && rb[i].1 == id
  }

  /** The holder of an entry is registered for the entry's hash. */
  lemma {:induction false} EntryRegistered(rb: seq<Entry<int>>, i: nat)
    requires i < |rb|
    ensures rb[i].1 in Values(rb, rb[i].0)
    decreases i
  {
    if i > 0 {
      EntryRegistered(rb[1..], i - 1);
      assert rb[1..][i - 1] == rb[i];
    }
  }

  /** A holder registered for some hash has answered. */
  lemma {:induction false} RegisteredAnswered(rb: seq<Entry<int>>, id: int, k: Bytes)
    requires id in Values(rb, k)
    ensures exists i :: 0 <= i < |rb| && rb[i].1 == id
    decreases |rb|
  {
    if !(rb[0].0 == k && rb[0].1 == id) {
      assert id in Values(rb[1..], k);
      RegisteredAnswered(rb[1..], id, k);
      var i :| 0 <= i < |rb[1..]| && rb[1..][i].1 == id;
      assert rb[i + 1].1 == id;
    }
  }

  /** The members of `nodes` whose id has not answered yet, in order. */
  function AwaitedIn(nodes: seq<Member>, rb: MultiMap<int>): (r: seq<Member>)
    ensures forall m :: m in r <==> m in nodes && !Answered(rb, m.id)
    ensures |r| == 0 <==> forall m :: m in nodes ==> Answered(rb, m.id)
    ensures |r| <= |nodes|
  {
    if |nodes| == 0 then []
    else (if Answered(rb, nodes[0].id) then [] else [nodes[0]]) + AwaitedIn(nodes[1..], rb)
  }

  /** The new nodes whose childless hashes the leader still waits for; `ans` counts them. */
  function Awaited(s: NodeState): (r: seq<Member>)
    ensures forall m :: m in r <==> m in GetNewNodes(s) && !Answered(s.recoverBranch, m.id)
    ensures |r| == 0 <==> forall m :: m in GetNewNodes(s) ==> Answered(s.recoverBranch, m.id)
  {
    AwaitedIn(GetNewNodes(s), s.recoverBranch)
  }

  /** With nothing registered, every new node is awaited. */
  lemma {:induction false} NoneAnswered(nodes: seq<Member>)
    ensures AwaitedIn(nodes, []) == nodes
    decreases |nodes|
  {
    if |nodes| > 0 {
      var rest := nodes[1..];
      NoneAnswered(rest);
      var head: seq<Member> := if Answered([], nodes[0].id) then [] else [nodes[0]];
      assert head == [nodes[0]];
      assert AwaitedIn(nodes, []) == head + AwaitedIn(rest, []);
      assert nodes == head + rest;
    }
  }

  // ---------------------------------------------------------------------
  // Building the merge block
  // ---------------------------------------------------------------------

  /** What the merge generator needs: a group id and parents that pad to the hash width. */
  predicate MergeFits(s: NodeState)
  {
    |s.groupId| <= HASH_SIZE && ParentsFit(MergeParents(GetChildlessBlockList(s.blockgraph), s.missingChildless))
  }

  /**
   * `t` is `s` after a merge block went to consensus: block creation is
   * back on, the merge flag is down, the creation time is recorded, and
   * the one effect added submits a merge block whose parents are the tips
   * followed by the missing childless hashes.
   */
  predicate Merged(s: NodeState, t: NodeState)
  {
    && t == s.(createBlock := true, mergeBlock := false, lastBlockCreationTime := t.lastBlockCreationTime, outbox := t.outbox)
    && |t.outbox| == |s.outbox| + 1 && t.outbox[..|s.outbox|] == s.outbox
    && t.outbox[|s.outbox|].ToConsensus?
    && t.outbox[|s.outbox|].block.blockType == MERGE_BLOCK
    && t.outbox[|s.outbox|].block.leader == Wrap32(s.self)
    && PadHashes(MergeParents(GetChildlessBlockList(s.blockgraph), s.missingChildless)) == Success(t.outbox[|s.outbox|].block.parents)
  }

  /** The merge and creation flags raised, then `GenerateBlocks`. */
  function MergeNow(s: NodeState, env: Env, now: Time): (r: Result<NodeState, Fault>)
    ensures r.Success? <==> MergeFits(s)
    ensures r.Success? ==> Merged(s, r.value)
  {
    var s1 := s.(mergeBlock := true, createBlock := true);
    var g := GenerateBlocks(s1, env, now);
    MergeGenerates(s1, env, now);
    if g.Success? then
      RaisedMergeMerged(s, env, now);
      Success(g.value.0)
    else
      Failure(g.error)
  }

  /** The merge block generated once the flags are raised leaves the state `Merged` describes. */
  lemma RaisedMergeMerged(s: NodeState, env: Env, now: Time)
    requires GenerateBlocks(s.(mergeBlock := true, createBlock := true), env, now).Success?
    ensures Merged(s, GenerateBlocks(s.(mergeBlock := true, createBlock := true), env, now).value.0)
  {
    var s1 := s.(mergeBlock := true, createBlock := true);
    MergeBuilt(s1, env, now);
    var g := GenerateBlocks(s1, env, now).value;
    var n, blk := g.0, g.1;
    assert n.outbox == s.outbox + [ToConsensus(blk)];
    assert n.outbox[|s.outbox|] == ToConsensus(blk);
    assert n.outbox[..|s.outbox|] == s.outbox;
    assert n == s.(createBlock := true, mergeBlock := false, lastBlockCreationTime := n.lastBlockCreationTime, outbox := n.outbox);
  }

  /** `timer_childless_fct`: unless block creation is already back on, the merge block is built now. */
  function TimerChildless(s: NodeState, env: Env, now: Time): (r: Result<NodeState, Fault>)
    ensures s.createBlock ==> r == Success(s)
    ensures !s.createBlock ==> (r.Success? <==> MergeFits(s))
    ensures !s.createBlock && r.Success? ==> Merged(s, r.value)
  {
    if s.createBlock then Success(s) else MergeNow(s, env, now)
  }

  /**
   * `CheckMergeBlockCreation`: the merge block is built early once no new
   * node is awaited, unless block creation is already back on.
   */
  function CheckMergeBlockCreation(s: NodeState, env: Env, now: Time): (r: Result<NodeState, Fault>)
    ensures |Awaited(s)| > 0 || s.createBlock ==> r == Success(s)
    ensures |Awaited(s)| == 0 && !s.createBlock ==> (r.Success? <==> MergeFits(s))
    ensures |Awaited(s)| == 0 && !s.createBlock && r.Success? ==> Merged(s, r.value)
  {
    if |Awaited(s)| == 0 && !s.createBlock then MergeNow(s, env, now) else Success(s)
  }

  /** Once a merge block went out, neither the timer nor a late answer builds another. */
  lemma MergeBuiltOnce(s: NodeState, t: NodeState, env: Env, now: Time)
    requires Merged(s, t)
    ensures TimerChildless(t, env, now) == Success(t)
    ensures CheckMergeBlockCreation(t, env, now) == Success(t)
  {
  }

  // ---------------------------------------------------------------------
  // ProcessChildlessResponse
  // ---------------------------------------------------------------------

  /** Each hash paired with the address that announced it. */
  function Pairs(hs: seq<Bytes>, sender: Ipv4Address): (r: seq<(Bytes, Ipv4Address)>)
    ensures |r| == |hs|
    ensures forall i :: 0 <= i < |hs| ==> r[i] == (hs[i], sender)
  {
    if |hs| == 0 then [] else [(hs[0], sender)] + Pairs(hs[1..], sender)
  }

  /** `ChildlessHashTreatment` of each announced hash, in order. */
  function TreatReply(s: NodeState, hs: seq<Bytes>, sender: Ipv4Address): (r: NodeState)
    ensures r == s.(missingList := r.missingList, missingChildless := r.missingChildless, recoverBranch := r.recoverBranch)
  {
    TreatRecords(s, Pairs(hs, sender))
  }

  /**
   * `ProcessChildlessResponse`: the reply is split into 32-byte hashes,
   * each is treated, and the merge block is built if nobody is awaited
   * any longer.  A reply that does not split throws before any hash is
   * treated.
   */
  function ProcessChildlessResponse(s: NodeState, payload: Bytes, sender: Ipv4Address, env: Env, now: Time): (r: Result<NodeState, Fault>)
    ensures ParseChildlessReply(payload).None? ==> r == Failure(SubstrOutOfRange)
    ensures ParseChildlessReply(payload).Some? ==>
      r == CheckMergeBlockCreation(TreatReply(s, ParseChildlessReply(payload).value, sender), env, now)
  {
    match ParseChildlessReply(payload)
    case None => Failure(SubstrOutOfRange)
    case Some(hs) => CheckMergeBlockCreation(TreatReply(s, hs, sender), env, now)
  }

  /**
   * The CHILDLESSBLOCK_REP branch of `ReceivePacket`.  Its trace line looks
   * the sender up with `GetIdFromIp` as written, which reads past the peer
   * table for a sender outside it, before anything else happens.  A reply
   * that does not split is caught and counted as a lost packet, and
   * nothing else changes.
   */
  function ReceiveChildlessReply(s: NodeState, payload: Bytes, sender: Ipv4Address, env: Env, now: Time): (r: Result<NodeState, Fault>)
    ensures sender !in s.peers ==> r == Failure(IndexOutOfRange(|s.peers|))
    ensures sender in s.peers && ParseChildlessReply(payload).None? ==> r == Success(s.(lostPacket := s.lostPacket + 1))
    ensures sender in s.peers && ParseChildlessReply(payload).Some? ==> r == ProcessChildlessResponse(s, payload, sender, env, now)
  {
    match GetIdFromIpAsWritten(s.peers, sender)
    case Failure(e) => Failure(e)
    case Success(_) =>
      if ParseChildlessReply(payload).None? then Success(s.(lostPacket := s.lostPacket + 1))
      else ProcessChildlessResponse(s, payload, sender, env, now)
  }

  /**
   * A reply that is not dropped at the trace line comes from a peer, so
   * every registration its treatment makes is the one the code makes with
   * its own lookup.
   */
  lemma ReplyRegistersAsWritten(s: NodeState, payload: Bytes, sender: Ipv4Address, env: Env, now: Time)
    requires ReceiveChildlessReply(s, payload, sender, env, now).Success?
    ensures sender in s.peers
    ensures forall t: NodeState, h :: t.peers == s.peers ==> RegisterNodeAsWritten(t, h, sender) == Success(RegisterNode(t, h, sender))
  {
  }

  /** A hash the sender announced and the leader registers makes the sender answered. */
  lemma ReplyAnswers(s: NodeState, hs: seq<Bytes>, sender: Ipv4Address, i: nat)
    requires i < |hs| && Registers(s, hs[i])
    ensures Answered(TreatReply(s, hs, sender).recoverBranch, IdFromIp(s.peers, sender))
  {
    var recs := Pairs(hs, sender);
    var t := TreatReply(s, hs, sender);
    TreatRecordsRegisters(s, recs, i);
    assert recs[i] == (hs[i], sender);
    RegisteredAnswered(t.recoverBranch, IdFromIp(s.peers, sender), hs[i]);
  }

  /** Treating a reply never makes an answered node awaited again. */
  lemma ReplyKeepsAnswers(s: NodeState, hs: seq<Bytes>, sender: Ipv4Address)
    ensures forall m :: m in Awaited(TreatReply(s, hs, sender)) ==> m in Awaited(s)
  {
    var t := TreatReply(s, hs, sender);
    TreatRecordsKeeps(s, Pairs(hs, sender));
    assert GetNewNodes(t) == GetNewNodes(s);
    forall m | m in Awaited(t)
      ensures m in Awaited(s)
    {
      if Answered(s.recoverBranch, m.id) {
        AnsweredKept(s.recoverBranch, t.recoverBranch, m.id);
      }
    }
  }

  /** A registry that keeps every registration keeps every answer. */
  lemma AnsweredKept(a: MultiMap<int>, b: MultiMap<int>, id: int)
    requires forall x, v :: v in Values(a, x) ==> v in Values(b, x)
    requires Answered(a, id)
    ensures Answered(b, id)
  {
    var i :| 0 <= i < |a| && a[i].1 == id;
    EntryRegistered(a, i);
    RegisteredAnswered(b, id, a[i].0);
  }

  /**
   * A successful reply either leaves the treated state as it is or, when
   * no new node is awaited any longer and creation was off, submits the
   * merge block.
   */
  lemma ReplyMergesOnlyWhenAllAnswered(s: NodeState, payload: Bytes, sender: Ipv4Address, env: Env, now: Time)
    requires ProcessChildlessResponse(s, payload, sender, env, now).Success?
    ensures var t := TreatReply(s, ParseChildlessReply(payload).value, sender);
      var r := ProcessChildlessResponse(s, payload, sender, env, now).value;
      r == t || (|Awaited(t)| == 0 && !s.createBlock && Merged(t, r))
  {
  }

  /**
   * The last awaited node's reply, naming a hash the leader registers,
   * completes the merge: the merge block goes to consensus.
   */
  lemma LastReplyMerges(s: NodeState, payload: Bytes, sender: Ipv4Address, env: Env, now: Time, m: Member, i: nat)
    requires ParseChildlessReply(payload).Some?
    requires i < |ParseChildlessReply(payload).value| && Registers(s, ParseChildlessReply(payload).value[i])
    requires !s.createBlock && forall a :: a in Awaited(s) ==> a == m
    requires IdFromIp(s.peers, sender) == m.id
    requires MergeFits(TreatReply(s, ParseChildlessReply(payload).value, sender))
    ensures ProcessChildlessResponse(s, payload, sender, env, now).Success?
    ensures Merged(TreatReply(s, ParseChildlessReply(payload).value, sender), ProcessChildlessResponse(s, payload, sender, env, now).value)
  {
    var hs := ParseChildlessReply(payload).value;
    var t := TreatReply(s, hs, sender);
    assert |Awaited(t)| == 0 by {
      ReplyAnswers(s, hs, sender, i);
      ReplyKeepsAnswers(s, hs, sender);
    }
    assert !t.createBlock;
    assert ProcessChildlessResponse(s, payload, sender, env, now) == CheckMergeBlockCreation(t, env, now);
  }

  // ---------------------------------------------------------------------
  // A merge round
  // ---------------------------------------------------------------------

  /**
   * After a MERGE is adopted and the leader starts the merge, block
   * creation is off, every new node is awaited, and each of them other
   * than the node itself has been asked.
   */
  lemma MergeRoundAsksAwaited(s: NodeState, groupId: Bytes, group: seq<Member>)
    requires s.running && s.lastChange == MERGE && groupId != s.groupId
    ensures var t := StartMerge(UpdateTopologyInfo(s, s.change, groupId, group), true);
      && !t.createBlock && !t.startMerge
      && Awaited(t) == GetNewNodes(t)
      && GetNewNodes(t) == NewIn(group, s.group, s.self)
      && AsksNewNodes(t, s.outbox, t.outbox)
  {
    var u := UpdateTopologyInfo(s, s.change, groupId, group);
    NoneAnswered(GetNewNodes(u));
  }
}
