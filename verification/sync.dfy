/**
 * Merge reconciliation as every node runs it: the (node, childless hash)
 * records a merge block carries, the registry of which node holds which
 * branch tip (`recover_branch`), the treatment of one announced childless
 * hash, the childless-hash reply, and the branch requests that follow a
 * merge block.
 */
module Sync {
  import opened Bytes
  import opened Wrappers
  import opened Faults
  import opened Decimal
  import opened Net
  import opened Transactions
  import opened Assoc
  import opened Blockgraphs
  import opened Node

  // ---------------------------------------------------------------------
  // Merge-block records
  // ---------------------------------------------------------------------

  /** The payload of one merge-block record: the holder's id in decimal, a space, the childless hash. */
  function EncodeRecord(id: int, hash: Bytes): (r: Bytes)
    ensures |r| == |ToString(id)| + 1 + |hash|
    ensures r[|ToString(id)|] == SPACE && r[|ToString(id)| + 1..] == hash
  {
    ToString(id) + [SPACE] + hash
  }

  /**
   * The reading of one record in `StartSyncProcedure`: `stoi` of the text
   * before the first space and the text after it.  Without a space
   * `substr(npos + 1)` is the whole payload.  A failing `stoi` throws out
   * of the handler.
   */
  function ParseRecord(p: Bytes): (r: Result<(Int32, Bytes), Fault>)
  {
    var (head, rest) := SplitAtSpace(p);
    match Stoi(head)
    case None => Failure(BadRecord(p))
    case Some(id) => Success((id, rest))
  }

  /**
   * What `ParseRecord` reads: without a space, the id from the whole
   * payload and the payload again as the hash; otherwise the id from the
   * space-free word before the first space and the hash after it.
   */
  lemma ParseRecordReads(p: Bytes)
    ensures ParseRecord(p).Failure? ==> ParseRecord(p).error == BadRecord(p)
    ensures ParseRecord(p).Success? && SPACE !in p ==>
      ParseRecord(p).value.1 == p && Stoi(p) == Some(ParseRecord(p).value.0)
    ensures ParseRecord(p).Success? && SPACE in p ==> exists w ::
      SPACE !in w && p == w + [SPACE] + ParseRecord(p).value.1 && Stoi(w) == Some(ParseRecord(p).value.0)
  {
  }

  /** A record built by the merge-block generator is read back as the id and hash it was built from. */
  lemma RecordRoundTrip(id: Int32, hash: Bytes)
    ensures ParseRecord(EncodeRecord(id, hash)) == Success((id, hash))
  {
    var w := ToString(id);
    assert SPACE !in w by {
      forall i | 0 <= i < |w|
        ensures w[i] != SPACE
      {
      }
    }
    SplitAtSpaceOfWord(w, hash);
    StoiToString(id);
  }

  // ---------------------------------------------------------------------
  // The branch registry
  // ---------------------------------------------------------------------

  /**
   * `RegisterNode`: the sender's id is recorded as a holder of the hash,
   * once.  The id is looked up with the bounded `IdFromIp`.  Every caller
   * passes a sender from the peer table: a childless reply from any other
   * sender faults at its trace line before it is treated
   * (`Leader.ReceiveChildlessReply`), and the records of a merge block name
   * `peers[id]`.  There the bounded lookup is the one the code performs
   * (`RegisterNodeAsWritten`).
   */
  function RegisterNode(s: NodeState, h: Bytes, sender: Ipv4Address): (r: NodeState)
    ensures r == s.(recoverBranch := r.recoverBranch)
    ensures IdFromIp(s.peers, sender) in Values(r.recoverBranch, h)
    ensures IdFromIp(s.peers, sender) in Values(s.recoverBranch, h) ==> r == s
    ensures IdFromIp(s.peers, sender) !in Values(s.recoverBranch, h) ==>
      Values(r.recoverBranch, h) == Values(s.recoverBranch, h) + [IdFromIp(s.peers, sender)]
    ensures forall x :: x != h ==> Values(r.recoverBranch, x) == Values(s.recoverBranch, x)
    ensures UniquePairs(s.recoverBranch) ==> UniquePairs(r.recoverBranch)
  {
    s.(recoverBranch := InsertNew(s.recoverBranch, h, IdFromIp(s.peers, sender)))
  }

  /**
   * `RegisterNode` with the lookup as written: a sender outside the peer
   * table makes `GetIdFromIp` read past its end; any other sender is
   * registered exactly as `RegisterNode` does.
   */
  function RegisterNodeAsWritten(s: NodeState, h: Bytes, sender: Ipv4Address): (r: Result<NodeState, Fault>)
    ensures r.Failure? <==> sender !in s.peers
    ensures r.Failure? ==> r.error == IndexOutOfRange(|s.peers|)
    ensures r.Success? ==> r.value == RegisterNode(s, h, sender)
  {
    match GetIdFromIpAsWritten(s.peers, sender)
    case Failure(e) => Failure(e)
    case Success(id) =>
      GetIdFromIpCorrected(s.peers, sender);
      Success(s.(recoverBranch := InsertNew(s.recoverBranch, h, id)))
  }

  /** A first missing-list entry for `h`, to be requested from `sender`. */
  function AddMissing(ml: MultiMap<Ipv4Address>, h: Bytes, sender: Ipv4Address): (r: MultiMap<Ipv4Address>)
    requires !HasKey(ml, h)
    ensures Values(r, h) == [sender]
    ensures forall x :: x != h ==> Values(r, x) == Values(ml, x)
    ensures Keys(r) == Keys(ml) + {h}
    ensures UniquePairs(ml) ==> UniquePairs(r)
  {
    assert Values(ml, h) == [] by {
      assert Count(ml, h) == 0;
    }
    InsertAtUpperBound(ml, h, sender);
    assert UniquePairs(ml) ==> UniquePairs(Insert(ml, h, sender)) by {
      if UniquePairs(ml) {
        InsertFresh(ml, h, sender);
      }
    }
    Insert(ml, h, sender)
  }

  /** Appends `h` unless the list already holds it. */
  function AppendNew(l: seq<Bytes>, h: Bytes): (r: seq<Bytes>)
    ensures h in r && forall x :: x in r <==> x in l || x == h
    ensures r == l || r == l + [h]
    ensures r != l <==> h !in l
    ensures Distinct(l) ==> Distinct(r)
  {
    if h in l then l else l + [h]
  }

  /** A hash the node knows nothing about: neither stored nor waiting nor missing. */
  predicate Unknown(s: NodeState, h: Bytes)
  {
    !HasBlock(s.blockgraph, h) && !InWaitingList(s, h) && !InMissingList(s, h)
  }

  /** The hashes for which the sender is registered: a tip of the node's own, or a block it has not received. */
  predicate Registers(s: NodeState, h: Bytes)
  {
    h in GetChildlessBlockList(s.blockgraph) || (!HasBlock(s.blockgraph, h) && !InWaitingList(s, h))
  }

  /**
   * `ChildlessHashTreatment`: a hash announced by `sender` as one of its
   * tips.  A tip shared with the node, or a hash already missing, only
   * registers the sender; a hash stored or waiting is ignored; an unknown
   * hash also becomes missing, requested from the sender, and a missing
   * childless hash.
   */
  function ChildlessHashTreatment(s: NodeState, h: Bytes, sender: Ipv4Address): (r: NodeState)
    ensures r == s.(missingList := r.missingList, missingChildless := r.missingChildless, recoverBranch := r.recoverBranch)
    ensures !Registers(s, h) ==> r == s
  {
    if h in GetChildlessBlockList(s.blockgraph) then
      RegisterNode(s, h, sender)
    else if HasBlock(s.blockgraph, h) || InWaitingList(s, h) then
      s
    else if InMissingList(s, h) then
      RegisterNode(s, h, sender)
    else
      var ml := AddMissing(s.missingList, h, sender);
      var mc := AppendNew(s.missingChildless, h);
      s.(missingList := ml, missingChildless := mc,
         recoverBranch := InsertNew(s.recoverBranch, h, IdFromIp(s.peers, sender)))
  }

  /** The treatment registers the sender for a hash it registers, and touches no other hash. */
  lemma ChildlessHashRegisters(s: NodeState, h: Bytes, sender: Ipv4Address)
    ensures var r := ChildlessHashTreatment(s, h, sender);
      && (Registers(s, h) ==> IdFromIp(s.peers, sender) in Values(r.recoverBranch, h))
      && (forall x :: x != h ==> Values(r.recoverBranch, x) == Values(s.recoverBranch, x))
      && (forall v :: v in Values(s.recoverBranch, h) ==> v in Values(r.recoverBranch, h))
      && (UniquePairs(s.recoverBranch) ==> UniquePairs(r.recoverBranch))
  {
    var rb := ChildlessHashTreatment(s, h, sender).recoverBranch;
    var nb := InsertNew(s.recoverBranch, h, IdFromIp(s.peers, sender));
    if Registers(s, h) {
      assert rb == nb || rb == RegisterNode(s, h, sender).recoverBranch;
    } else {
      assert rb == s.recoverBranch;
    }
  }

  /** Only an unknown hash becomes missing, requested from the sender. */
  lemma ChildlessHashMissing(s: NodeState, h: Bytes, sender: Ipv4Address)
    ensures var r := ChildlessHashTreatment(s, h, sender);
      && (Unknown(s, h) ==> Values(r.missingList, h) == [sender] && Keys(r.missingList) == Keys(s.missingList) + {h})
      && (!Unknown(s, h) ==> r.missingList == s.missingList)
      && (forall x :: x != h ==> Values(r.missingList, x) == Values(s.missingList, x))
      && (UniquePairs(s.missingList) ==> UniquePairs(r.missingList))
  {
  }

  /** Only an unknown hash joins the missing childless hashes, once. */
  lemma ChildlessHashMissingTip(s: NodeState, h: Bytes, sender: Ipv4Address)
    ensures var r := ChildlessHashTreatment(s, h, sender);
      && (r.missingChildless == s.missingChildless || r.missingChildless == s.missingChildless + [h])
      && (r.missingChildless != s.missingChildless <==> Unknown(s, h) && h !in s.missingChildless)
      && (Distinct(s.missingChildless) ==> Distinct(r.missingChildless))
  {
  }

  // ---------------------------------------------------------------------
  // StartSyncProcedure
  // ---------------------------------------------------------------------

  /** A record `StartSyncProcedure` gets through: it parses and its id indexes the peer table. */
  predicate RecordOk(peers: seq<Ipv4Address>, p: Bytes)
  {
    ParseRecord(p).Success? && 0 <= ParseRecord(p).value.0 < |peers|
  }

  function RecordId(p: Bytes): int
    requires ParseRecord(p).Success?
  {
    ParseRecord(p).value.0 as int
  }

  function RecordHash(p: Bytes): Bytes
    requires ParseRecord(p).Success?
  {
    ParseRecord(p).value.1
  }

  /** The hashes named by the readable records. */
  function RecordHashes(txs: seq<Transaction>): (r: set<Bytes>)
    ensures forall i :: 0 <= i < |txs| && ParseRecord(txs[i].payload).Success? ==> RecordHash(txs[i].payload) in r
  {
    set i | 0 <= i < |txs| && ParseRecord(txs[i].payload).Success? :: RecordHash(txs[i].payload)
  }

  /**
   * The reading of the records, in order: each is parsed and its id looked
   * up in the peer table, giving the announced hash and the holder's
   * address.  The first bad record aborts the handler.
   */
  function ReadRecords(peers: seq<Ipv4Address>, txs: seq<Transaction>): (r: Result<seq<(Bytes, Ipv4Address)>, Fault>)
    ensures r.Success? ==> |r.value| == |txs|
  {
    ReadParsed(peers, ParseAll(txs))
  }

  /** Every payload parsed, in order. */
  function ParseAll(txs: seq<Transaction>): (r: seq<Result<(Int32, Bytes), Fault>>)
    ensures |r| == |txs|
  {
    seq(|txs|, i requires 0 <= i < |txs| => ParseRecord(txs[i].payload))
  }

  /** The parsed records checked in order, each id looked up in the peer table. */
  function ReadParsed(peers: seq<Ipv4Address>, ps: seq<Result<(Int32, Bytes), Fault>>): (r: Result<seq<(Bytes, Ipv4Address)>, Fault>)
    ensures r.Success? ==> |r.value| == |ps|
  {
    if |ps| == 0 then Success([])
    else if ps[0].Failure? then Failure(ps[0].error)
    else if !(0 <= ps[0].value.0 < |peers|) then Failure(IndexOutOfRange(ps[0].value.0 as int))
    else
      var t :- ReadParsed(peers, ps[1..]);
      Success([(ps[0].value.1, peers[ps[0].value.0])] + t)
  }

  lemma {:induction false} ReadParsedOk(peers: seq<Ipv4Address>, ps: seq<Result<(Int32, Bytes), Fault>>)
    ensures ReadParsed(peers, ps).Success? <==>
      forall i :: 0 <= i < |ps| ==> ps[i].Success? && 0 <= ps[i].value.0 < |peers|
  {
    if |ps| > 0 {
      ReadParsedOk(peers, ps[1..]);
      assert forall i :: 1 <= i < |ps| ==> ps[1..][i - 1] == ps[i];
    }
  }

  lemma {:induction false} ReadParsedValues(peers: seq<Ipv4Address>, ps: seq<Result<(Int32, Bytes), Fault>>, i: nat)
    requires ReadParsed(peers, ps).Success? && i < |ps|
    ensures ps[i].Success? && 0 <= ps[i].value.0 < |peers|
    ensures ReadParsed(peers, ps).value[i] == (ps[i].value.1, peers[ps[i].value.0])
  {
    if i > 0 {
      ReadParsedValues(peers, ps[1..], i - 1);
      assert ps[1..][i - 1] == ps[i];
    }
  }

  /** The reading succeeds exactly when every record is well formed. */
  lemma ReadRecordsOk(peers: seq<Ipv4Address>, txs: seq<Transaction>)
    ensures ReadRecords(peers, txs).Success? <==> forall i :: 0 <= i < |txs| ==> RecordOk(peers, txs[i].payload)
  {
    var ps := ParseAll(txs);
    ReadParsedOk(peers, ps);
    assert forall i :: 0 <= i < |txs| ==> ps[i] == ParseRecord(txs[i].payload);
  }

  /** A successful reading gives each record's hash and the address of the holder it names. */
  lemma ReadRecordsValues(peers: seq<Ipv4Address>, txs: seq<Transaction>, i: nat)
    requires ReadRecords(peers, txs).Success? && i < |txs|
    ensures RecordOk(peers, txs[i].payload)
    ensures ReadRecords(peers, txs).value[i] == (RecordHash(txs[i].payload), peers[RecordId(txs[i].payload)])
  {
    ReadParsedValues(peers, ParseAll(txs), i);
  }

  /** `ChildlessHashTreatment` of each (hash, holder address) pair, in order. */
  function TreatRecords(s: NodeState, recs: seq<(Bytes, Ipv4Address)>): (r: NodeState)
    ensures r == s.(missingList := r.missingList, missingChildless := r.missingChildless, recoverBranch := r.recoverBranch)
    decreases |recs|
  {
    if |recs| == 0 then s else TreatRecords(ChildlessHashTreatment(s, recs[0].0, recs[0].1), recs[1..])
  }

  /** The hashes of the pairs. */
  function PairHashes(recs: seq<(Bytes, Ipv4Address)>): (r: set<Bytes>)
    ensures forall i :: 0 <= i < |recs| ==> recs[i].0 in r
    ensures forall x :: x in r ==> exists i :: 0 <= i < |recs| && recs[i].0 == x
  {
    set i | 0 <= i < |recs| :: recs[i].0
  }

  /**
   * The records read in order, then treated in order: as `StartSyncProcedure`
   * does it record by record, since the treatment leaves the peer table
   * alone and a bad record aborts the handler.
   */
  function SyncRecords(s: NodeState, txs: seq<Transaction>): (r: Result<NodeState, Fault>)
    ensures r.Success? <==> forall i :: 0 <= i < |txs| ==> RecordOk(s.peers, txs[i].payload)
    ensures r.Success? ==>
      r.value == s.(missingList := r.value.missingList, missingChildless := r.value.missingChildless,
                    recoverBranch := r.value.recoverBranch)
  {
    ReadRecordsOk(s.peers, txs);
    var recs :- ReadRecords(s.peers, txs);
    Success(TreatRecords(s, recs))
  }

  /** The treatments only add registrations, and keep the lists free of duplicates. */
  lemma {:induction false} TreatRecordsKeeps(s: NodeState, recs: seq<(Bytes, Ipv4Address)>)
    ensures forall x, v :: v in Values(s.recoverBranch, x) ==> v in Values(TreatRecords(s, recs).recoverBranch, x)
    ensures UniquePairs(s.recoverBranch) ==> UniquePairs(TreatRecords(s, recs).recoverBranch)
    ensures UniquePairs(s.missingList) ==> UniquePairs(TreatRecords(s, recs).missingList)
    ensures Distinct(s.missingChildless) ==> Distinct(TreatRecords(s, recs).missingChildless)
    decreases |recs|
  {
    if |recs| > 0 {
      var s1 := ChildlessHashTreatment(s, recs[0].0, recs[0].1);
      ChildlessHashRegisters(s, recs[0].0, recs[0].1);
      ChildlessHashMissing(s, recs[0].0, recs[0].1);
      ChildlessHashMissingTip(s, recs[0].0, recs[0].1);
      TreatRecordsKeeps(s1, recs[1..]);
      assert forall x, v :: v in Values(s.recoverBranch, x) ==> v in Values(s1.recoverBranch, x);
    }
  }

  /** The treatments keep every missing entry. */
  lemma {:induction false} TreatRecordsKeepsMissing(s: NodeState, recs: seq<(Bytes, Ipv4Address)>)
    ensures forall x :: InMissingList(s, x) ==> InMissingList(TreatRecords(s, recs), x)
    decreases |recs|
  {
    if |recs| > 0 {
      var s1 := ChildlessHashTreatment(s, recs[0].0, recs[0].1);
      ChildlessHashMissing(s, recs[0].0, recs[0].1);
      TreatRecordsKeepsMissing(s1, recs[1..]);
    }
  }

  /** The treatments add only hashes they name that are neither stored nor waiting. */
  lemma {:induction false} TreatRecordsMissing(s: NodeState, recs: seq<(Bytes, Ipv4Address)>)
    ensures forall x :: InMissingList(TreatRecords(s, recs), x) ==>
      InMissingList(s, x) || (!HasBlock(s.blockgraph, x) && !InWaitingList(s, x) && x in PairHashes(recs))
    decreases |recs|
  {
    if |recs| > 0 {
      var s1 := ChildlessHashTreatment(s, recs[0].0, recs[0].1);
      ChildlessHashMissing(s, recs[0].0, recs[0].1);
      TreatRecordsMissing(s1, recs[1..]);
      var r := TreatRecords(s, recs);
      assert r == TreatRecords(s1, recs[1..]);
      assert s1.blockgraph == s.blockgraph && s1.waitingList == s.waitingList;
      forall x | InMissingList(r, x)
        ensures InMissingList(s, x) || (!HasBlock(s.blockgraph, x) && !InWaitingList(s, x) && x in PairHashes(recs))
      {
        if !InMissingList(s1, x) {
          var i :| 0 <= i < |recs[1..]| && recs[1..][i].0 == x;
          assert recs[1..][i] == recs[i + 1];
        } else if x == recs[0].0 {
          assert recs[0].0 in PairHashes(recs);
        }
      }
    }
  }

  /**
   * Each pair's holder ends up registered for the pair's hash, unless the
   * node already stores that hash as a non-tip or has it waiting.
   */
  lemma {:induction false} TreatRecordsRegisters(s: NodeState, recs: seq<(Bytes, Ipv4Address)>, i: nat)
    requires i < |recs| && Registers(s, recs[i].0)
    ensures IdFromIp(s.peers, recs[i].1) in Values(TreatRecords(s, recs).recoverBranch, recs[i].0)
    decreases |recs|
  {
    var s1 := ChildlessHashTreatment(s, recs[0].0, recs[0].1);
    ChildlessHashRegisters(s, recs[0].0, recs[0].1);
    if i == 0 {
      TreatRecordsKeeps(s1, recs[1..]);
    } else {
      assert recs[1..][i - 1] == recs[i];
      TreatRecordsRegisters(s1, recs[1..], i - 1);
    }
  }

  /** The records keep every missing entry and add only hashes they name that are neither stored nor waiting. */
  lemma SyncRecordsMissing(s: NodeState, txs: seq<Transaction>)
    requires SyncRecords(s, txs).Success?
    ensures forall x :: InMissingList(s, x) ==> InMissingList(SyncRecords(s, txs).value, x)
    ensures forall x :: InMissingList(SyncRecords(s, txs).value, x) ==>
      InMissingList(s, x) || (!HasBlock(s.blockgraph, x) && !InWaitingList(s, x) && x in RecordHashes(txs))
  {
    var recs := ReadRecords(s.peers, txs).value;
    TreatRecordsKeepsMissing(s, recs);
    TreatRecordsMissing(s, recs);
    assert PairHashes(recs) <= RecordHashes(txs) by {
      forall x | x in PairHashes(recs)
        ensures x in RecordHashes(txs)
      {
        var i :| 0 <= i < |recs| && recs[i].0 == x;
        ReadRecordsValues(s.peers, txs, i);
      }
    }
  }

  /**
   * With distinct peer addresses, each record's holder ends up registered
   * for the record's hash, unless the node already stores that hash as a
   * non-tip or has it waiting.
   */
  lemma SyncRecordsRegisters(s: NodeState, txs: seq<Transaction>, i: nat)
    requires SyncRecords(s, txs).Success? && Unique(s.peers) && i < |txs|
    requires RecordOk(s.peers, txs[i].payload) && Registers(s, RecordHash(txs[i].payload))
    ensures RecordId(txs[i].payload) in Values(SyncRecords(s, txs).value.recoverBranch, RecordHash(txs[i].payload))
  {
    var recs := ReadRecords(s.peers, txs).value;
    ReadRecordsValues(s.peers, txs, i);
    assert recs[i] == (RecordHash(txs[i].payload), s.peers[RecordId(txs[i].payload)]);
    TreatRecordsRegisters(s, recs, i);
    IdFromIpOfIpFromId(s.peers, RecordId(txs[i].payload));
  }

  /**
   * `StartSyncProcedure`: every record of a received merge block is
   * treated as a childless hash announced by the holder it names; then
   * `SendBranchRequest` is scheduled, at once on the leader and after a
   * random delay elsewhere.
   */
  function StartSyncProcedure(s: NodeState, txs: seq<Transaction>, isLeader: bool): (r: Result<NodeState, Fault>)
    ensures r.Success? <==> forall i :: 0 <= i < |txs| ==> RecordOk(s.peers, txs[i].payload)
    ensures r.Success? ==>
      r.value.blockgraph == s.blockgraph && r.value.waitingList == s.waitingList &&
      r.value.mempool == s.mempool && r.value.peers == s.peers
    ensures r.Success? ==> r.value.outbox == s.outbox + [ScheduleBranchRequest(!isLeader)]
    ensures r.Success? ==>
      r.value == s.(missingList := r.value.missingList, missingChildless := r.value.missingChildless,
                    recoverBranch := r.value.recoverBranch, outbox := r.value.outbox)
  {
    var s1 :- SyncRecords(s, txs);
    Success(s1.(outbox := s1.outbox + [ScheduleBranchRequest(!isLeader)]))
  }

  /**
   * `StartSyncProcedure` keeps every missing-list entry, adds entries only
   * for hashes neither stored nor waiting, and keeps the lists free of
   * duplicates.
   */
  lemma StartSyncKeeps(s: NodeState, txs: seq<Transaction>, isLeader: bool)
    requires StartSyncProcedure(s, txs, isLeader).Success?
    ensures var r := StartSyncProcedure(s, txs, isLeader).value;
      && (forall x :: InMissingList(s, x) ==> InMissingList(r, x))
      && (forall x :: InMissingList(r, x) ==>
            InMissingList(s, x) || (!HasBlock(s.blockgraph, x) && !InWaitingList(s, x) && x in RecordHashes(txs)))
      && (UniquePairs(s.missingList) ==> UniquePairs(r.missingList))
      && (UniquePairs(s.recoverBranch) ==> UniquePairs(r.recoverBranch))
      && (Distinct(s.missingChildless) ==> Distinct(r.missingChildless))
  {
    TreatRecordsKeeps(s, ReadRecords(s.peers, txs).value);
    SyncRecordsMissing(s, txs);
  }

  /** After `StartSyncProcedure`, with distinct peer addresses, every record's holder is registered for its hash. */
  lemma StartSyncRegisters(s: NodeState, txs: seq<Transaction>, isLeader: bool, i: nat)
    requires StartSyncProcedure(s, txs, isLeader).Success? && Unique(s.peers) && i < |txs|
    requires Registers(s, RecordHash(txs[i].payload))
    ensures RecordId(txs[i].payload) in Values(StartSyncProcedure(s, txs, isLeader).value.recoverBranch, RecordHash(txs[i].payload))
    ensures UniquePairs(s.recoverBranch) ==> UniquePairs(StartSyncProcedure(s, txs, isLeader).value.recoverBranch)
    ensures Distinct(s.missingChildless) ==> Distinct(StartSyncProcedure(s, txs, isLeader).value.missingChildless)
  {
    SyncRecordsRegisters(s, txs, i);
    TreatRecordsKeeps(s, ReadRecords(s.peers, txs).value);
  }

  // ---------------------------------------------------------------------
  // SendBranchRequest
  // ---------------------------------------------------------------------

  /** The payload of a GROUPBRANCH_REQ for one childless hash. */
  function BranchRequestPayload(h: Bytes): (r: Bytes)
    ensures |r| == 4 + |h| && DecodeInt32(r) == GROUPBRANCH_REQ && r[4..] == h
  {
    DecodeEncodeInt32(GROUPBRANCH_REQ, h);
    EncodeInt32(GROUPBRANCH_REQ) + h
  }

  function Min(a: int, b: int): int
  {
    if a <= b then a else b
  }

  /** The number of holders asked for one hash when the counter starts at `count`. */
  function Quota(holders: nat, count: nat, cap: nat): nat
  {
    if count < cap then Min(holders, cap - count) else holders
  }

  /**
   * The inner loop of `SendBranchRequest`: one request per holder, the
   * counter advanced after each, leaving the loop when it reaches `cap`.
   * A counter already past the cap never equals it again.
   */
  function Emit(holders: seq<int>, count: nat, cap: nat): (r: seq<int>)
    ensures |r| == Quota(|holders|, count, cap) && r == holders[..|r|]
  {
    if |holders| == 0 then []
    else if count + 1 == cap then [holders[0]]
    else
      var t := Emit(holders[1..], count + 1, cap);
      assert holders == [holders[0]] + holders[1..];
      [holders[0]] + t
  }

  /** The holders registered for each hash, in iteration order. */
  function HoldersOf(rb: MultiMap<int>, cbs: seq<Bytes>): (r: seq<seq<int>>)
    ensures |r| == |cbs|
    ensures forall i :: 0 <= i < |cbs| ==> r[i] == Values(rb, cbs[i])
  {
    seq(|cbs|, i requires 0 <= i < |cbs| => Values(rb, cbs[i]))
  }

  /**
   * The holders asked for each missing childless hash as written: the
   * counter is declared before the outer loop and never reset.
   */
  function PlanAsWritten(hs: seq<seq<int>>, count: nat, cap: nat): (r: seq<seq<int>>)
    ensures |r| == |hs|
    decreases |hs|
  {
    if |hs| == 0 then []
    else
      var e := Emit(hs[0], count, cap);
      [e] + PlanAsWritten(hs[1..], count + |e|, cap)
  }

  /** As written, each hash is asked of a prefix of its holders. */
  lemma {:induction false} PlanAsWrittenPrefixes(hs: seq<seq<int>>, count: nat, cap: nat, i: nat)
    requires i < |hs|
    ensures |PlanAsWritten(hs, count, cap)[i]| <= |hs[i]|
    ensures PlanAsWritten(hs, count, cap)[i] == hs[i][..|PlanAsWritten(hs, count, cap)[i]|]
    decreases |hs|
  {
    var e := Emit(hs[0], count, cap);
    var t := PlanAsWritten(hs[1..], count + |e|, cap);
    assert PlanAsWritten(hs, count, cap) == [e] + t;
    if i > 0 {
      PlanAsWrittenPrefixes(hs[1..], count + |e|, cap, i - 1);
      assert hs[1..][i - 1] == hs[i];
    }
  }

  /** The holders asked for each hash with the counter reset per hash, as the source's own comment intends. */
  function Plan(hs: seq<seq<int>>, cap: nat): (r: seq<seq<int>>)
    ensures |r| == |hs|
    ensures forall i :: 0 <= i < |hs| ==> r[i] == hs[i][..Quota(|hs[i]|, 0, cap)]
    decreases |hs|
  {
    if |hs| == 0 then [] else [Emit(hs[0], 0, cap)] + Plan(hs[1..], cap)
  }

  /** Once the shared counter has reached the cap, nothing is capped any more. */
  lemma {:induction false} PlanPastCap(hs: seq<seq<int>>, count: nat, cap: nat)
    requires count >= cap
    ensures PlanAsWritten(hs, count, cap) == hs
    decreases |hs|
  {
    if |hs| > 0 {
      var e := Emit(hs[0], count, cap);
      assert e == hs[0];
      PlanPastCap(hs[1..], count + |hs[0]|, cap);
      assert hs == [hs[0]] + hs[1..];
    }
  }

  /** As written, the cap shortens the requests of at most one hash: every later hash asks all its holders. */
  lemma {:induction false} PlanAsWrittenTruncatesOnce(hs: seq<seq<int>>, count: nat, cap: nat, i: nat, j: nat)
    requires i < j < |hs|
    requires |PlanAsWritten(hs, count, cap)[i]| < |hs[i]|
    ensures PlanAsWritten(hs, count, cap)[j] == hs[j]
    decreases |hs|
  {
    var e := Emit(hs[0], count, cap);
    var t := PlanAsWritten(hs[1..], count + |e|, cap);
    assert PlanAsWritten(hs, count, cap) == [e] + t;
    if i == 0 {
      assert count < cap && |e| == cap - count;
      PlanPastCap(hs[1..], count + |e|, cap);
      assert t[j - 1] == hs[1..][j - 1] == hs[j];
    } else {
      PlanAsWrittenTruncatesOnce(hs[1..], count + |e|, cap, i - 1, j - 1);
      assert t[j - 1] == hs[1..][j - 1] == hs[j];
    }
  }

  /**
   * A two-peer table, a first hash held by node 0 and a second by nodes 0
   * and 1: as written the second hash is asked of node 0 only, the
   * corrected loop asks both.
   */
  lemma BranchRequestCapShared()
    ensures PlanAsWritten([[0], [0, 1]], 0, 2)[1] == [0]
    ensures Plan([[0], [0, 1]], 2)[1] == [0, 1]
  {
    assert Emit([0, 1], 1, 2) == [0];
  }

  /** Every holder of a plan indexes the peer table. */
  predicate PlanInRange(peers: seq<Ipv4Address>, plan: seq<seq<int>>)
  {
    forall i, k :: 0 <= i < |plan| && 0 <= k < |plan[i]| ==> 0 <= plan[i][k] < |peers|
  }

  /** The first id of a list outside the peer table. */
  function FirstBad(peers: seq<Ipv4Address>, ids: seq<int>): (r: int)
    requires exists k :: 0 <= k < |ids| && !(0 <= ids[k] < |peers|)
    ensures !(0 <= r < |peers|) && r in ids
  {
    if !(0 <= ids[0] < |peers|) then ids[0]
    else
      assert exists k :: 0 <= k < |ids[1..]| && !(0 <= ids[1..][k] < |peers|) by {
        var k :| 0 <= k < |ids| && !(0 <= ids[k] < |peers|);
        assert ids[1..][k - 1] == ids[k];
      }
      FirstBad(peers, ids[1..])
  }

  /** The first holder of a plan outside the peer table, read by `peers[id]`. */
  function BadHolder(peers: seq<Ipv4Address>, plan: seq<seq<int>>): (r: int)
    requires !PlanInRange(peers, plan)
    ensures !(0 <= r < |peers|)
  {
    if exists k :: 0 <= k < |plan[0]| && !(0 <= plan[0][k] < |peers|) then FirstBad(peers, plan[0])
    else
      assert !PlanInRange(peers, plan[1..]) by {
        var i, k :| 0 <= i < |plan| && 0 <= k < |plan[i]| && !(0 <= plan[i][k] < |peers|);
        assert i > 0;
        assert plan[1..][i - 1] == plan[i];
      }
      BadHolder(peers, plan[1..])
  }

  /** The requests for one hash: the message to each holder's address. */
  function HolderSends(peers: seq<Ipv4Address>, msg: Message, holders: seq<int>): (r: seq<Effect>)
    requires forall k :: 0 <= k < |holders| ==> 0 <= holders[k] < |peers|
    ensures |r| == |holders|
    ensures forall k :: 0 <= k < |holders| ==> r[k] == Send(peers[holders[k]], msg)
  {
    if |holders| == 0 then []
    else
      var t := HolderSends(peers, msg, holders[1..]);
      assert forall k :: 1 <= k < |holders| ==> holders[1..][k - 1] == holders[k];
      [Send(peers[holders[0]], msg)] + t
  }

  /** The GROUPBRANCH_REQ message for each childless hash, in order. */
  function BranchRequests(cbs: seq<Bytes>): (r: seq<Message>)
    ensures |r| == |cbs|
    ensures forall i :: 0 <= i < |cbs| ==> r[i] == ChangeTopo(BranchRequestPayload(cbs[i]))
  {
    seq(|cbs|, i requires 0 <= i < |cbs| => ChangeTopo(BranchRequestPayload(cbs[i])))
  }

  /** The number of holders a plan names, over all hashes. */
  function PlanSize(plan: seq<seq<int>>): (r: nat)
  {
    if |plan| == 0 then 0 else |plan[0]| + PlanSize(plan[1..])
  }

  /** A send of message i to a holder planned for hash i. */
  predicate PlannedSend(peers: seq<Ipv4Address>, msgs: seq<Message>, plan: seq<seq<int>>, e: Effect)
  {
    exists i, k :: 0 <= i < |plan| && i < |msgs| && 0 <= k < |plan[i]| && 0 <= plan[i][k] < |peers|
      && e == Send(peers[plan[i][k]], msgs[i])
  }

  /** The requests of a whole plan, hash by hash: message i to each holder planned for it, and nothing else. */
  function PlanSends(peers: seq<Ipv4Address>, msgs: seq<Message>, plan: seq<seq<int>>): (r: seq<Effect>)
    requires |plan| == |msgs| && PlanInRange(peers, plan)
    ensures |r| == PlanSize(plan)
    ensures forall i, k :: 0 <= i < |plan| && 0 <= k < |plan[i]| ==> Send(peers[plan[i][k]], msgs[i]) in r
    ensures forall n :: 0 <= n < |r| ==> PlannedSend(peers, msgs, plan, r[n])
    decreases |plan|
  {
    if |plan| == 0 then []
    else
      var head := HolderSends(peers, msgs[0], plan[0]);
      var t := PlanSends(peers, msgs[1..], plan[1..]);
      assert forall i :: 1 <= i < |plan| ==> plan[1..][i - 1] == plan[i] && msgs[1..][i - 1] == msgs[i];
      assert forall k :: 0 <= k < |plan[0]| ==> head[k] in head;
      var r := head + t;
      assert forall n :: 0 <= n < |r| ==> PlannedSend(peers, msgs, plan, r[n]) by {
        forall n | 0 <= n < |r|
          ensures PlannedSend(peers, msgs, plan, r[n])
        {
          if n < |head| {
            assert r[n] == Send(peers[plan[0][n]], msgs[0]);
          } else {
            assert r[n] == t[n - |head|];
            var i, k :| 0 <= i < |plan[1..]| && 0 <= k < |plan[1..][i]| && t[n - |head|] == Send(peers[plan[1..][i][k]], msgs[1..][i]);
            assert plan[1..][i] == plan[i + 1] && msgs[1..][i] == msgs[i + 1];
            assert r[n] == Send(peers[plan[i + 1][k]], msgs[i + 1]);
          }
        }
      }
      r
  }

  /**
   * Sends a plan's requests; a holder id outside the peer table is an
   * out-of-range read.  The outbox grows by exactly one request per
   * planned holder, each for the hash it was planned for.
   */
  function SendPlan(s: NodeState, plan: seq<seq<int>>): (r: Result<NodeState, Fault>)
    requires |plan| == |s.missingChildless|
    ensures r.Success? <==> PlanInRange(s.peers, plan)
    ensures r.Failure? ==> r.error.IndexOutOfRange? && !(0 <= r.error.index < |s.peers|)
    ensures r.Success? ==> r.value == s.(outbox := r.value.outbox)
    ensures r.Success? && !s.running ==> r.value == s
    ensures r.Success? ==> |s.outbox| <= |r.value.outbox| && r.value.outbox[..|s.outbox|] == s.outbox
    ensures r.Success? && s.running ==> forall i, k :: 0 <= i < |plan| && 0 <= k < |plan[i]| ==>
      Send(s.peers[plan[i][k]], ChangeTopo(BranchRequestPayload(s.missingChildless[i]))) in r.value.outbox
  {
    if !PlanInRange(s.peers, plan) then Failure(IndexOutOfRange(BadHolder(s.peers, plan)))
    else if !s.running then Success(s)
    else Success(s.(outbox := s.outbox + PlanSends(s.peers, BranchRequests(s.missingChildless), plan)))
  }

  /** What a plan adds to the outbox: one request per planned holder, and no other effect. */
  lemma SendPlanAdds(s: NodeState, plan: seq<seq<int>>)
    requires |plan| == |s.missingChildless| && PlanInRange(s.peers, plan)
    ensures var o := SendPlan(s, plan).value.outbox;
      && |o| == |s.outbox| + (if s.running then PlanSize(plan) else 0)
      && forall n :: |s.outbox| <= n < |o| ==> PlannedSend(s.peers, BranchRequests(s.missingChildless), plan, o[n])
  {
    var o := SendPlan(s, plan).value.outbox;
    if s.running {
      var sends := PlanSends(s.peers, BranchRequests(s.missingChildless), plan);
      assert o == s.outbox + sends;
      forall n | |s.outbox| <= n < |o|
        ensures PlannedSend(s.peers, BranchRequests(s.missingChildless), plan, o[n])
      {
        assert o[n] == sends[n - |s.outbox|];
      }
    }
  }

  /** The holders the request loop as written asks for hash number i: a prefix of its holders. */
  function AskedAsWritten(s: NodeState, i: nat): (r: seq<int>)
    requires i < |s.missingChildless|
    ensures |r| <= |Values(s.recoverBranch, s.missingChildless[i])|
    ensures r == Values(s.recoverBranch, s.missingChildless[i])[..|r|]
  {
    PlanAsWrittenPrefixes(HoldersOf(s.recoverBranch, s.missingChildless), 0, |s.peers|, i);
    PlanAsWritten(HoldersOf(s.recoverBranch, s.missingChildless), 0, |s.peers|)[i]
  }

  /** `SendBranchRequest` as written: the shared counter caps the requests of at most one hash. */
  function SendBranchRequestAsWritten(s: NodeState): (r: Result<NodeState, Fault>)
    ensures r.Success? <==> forall i, k ::
      0 <= i < |s.missingChildless| && 0 <= k < |AskedAsWritten(s, i)| ==> 0 <= AskedAsWritten(s, i)[k] < |s.peers|
    ensures r.Success? ==> r.value == s.(outbox := r.value.outbox)
    ensures r.Success? && s.running ==> forall i, k ::
      0 <= i < |s.missingChildless| && 0 <= k < |AskedAsWritten(s, i)| ==>
        Send(s.peers[AskedAsWritten(s, i)[k]], ChangeTopo(BranchRequestPayload(s.missingChildless[i]))) in r.value.outbox
  {
    SendPlan(s, BranchPlanAsWritten(s))
  }

  /** The plan of the loop as written: entry i is `AskedAsWritten(s, i)`. */
  function BranchPlanAsWritten(s: NodeState): (r: seq<seq<int>>)
    ensures |r| == |s.missingChildless|
    ensures forall i :: 0 <= i < |r| ==> r[i] == AskedAsWritten(s, i)
  {
    var plan := PlanAsWritten(HoldersOf(s.recoverBranch, s.missingChildless), 0, |s.peers|);
    assert forall i :: 0 <= i < |plan| ==> plan[i] == AskedAsWritten(s, i);
    plan
  }

  /** The holders the corrected request loop asks for hash number i. */
  function Asked(s: NodeState, i: nat): (r: seq<int>)
    requires i < |s.missingChildless|
    ensures |r| <= |s.peers| || |s.peers| == 0
  {
    var hs := Values(s.recoverBranch, s.missingChildless[i]);
    hs[..Quota(|hs|, 0, |s.peers|)]
  }

  /**
   * `SendBranchRequest` with the counter reset for each hash: every
   * missing childless hash is asked of its first `|peers|` holders.
   */
  function SendBranchRequest(s: NodeState): (r: Result<NodeState, Fault>)
    ensures r.Success? <==> forall i, k :: 0 <= i < |s.missingChildless| && 0 <= k < |Asked(s, i)| ==> 0 <= Asked(s, i)[k] < |s.peers|
    ensures r.Success? ==> r.value == s.(outbox := r.value.outbox)
    ensures r.Success? && s.running ==> forall i, k :: 0 <= i < |s.missingChildless| && 0 <= k < |Asked(s, i)| ==>
      Send(s.peers[Asked(s, i)[k]], ChangeTopo(BranchRequestPayload(s.missingChildless[i]))) in r.value.outbox
  {
    SendPlan(s, BranchPlan(s))
  }

  /** The plan of the corrected loop: entry i is `Asked(s, i)`. */
  function BranchPlan(s: NodeState): (r: seq<seq<int>>)
    ensures |r| == |s.missingChildless|
    ensures forall i :: 0 <= i < |r| ==> r[i] == Asked(s, i)
  {
    var plan := Plan(HoldersOf(s.recoverBranch, s.missingChildless), |s.peers|);
    assert forall i :: 0 <= i < |plan| ==> plan[i] == Asked(s, i);
    plan
  }

  /** The loop as written keeps the earlier effects and adds only requests it planned: hash i to a holder of `AskedAsWritten(s, i)`. */
  lemma SendBranchRequestAsWrittenAdds(s: NodeState)
    requires SendBranchRequestAsWritten(s).Success?
    ensures var o := SendBranchRequestAsWritten(s).value.outbox;
      && |s.outbox| <= |o| && o[..|s.outbox|] == s.outbox
      && forall n :: |s.outbox| <= n < |o| ==>
           PlannedSend(s.peers, BranchRequests(s.missingChildless), BranchPlanAsWritten(s), o[n])
  {
    assert SendBranchRequestAsWritten(s) == SendPlan(s, BranchPlanAsWritten(s));
    SendPlanAdds(s, BranchPlanAsWritten(s));
  }

  /** The corrected loop keeps the earlier effects and adds only requests for hash i to a holder of `Asked(s, i)`. */
  lemma SendBranchRequestAdds(s: NodeState)
    requires SendBranchRequest(s).Success?
    ensures var o := SendBranchRequest(s).value.outbox;
      && |s.outbox| <= |o| && o[..|s.outbox|] == s.outbox
      && forall n :: |s.outbox| <= n < |o| ==>
           PlannedSend(s.peers, BranchRequests(s.missingChildless), BranchPlan(s), o[n])
  {
    assert SendBranchRequest(s) == SendPlan(s, BranchPlan(s));
    SendPlanAdds(s, BranchPlan(s));
  }

  // ---------------------------------------------------------------------
  // The childless-hash reply
  // ---------------------------------------------------------------------

  /** The CHILDLESSBLOCK_REP payload: the message type, then the tips back to back. */
  function ChildlessReply(tips: seq<Bytes>): (r: Bytes)
    ensures |r| >= 4 && DecodeInt32(r) == CHILDLESSBLOCK_REP && r[4..] == Concat(tips)
  {
    DecodeEncodeInt32(CHILDLESSBLOCK_REP, Concat(tips));
    EncodeInt32(CHILDLESSBLOCK_REP) + Concat(tips)
  }

  /** `SendChildlessHashes`: the node's tips go back to the asking leader, unless there are none. */
  function SendChildlessHashes(s: NodeState, dest: Ipv4Address): (r: NodeState)
    ensures r == s.(outbox := r.outbox)
    ensures |Concat(GetChildlessBlockList(s.blockgraph))| == 0 ==> r == s
    ensures |Concat(GetChildlessBlockList(s.blockgraph))| > 0 && s.running ==>
      r.outbox == s.outbox + [Send(dest, ChangeTopo(ChildlessReply(GetChildlessBlockList(s.blockgraph))))]
  {
    var tips := GetChildlessBlockList(s.blockgraph);
    if |Concat(tips)| > 0 then SendPacket(s, ChangeTopo(ChildlessReply(tips)), dest) else s
  }

  /**
   * The split of `ProcessChildlessResponse`: the four-byte type is
   * skipped, then 32-byte pieces are taken; a remainder shorter than 32
   * bytes makes `substr(32)` throw.  A payload shorter than the type
   * throws too.
   */
  function ParseChildlessReply(payload: Bytes): (r: Option<seq<Bytes>>)
    ensures r.Some? <==> |payload| >= 4 && (|payload| - 4) % HASH_SIZE_BYTES == 0
    ensures r.Some? ==> Concat(r.value) == payload[4..]
    ensures r.Some? ==> forall i :: 0 <= i < |r.value| ==> |r.value[i]| == HASH_SIZE_BYTES
  {
    if |payload| < 4 || (|payload| - 4) % HASH_SIZE_BYTES != 0 then None
    else
      var d := payload[4..];
      ConcatChunks(d, HASH_SIZE_BYTES);
      ChunksOfMultiple(d);
      Some(Chunks(d, HASH_SIZE_BYTES))
  }

  const HASH_SIZE_BYTES: nat := 32

  lemma {:induction false} ChunksOfMultiple(d: Bytes)
    requires |d| % HASH_SIZE_BYTES == 0
    ensures forall i :: 0 <= i < |Chunks(d, HASH_SIZE_BYTES)| ==> |Chunks(d, HASH_SIZE_BYTES)[i]| == HASH_SIZE_BYTES
    decreases |d|
  {
    if |d| > HASH_SIZE_BYTES {
      ChunksOfMultiple(d[HASH_SIZE_BYTES..]);
    }
  }

  /** A reply built from 32-byte tips is split back into exactly those tips. */
  lemma ChildlessReplyRoundTrip(tips: seq<Bytes>)
    requires forall i :: 0 <= i < |tips| ==> |tips[i]| == HASH_SIZE_BYTES
    ensures ParseChildlessReply(ChildlessReply(tips)) == Some(tips)
  {
    var p := ChildlessReply(tips);
    ConcatLength(tips, HASH_SIZE_BYTES);
    assert |p| - 4 == HASH_SIZE_BYTES * |tips|;
    assert (|p| - 4) % HASH_SIZE_BYTES == 0;
    ChunksConcat(tips, HASH_SIZE_BYTES);
    assert ParseChildlessReply(p) == Some(Chunks(p[4..], HASH_SIZE_BYTES));
  }
}
