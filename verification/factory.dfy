/**
 * Block assembly on the leader: `GenerateBlocks` picks the kind of block,
 * `GenerateMergeBlock` and `GenerateRegularBlock` fill it, and the index
 * is one more than the largest index among the parents.
 */
module Factory {
  import opened Bytes
  import opened Wrappers
  import opened Faults
  import opened Net
  import opened Transactions
  import opened Blocks
  import opened Assoc
  import opened Blockgraphs
  import opened Node
  import opened Mempool
  import opened Sync
  import opened Topology

  /** `IsMergeInProcess`: some childless hash of another branch is still missing. */
  predicate IsMergeInProcess(s: NodeState)
  {
    |s.missingChildless| > 0
  }

  // ---------------------------------------------------------------------
  // Merge blocks
  // ---------------------------------------------------------------------

  /** The records naming each member of `prev` as a holder of the tip `h`. */
  function TipRow(h: Bytes, prev: seq<Member>): (r: seq<Bytes>)
    ensures |r| == |prev|
    ensures forall j :: 0 <= j < |prev| ==> r[j] == EncodeRecord(prev[j].id, h)
  {
    if |prev| == 0 then []
    else
      var t := TipRow(h, prev[1..]);
      assert forall j :: 1 <= j < |prev| ==> t[j - 1] == EncodeRecord(prev[j].id, h) by {
        forall j | 1 <= j < |prev|
          ensures t[j - 1] == EncodeRecord(prev[j].id, h)
        {
          assert prev[1..][j - 1] == prev[j];
        }
      }
      [EncodeRecord(prev[0].id, h)] + t
  }

  /** The number of cells in `rows` rows of the given width: `rows * width`, as `AreaIsProduct` states. */
  function Area(rows: nat, width: nat): nat
  {
    if rows == 0 then 0 else width + Area(rows - 1, width)
  }

  lemma {:induction false} AreaIsProduct(rows: nat, width: nat)
    ensures Area(rows, width) == rows * width
  {
    if rows > 0 {
      AreaIsProduct(rows - 1, width);
      RowStep(rows, width);
    }
  }

  /** One row more is one width more. */
  lemma RowStep(a: int, width: int)
    ensures a * width == width + (a - 1) * width
  {
  }

  /**
   * The first loop of `GenerateMergeBlock`: for each tip, one record per
   * member of the old group, the tips in the outer loop.
   */
  function TipRecords(tips: seq<Bytes>, prev: seq<Member>): (r: seq<Bytes>)
    ensures |r| == Area(|tips|, |prev|)
  {
    if |tips| == 0 then [] else TipRow(tips[0], prev) + TipRecords(tips[1..], prev)
  }

  /** The tip records of two runs of tips, one after the other. */
  lemma {:induction false} TipRecordsAppend(a: seq<Bytes>, b: seq<Bytes>, prev: seq<Member>)
    ensures TipRecords(a + b, prev) == TipRecords(a, prev) + TipRecords(b, prev)
  {
    if |a| > 0 {
      var row := TipRow(a[0], prev);
      assert (a + b)[1..] == a[1..] + b;
      assert (a + b)[0] == a[0];
      TipRecordsAppend(a[1..], b, prev);
      calc {
        TipRecords(a + b, prev);
        row + TipRecords(a[1..] + b, prev);
        row + (TipRecords(a[1..], prev) + TipRecords(b, prev));
        { ConcatAssoc(row, TipRecords(a[1..], prev), TipRecords(b, prev)); }
        (row + TipRecords(a[1..], prev)) + TipRecords(b, prev);
        TipRecords(a, prev) + TipRecords(b, prev);
      }
    } else {
      assert a + b == b;
    }
  }

  lemma ConcatAssoc<T>(x: seq<T>, y: seq<T>, z: seq<T>)
    ensures x + (y + z) == (x + y) + z
  {
  }

  /** Row i of the tip records, from `i * |prev|` on, is the row of tip i. */
  lemma TipRecordAt(tips: seq<Bytes>, prev: seq<Member>, i: nat, j: nat)
    requires i < |tips| && j < |prev|
    ensures Area(i, |prev|) + j < |TipRecords(tips, prev)|
    ensures TipRecords(tips, prev)[Area(i, |prev|) + j] == TipRow(tips[i], prev)[j]
  {
    var before, from := tips[..i], tips[i..];
    assert tips == before + from;
    TipRecordsAppend(before, from, prev);
    var t1, t2 := TipRecords(before, prev), TipRecords(from, prev);
    var row := TipRow(from[0], prev);
    assert t2 == row + TipRecords(from[1..], prev);
    assert from[0] == tips[i];
    ConcatLeft(row, TipRecords(from[1..], prev), j);
    assert |before| == i;
    ConcatRight(t1, t2, j);
  }

  lemma ConcatLeft<T>(x: seq<T>, y: seq<T>, k: nat)
    requires k < |x|
    ensures (x + y)[k] == x[k]
  {
  }

  lemma ConcatRight<T>(x: seq<T>, y: seq<T>, k: nat)
    requires k < |y|
    ensures |x| + k < |x + y| && (x + y)[|x| + k] == y[k]
  {
  }

  /** The second loop of `GenerateMergeBlock`: one record per registered (hash, holder) pair, in key order. */
  function BranchRecords(rb: MultiMap<int>): (r: seq<Bytes>)
    ensures |r| == |rb|
    ensures forall i :: 0 <= i < |rb| ==> r[i] == EncodeRecord(rb[i].1, rb[i].0)
  {
    if |rb| == 0 then [] else [EncodeRecord(rb[0].1, rb[0].0)] + BranchRecords(rb[1..])
  }

  /** The payloads of a merge block's transactions. */
  function MergeRecords(s: NodeState): (r: seq<Bytes>)
    ensures |r| == |GetChildlessBlockList(s.blockgraph)| * |GetNodesFromOldGroup(s)| + |s.recoverBranch|
  {
    AreaIsProduct(|GetChildlessBlockList(s.blockgraph)|, |GetNodesFromOldGroup(s)|);
    TipRecords(GetChildlessBlockList(s.blockgraph), GetNodesFromOldGroup(s)) + BranchRecords(s.recoverBranch)
  }

  /** Record j of tip i of a merge block, at `i * |prev| + j`, names old-group member j as a holder of childless block i. */
  lemma MergeRecordTipAt(s: NodeState, i: nat, j: nat)
    requires i < |GetChildlessBlockList(s.blockgraph)| && j < |GetNodesFromOldGroup(s)|
    ensures var tips, prev := GetChildlessBlockList(s.blockgraph), GetNodesFromOldGroup(s);
      Area(i, |prev|) + j < |MergeRecords(s)| && MergeRecords(s)[Area(i, |prev|) + j] == EncodeRecord(prev[j].id, tips[i])
  {
    var tips, prev := GetChildlessBlockList(s.blockgraph), GetNodesFromOldGroup(s);
    TipRecordAt(tips, prev, i, j);
    assert TipRow(tips[i], prev)[j] == EncodeRecord(prev[j].id, tips[i]);
    var t, b := TipRecords(tips, prev), BranchRecords(s.recoverBranch);
    assert MergeRecords(s) == t + b;
    assert (t + b)[Area(i, |prev|) + j] == t[Area(i, |prev|) + j];
  }

  /** After the tip records, record k of a merge block is the k-th registered (hash, holder) pair. */
  lemma MergeRecordBranchAt(s: NodeState, k: nat)
    requires k < |s.recoverBranch|
    ensures var tips, prev := GetChildlessBlockList(s.blockgraph), GetNodesFromOldGroup(s);
      Area(|tips|, |prev|) + k < |MergeRecords(s)|
      && MergeRecords(s)[Area(|tips|, |prev|) + k] == EncodeRecord(s.recoverBranch[k].1, s.recoverBranch[k].0)
  {
    var tips, prev := GetChildlessBlockList(s.blockgraph), GetNodesFromOldGroup(s);
    var t, b := TipRecords(tips, prev), BranchRecords(s.recoverBranch);
    assert MergeRecords(s) == t + b;
    assert (t + b)[|t| + k] == b[k];
  }

  /** Transactions made from the payloads, all stamped `now`. */
  function MakeTransactions(ps: seq<Bytes>, now: Time, env: Env): (r: seq<Transaction>)
    ensures |r| == |ps|
    ensures MakeKeepsFields(env) ==> forall i :: 0 <= i < |ps| ==> r[i].payload == ps[i] && r[i].timestamp == now
  {
    if |ps| == 0 then [] else [env.txMake(ps[0], now)] + MakeTransactions(ps[1..], now, env)
  }

  /** The parents of a merge block: the tips, then each missing childless hash not yet listed. */
  function MergeParents(tips: seq<Bytes>, missing: seq<Bytes>): (r: seq<Bytes>)
    ensures |tips| <= |r| && r[..|tips|] == tips
    ensures forall x :: x in r <==> x in tips || x in missing
    ensures Distinct(tips) ==> Distinct(r)
    decreases |missing|
  {
    if |missing| == 0 then tips
    else
      var acc := AppendNew(tips, missing[0]);
      var r := MergeParents(acc, missing[1..]);
      assert r[..|tips|] == r[..|acc|][..|tips|];
      assert forall x :: x in missing <==> x == missing[0] || x in missing[1..];
      r
  }

  /** Parent hashes that `SetParents` can pad to the hash width. */
  predicate ParentsFit(ps: seq<Bytes>)
  {
    forall i :: 0 <= i < |ps| ==> |ps[i]| <= HASH_SIZE
  }

  /** A block given the transactions, then the parents, then the type. */
  function Build(b: Block, txs: seq<Transaction>, ps: seq<Bytes>, blockType: Int32, env: Env): (r: Result<Block, Fault>)
    requires |b.groupId| == HASH_SIZE
    ensures r.Success? <==> ParentsFit(ps)
    ensures r.Success? ==> var blk := r.value;
      && blk.groupId == b.groupId && blk.leader == b.leader && blk.index == b.index && blk.timestamp == b.timestamp
      && blk.blockType == blockType && blk.transactions == txs && PadHashes(ps) == Success(blk.parents)
      && blk.hash == CalculateHash(blk, env)
  {
    var b1 := SetTransactions(b, txs, env);
    var b2 :- SetParents(b1, ps, env);
    Success(SetBlockType(b2, blockType, env))
  }

  /**
   * `GenerateMergeBlock`: the records for the tips and the registered
   * branches become the transactions, the tips and the missing childless
   * hashes the parents, the type is 1, and the merge flag is reset.
   */
  function GenerateMergeBlock(s: NodeState, b: Block, env: Env, now: Time): (r: Result<(NodeState, Block), Fault>)
    requires |b.groupId| == HASH_SIZE
    ensures r.Success? <==> ParentsFit(MergeParents(GetChildlessBlockList(s.blockgraph), s.missingChildless))
    ensures r.Success? ==> r.value.0 == s.(mergeBlock := false)
    ensures r.Success? ==> var blk := r.value.1;
      && blk.groupId == b.groupId && blk.leader == b.leader && blk.index == b.index && blk.timestamp == b.timestamp
      && blk.blockType == MERGE_BLOCK
      && blk.transactions == MakeTransactions(MergeRecords(s), now, env)
      && PadHashes(MergeParents(GetChildlessBlockList(s.blockgraph), s.missingChildless)) == Success(blk.parents)
      && blk.hash == CalculateHash(blk, env)
  {
    var txs := MakeTransactions(MergeRecords(s), now, env);
    var ps := MergeParents(GetChildlessBlockList(s.blockgraph), s.missingChildless);
    var blk :- Build(b, txs, ps, MERGE_BLOCK, env);
    Success((s.(mergeBlock := false), blk))
  }

  /** A record built from an id in the peer table passes `StartSyncProcedure` and names its hash. */
  lemma EncodedRecordOk(peers: seq<Ipv4Address>, id: int, h: Bytes)
    requires 0 <= id < |peers| && id < TWO31
    ensures RecordOk(peers, EncodeRecord(id, h))
    ensures RecordId(EncodeRecord(id, h)) == id && RecordHash(EncodeRecord(id, h)) == h
  {
    RecordRoundTrip(id, h);
  }

  /** Ids that a peer table of the given size can index, as a 32-bit `int` holds them. */
  predicate Indexes(peers: seq<Ipv4Address>, id: int)
  {
    0 <= id < |peers| && id < TWO31
  }

  /** A payload `EncodeRecord` builds from an id the table indexes and a hash of `hs`. */
  ghost predicate Encodes(peers: seq<Ipv4Address>, hs: set<Bytes>, p: Bytes)
  {
    exists id: int, h: Bytes :: Indexes(peers, id) && h in hs && p == EncodeRecord(id, h)
  }

  lemma EncodesIntro(peers: seq<Ipv4Address>, hs: set<Bytes>, id: int, h: Bytes)
    requires Indexes(peers, id) && h in hs
    ensures Encodes(peers, hs, EncodeRecord(id, h))
  {
  }

  lemma EncodesAccepted(peers: seq<Ipv4Address>, hs: set<Bytes>, p: Bytes)
    requires Encodes(peers, hs, p)
    ensures RecordOk(peers, p) && RecordHash(p) in hs
  {
    var id: int, h: Bytes :| Indexes(peers, id) && h in hs && p == EncodeRecord(id, h);
    EncodedRecordOk(peers, id, h);
  }

  lemma {:induction false} TipRecordsEncode(tips: seq<Bytes>, prev: seq<Member>, peers: seq<Ipv4Address>, hs: set<Bytes>)
    requires forall j :: 0 <= j < |prev| ==> Indexes(peers, prev[j].id)
    requires forall k :: 0 <= k < |tips| ==> tips[k] in hs
    ensures forall i :: 0 <= i < |TipRecords(tips, prev)| ==> Encodes(peers, hs, TipRecords(tips, prev)[i])
    decreases |tips|
  {
    if |tips| > 0 {
      var r := TipRecords(tips, prev);
      var row := TipRow(tips[0], prev);
      var t := TipRecords(tips[1..], prev);
      TipRecordsEncode(tips[1..], prev, peers, hs);
      assert r == row + t;
      forall i | 0 <= i < |r|
        ensures Encodes(peers, hs, r[i])
      {
        if i < |row| {
          assert r[i] == row[i] == EncodeRecord(prev[i].id, tips[0]);
          EncodesIntro(peers, hs, prev[i].id, tips[0]);
        } else {
          assert r[i] == t[i - |row|];
        }
      }
    }
  }

  lemma BranchRecordsEncode(rb: MultiMap<int>, peers: seq<Ipv4Address>, hs: set<Bytes>)
    requires forall i :: 0 <= i < |rb| ==> Indexes(peers, rb[i].1) && rb[i].0 in hs
    ensures forall i :: 0 <= i < |rb| ==> Encodes(peers, hs, BranchRecords(rb)[i])
  {
    forall i | 0 <= i < |rb|
      ensures Encodes(peers, hs, BranchRecords(rb)[i])
    {
      assert BranchRecords(rb)[i] == EncodeRecord(rb[i].1, rb[i].0);
      EncodesIntro(peers, hs, rb[i].1, rb[i].0);
    }
  }

  /**
   * The records of a merge block are read back by `StartSyncProcedure`
   * on any node with the same peer table: every one parses, names a node
   * in the table, and names a tip or a registered branch, provided the
   * old-group ids and registered holders index the table.
   */
  lemma MergeRecordsAccepted(s: NodeState, peers: seq<Ipv4Address>)
    requires forall m :: m in GetNodesFromOldGroup(s) ==> Indexes(peers, m.id)
    requires forall i :: 0 <= i < |s.recoverBranch| ==> Indexes(peers, s.recoverBranch[i].1)
    ensures forall i :: 0 <= i < |MergeRecords(s)| ==>
      && RecordOk(peers, MergeRecords(s)[i])
      && (RecordHash(MergeRecords(s)[i]) in GetChildlessBlockList(s.blockgraph)
          || HasKey(s.recoverBranch, RecordHash(MergeRecords(s)[i])))
  {
    var tips := GetChildlessBlockList(s.blockgraph);
    var prev := GetNodesFromOldGroup(s);
    var rb := s.recoverBranch;
    var hs := (set x | x in tips) + Keys(rb);
    forall j | 0 <= j < |prev|
      ensures Indexes(peers, prev[j].id)
    {
      assert prev[j] in prev;
    }
    forall i | 0 <= i < |rb|
      ensures rb[i].0 in hs
    {
      assert HasKey(rb, rb[i].0);
    }
    TipRecordsEncode(tips, prev, peers, hs);
    BranchRecordsEncode(rb, peers, hs);
    ConcatAccepted(TipRecords(tips, prev), BranchRecords(rb), peers, hs);
    forall i | 0 <= i < |MergeRecords(s)|
      ensures RecordHash(MergeRecords(s)[i]) in tips || HasKey(rb, RecordHash(MergeRecords(s)[i]))
    {
      assert RecordHash(MergeRecords(s)[i]) in hs;
    }
  }

  lemma ConcatAccepted(a: seq<Bytes>, c: seq<Bytes>, peers: seq<Ipv4Address>, hs: set<Bytes>)
    requires forall i :: 0 <= i < |a| ==> Encodes(peers, hs, a[i])
    requires forall i :: 0 <= i < |c| ==> Encodes(peers, hs, c[i])
    ensures forall i :: 0 <= i < |a + c| ==> RecordOk(peers, (a + c)[i]) && RecordHash((a + c)[i]) in hs
  {
    forall i | 0 <= i < |a + c|
      ensures RecordOk(peers, (a + c)[i]) && RecordHash((a + c)[i]) in hs
    {
      var x := (a + c)[i];
      if i < |a| {
        assert x == a[i];
      } else {
        assert x == c[i - |a|];
      }
      EncodesAccepted(peers, hs, x);
    }
  }

  /**
   * A record naming a holder outside the peer table, -1 included (the
   * bounded lookup's answer for an unknown sender), is one
   * `StartSyncProcedure` rejects: `GetIpAddressFromId` reads outside the
   * table.
   */
  lemma UnknownHolderRecordRejected(peers: seq<Ipv4Address>, id: int, h: Bytes)
    requires -TWO31 <= id < TWO31 && (id < 0 || id >= |peers|)
    ensures !RecordOk(peers, EncodeRecord(id, h))
  {
    RecordRoundTrip(id, h);
  }

  // ---------------------------------------------------------------------
  // Regular blocks
  // ---------------------------------------------------------------------

  /** The tips whose block belongs to a group the node has been part of. */
  function TipsOfRegisteredGroups(g: Graph, tips: seq<Bytes>, register: seq<Bytes>): (r: seq<Bytes>)
    requires forall i :: 0 <= i < |tips| ==> HasBlock(g, tips[i])
    ensures forall x :: x in r <==> x in tips && GetBlock(g, x).groupId in register
    ensures |r| <= |tips|
  {
    if |tips| == 0 then []
    else
      var t := TipsOfRegisteredGroups(g, tips[1..], register);
      assert forall x :: x in tips <==> x == tips[0] || x in tips[1..];
      (if GetBlock(g, tips[0]).groupId in register then [tips[0]] else []) + t
  }

  /**
   * The parents `GenerateRegularBlock` sets: the tips when there is at
   * most one; during a merge, the tips of registered groups; otherwise
   * none are set and the block keeps the parents it had.
   */
  function RegularParents(s: NodeState): (r: Option<seq<Bytes>>)
    ensures |GetChildlessBlockList(s.blockgraph)| <= 1 ==> r == Some(GetChildlessBlockList(s.blockgraph))
    ensures |GetChildlessBlockList(s.blockgraph)| > 1 && !IsMergeInProcess(s) ==> r.None?
    ensures |GetChildlessBlockList(s.blockgraph)| > 1 && IsMergeInProcess(s) ==> r.Some?
    ensures |GetChildlessBlockList(s.blockgraph)| > 1 && IsMergeInProcess(s) ==>
      forall x :: x in r.value <==> x in GetChildlessBlockList(s.blockgraph) && GetBlock(s.blockgraph, x).groupId in s.groupIdRegister
  {
    var tips := GetChildlessBlockList(s.blockgraph);
    if |tips| > 1 then
      if IsMergeInProcess(s) then Some(TipsOfRegisteredGroups(s.blockgraph, tips, s.groupIdRegister)) else None
    else Some(tips)
  }

  /**
   * The block `GenerateRegularBlock` builds: the parents follow
   * `RegularParents`, the transactions are the given ones, the type is 0.
   */
  function RegularBlock(s: NodeState, b: Block, txs: seq<Transaction>, env: Env): (r: Result<Block, Fault>)
    requires |b.groupId| == HASH_SIZE
    ensures RegularParents(s).None? ==> r.Success?
    ensures RegularParents(s).Some? ==> (r.Success? <==> ParentsFit(RegularParents(s).value))
    ensures r.Success? ==> var blk := r.value;
      && blk.groupId == b.groupId && blk.leader == b.leader && blk.index == b.index && blk.timestamp == b.timestamp
      && blk.blockType == REG_BLOCK && blk.transactions == txs
      && (RegularParents(s).None? ==> blk.parents == b.parents)
      && (RegularParents(s).Some? ==> PadHashes(RegularParents(s).value) == Success(blk.parents))
      && blk.hash == CalculateHash(blk, env)
  {
    var ps := RegularParents(s);
    if ps.None? then Success(SetBlockType(SetTransactions(b, txs, env), REG_BLOCK, env))
    else
      var b1 :- SetParents(b, ps.value, env);
      Success(SetBlockType(SetTransactions(b1, txs, env), REG_BLOCK, env))
  }

  /**
   * `GenerateRegularBlock`: the selected transactions fill the block and
   * leave the mempool, the parents follow `RegularParents`, the type is 0.
   */
  function GenerateRegularBlock(s: NodeState, b: Block, env: Env): (r: Result<(NodeState, Block), Fault>)
    requires |b.groupId| == HASH_SIZE
    ensures r.Success? <==> RegularBlock(s, b, SelectTransactions(s.mempool), env).Success?
    ensures r.Success? ==> r.value.1 == RegularBlock(s, b, SelectTransactions(s.mempool), env).value
    ensures r.Success? ==> var txs := SelectTransactions(s.mempool);
      && r.value.0 == s.(mempool := r.value.0.mempool)
      && Keys(r.value.0.mempool) == Keys(s.mempool) - TxHashes(txs)
      && (forall h :: h !in TxHashes(txs) ==> Get(r.value.0.mempool, h) == Get(s.mempool, h))
  {
    var txs := SelectTransactions(s.mempool);
    var blk :- RegularBlock(s, b, txs, env);
    Success((s.(mempool := UpdatingMempool(s.mempool, txs)), blk))
  }

  // ---------------------------------------------------------------------
  // The index and GenerateBlocks
  // ---------------------------------------------------------------------

  /**
   * The index loop of `GenerateBlocks` as written: the largest index of
   * the parents, from -1, looked up with `GetBlock`, which is undefined
   * for a parent the blockgraph does not store.
   */
  function MaxParentIndexAsWritten(g: Graph, ps: seq<Bytes>): (r: Result<int, Fault>)
    ensures r.Success? <==> forall i :: 0 <= i < |ps| ==> HasBlock(g, ps[i])
    ensures r.Success? ==> r.value == MaxStoredIndex(g, ps)
    ensures r.Failure? ==> exists i :: 0 <= i < |ps| && !HasBlock(g, ps[i]) && r.error == BlockNotFound(ps[i])
  {
    if |ps| == 0 then Success(-1)
    else if !HasBlock(g, ps[0]) then Failure(BlockNotFound(ps[0]))
    else
      match MaxParentIndexAsWritten(g, ps[1..])
      case Failure(e) => Failure(e)
      case Success(m) => Success(if m < GetBlock(g, ps[0]).index then GetBlock(g, ps[0]).index as int else m)
  }

  /** The largest index among the stored parents, -1 when none is stored. */
  function MaxStoredIndex(g: Graph, ps: seq<Bytes>): (r: int)
    ensures -1 <= r < TWO31
    ensures forall i :: 0 <= i < |ps| && HasBlock(g, ps[i]) ==> GetBlock(g, ps[i]).index as int <= r
    ensures r == -1 || exists i :: 0 <= i < |ps| && HasBlock(g, ps[i]) && GetBlock(g, ps[i]).index as int == r
  {
    if |ps| == 0 then -1
    else
      var m := MaxStoredIndex(g, ps[1..]);
      assert forall i :: 1 <= i < |ps| ==> ps[i] == ps[1..][i - 1];
      if HasBlock(g, ps[0]) && m < GetBlock(g, ps[0]).index then GetBlock(g, ps[0]).index as int else m
  }

  /** The block `GenerateBlocks` starts from: blank, with the node as leader and the group id set. */
  function Blank(s: NodeState, env: Env): (r: Result<Block, Fault>)
    ensures r.Success? <==> |s.groupId| <= HASH_SIZE
    ensures r.Success? ==> |r.value.groupId| == HASH_SIZE && r.value.groupId == PadRight(s.groupId, HASH_SIZE, 0)
    ensures r.Success? ==> r.value.leader == Wrap32(s.self) && r.value.parents == []
  {
    var b0 := SetLeader(DefaultBlock(env), Wrap32(s.self), env);
    SetGroupId(b0, s.groupId, env)
  }

  /** The kind of block `GenerateBlocks` builds: merge when asked, or to join several tips when no merge is in process. */
  predicate BuildsMerge(s: NodeState)
  {
    s.mergeBlock || (|GetChildlessBlockList(s.blockgraph)| > 1 && !IsMergeInProcess(s))
  }

  /** The block filled by the generator `BuildsMerge` picks, with the state it leaves. */
  function FillBlock(s: NodeState, b: Block, env: Env, now: Time): (r: Result<(NodeState, Block), Fault>)
    requires |b.groupId| == HASH_SIZE
    ensures BuildsMerge(s) ==> r == GenerateMergeBlock(s, b, env, now)
    ensures !BuildsMerge(s) ==> r == GenerateRegularBlock(s, b, env)
    ensures r.Success? ==> r.value.0.blockgraph == s.blockgraph && r.value.1.groupId == b.groupId
  {
    if BuildsMerge(s) then GenerateMergeBlock(s, b, env, now) else GenerateRegularBlock(s, b, env)
  }

  /**
   * The index a block gets over the given parents: one more than the
   * largest stored parent's, 0 when none is stored, wrapping only past
   * the largest 32-bit index.
   */
  function NextIndex(g: Graph, ps: seq<Bytes>): (r: Int32)
    ensures MaxStoredIndex(g, ps) < TWO31 - 1 ==> r == MaxStoredIndex(g, ps) + 1
    ensures MaxStoredIndex(g, ps) < TWO31 - 1 ==> forall p :: p in ps && HasBlock(g, p) ==> GetBlock(g, p).index < r
    ensures (forall p :: p in ps ==> !HasBlock(g, p)) ==> r == 0
  {
    var m := MaxStoredIndex(g, ps);
    assert (forall p :: p in ps ==> !HasBlock(g, p)) ==> m == -1;
    Wrap32(m + 1)
  }

  /** The filled block, indexed and stamped, goes to consensus; the creation time is recorded. */
  function Finish(s: NodeState, b: Block, index: Int32, env: Env, now: Time): (r: (NodeState, Block))
    requires |b.groupId| == HASH_SIZE
    ensures r.1.groupId == b.groupId && r.1.leader == b.leader && r.1.blockType == b.blockType
    ensures r.1.index == index && r.1.timestamp == now && r.1.hash == CalculateHash(r.1, env)
    ensures r.1.parents == b.parents && r.1.transactions == b.transactions
    ensures r.0 == s.(lastBlockCreationTime := Seconds(now), outbox := s.outbox + [ToConsensus(r.1)])
  {
    var blk := SetTimestamp(SetIndex(b, index, env), now, env);
    (s.(lastBlockCreationTime := Seconds(now), outbox := s.outbox + [ToConsensus(blk)]), blk)
  }

  /**
   * The first part of `GenerateBlocks`: a blank block with the node as
   * leader and the group id set, filled as a merge or a regular block.
   */
  function Assemble(s: NodeState, env: Env, now: Time): (r: Result<(NodeState, Block), Fault>)
    ensures |s.groupId| > HASH_SIZE ==> r.Failure?
    ensures r.Success? ==> r.value.0.blockgraph == s.blockgraph && |r.value.1.groupId| == HASH_SIZE
  {
    var b :- Blank(s, env);
    FillBlock(s, b, env, now)
  }

  /**
   * `GenerateBlocks` as written, with the state after and the block sent
   * to consensus: a parent the node does not store, which a merge block
   * names whenever a childless hash is still missing, makes the index
   * loop look up a block that is not there.
   */
  function GenerateBlocksAsWritten(s: NodeState, env: Env, now: Time): (r: Result<(NodeState, Block), Fault>)
    ensures Assemble(s, env, now).Failure? ==> r.Failure?
    ensures Assemble(s, env, now).Success? ==> var d := Assemble(s, env, now).value;
      (r.Success? <==> forall i :: 0 <= i < |d.1.parents| ==> HasBlock(d.0.blockgraph, d.1.parents[i]))
  {
    var d :- Assemble(s, env, now);
    var index :- MaxParentIndexAsWritten(d.0.blockgraph, d.1.parents);
    Success(Finish(d.0, d.1, Wrap32(index + 1), env, now))
  }

  /**
   * `GenerateBlocks`, with the index taken over the parents the node
   * stores: the filled block gets an index above every stored parent's
   * and the time, and goes to consensus.  `GenerateBlocksBuilds` states
   * what the block holds.
   */
  function GenerateBlocks(s: NodeState, env: Env, now: Time): (r: Result<(NodeState, Block), Fault>)
    ensures r.Success? <==> Assemble(s, env, now).Success?
    ensures |s.groupId| > HASH_SIZE ==> r.Failure?
    ensures r.Success? ==> r.value.0.outbox == Assemble(s, env, now).value.0.outbox + [ToConsensus(r.value.1)]
    ensures r.Success? ==> r.value.0.lastBlockCreationTime == Seconds(now) && r.value.0.blockgraph == s.blockgraph
    ensures r.Success? ==> var blk := r.value.1;
      && |blk.groupId| == HASH_SIZE
      && blk.timestamp == now && blk.hash == CalculateHash(blk, env)
      && blk.index == NextIndex(s.blockgraph, blk.parents)
  {
    var d :- Assemble(s, env, now);
    Success(Finish(d.0, d.1, NextIndex(d.0.blockgraph, d.1.parents), env, now))
  }

  /**
   * What `GenerateBlocks` builds.  The block names the node as leader and
   * carries its group id.  A merge block, built when asked for or to join
   * several tips when no merge is in process, carries the records and the
   * tips and missing childless hashes, and clears the merge flag.  A
   * regular block carries the selected transactions, which leave the
   * mempool, and the parents `RegularParents` picks.  Only the one
   * consensus submission is added to the outbox.
   */
  lemma GenerateBlocksBuilds(s: NodeState, env: Env, now: Time)
    requires GenerateBlocks(s, env, now).Success?
    ensures var (n, blk) := GenerateBlocks(s, env, now).value;
      && n.outbox == s.outbox + [ToConsensus(blk)]
      && blk.leader == Wrap32(s.self) && blk.groupId == PadRight(s.groupId, HASH_SIZE, 0)
      && blk.blockType == (if BuildsMerge(s) then MERGE_BLOCK else REG_BLOCK)
    ensures BuildsMerge(s) ==> var (n, blk) := GenerateBlocks(s, env, now).value;
      && !n.mergeBlock && n.mempool == s.mempool
      && blk.transactions == MakeTransactions(MergeRecords(s), now, env)
      && PadHashes(MergeParents(GetChildlessBlockList(s.blockgraph), s.missingChildless)) == Success(blk.parents)
    ensures !BuildsMerge(s) ==> var (n, blk) := GenerateBlocks(s, env, now).value;
      && n.mergeBlock == s.mergeBlock
      && Keys(n.mempool) == Keys(s.mempool) - TxHashes(SelectTransactions(s.mempool))
      && blk.transactions == SelectTransactions(s.mempool)
      && (RegularParents(s).None? ==> blk.parents == [])
      && (RegularParents(s).Some? ==> PadHashes(RegularParents(s).value) == Success(blk.parents))
  {
    if BuildsMerge(s) {
      MergeBuilt(s, env, now);
    } else {
      RegularBuilt(s, env, now);
    }
  }

  /** A merge block is generated exactly when the group id and the merge parents fit. */
  lemma MergeGenerates(s: NodeState, env: Env, now: Time)
    requires BuildsMerge(s)
    ensures GenerateBlocks(s, env, now).Success? <==>
      |s.groupId| <= HASH_SIZE && ParentsFit(MergeParents(GetChildlessBlockList(s.blockgraph), s.missingChildless))
  {
    if |s.groupId| <= HASH_SIZE {
      var b := Blank(s, env).value;
      assert FillBlock(s, b, env, now) == GenerateMergeBlock(s, b, env, now);
      assert Assemble(s, env, now) == FillBlock(s, b, env, now);
    }
  }

  /** The merge half of `GenerateBlocksBuilds`. */
  lemma MergeBuilt(s: NodeState, env: Env, now: Time)
    requires GenerateBlocks(s, env, now).Success? && BuildsMerge(s)
    ensures var (n, blk) := GenerateBlocks(s, env, now).value;
      && n.outbox == s.outbox + [ToConsensus(blk)]
      && blk.leader == Wrap32(s.self) && blk.groupId == PadRight(s.groupId, HASH_SIZE, 0)
      && blk.blockType == MERGE_BLOCK
      && !n.mergeBlock && n.mempool == s.mempool
      && blk.transactions == MakeTransactions(MergeRecords(s), now, env)
      && PadHashes(MergeParents(GetChildlessBlockList(s.blockgraph), s.missingChildless)) == Success(blk.parents)
  {
    var b := Blank(s, env).value;
    var f := GenerateMergeBlock(s, b, env, now);
    assert FillBlock(s, b, env, now) == f;
    var d := f.value;
    assert Assemble(s, env, now) == Success(d);
    assert GenerateBlocks(s, env, now).value == Finish(d.0, d.1, NextIndex(d.0.blockgraph, d.1.parents), env, now);
  }

  /** The regular half of `GenerateBlocksBuilds`. */
  lemma RegularBuilt(s: NodeState, env: Env, now: Time)
    requires GenerateBlocks(s, env, now).Success? && !BuildsMerge(s)
    ensures var (n, blk) := GenerateBlocks(s, env, now).value;
      && n.outbox == s.outbox + [ToConsensus(blk)]
      && blk.leader == Wrap32(s.self) && blk.groupId == PadRight(s.groupId, HASH_SIZE, 0)
      && blk.blockType == REG_BLOCK
      && n.mergeBlock == s.mergeBlock
      && Keys(n.mempool) == Keys(s.mempool) - TxHashes(SelectTransactions(s.mempool))
      && blk.transactions == SelectTransactions(s.mempool)
      && (RegularParents(s).None? ==> blk.parents == [])
      && (RegularParents(s).Some? ==> PadHashes(RegularParents(s).value) == Success(blk.parents))
  {
    var b := Blank(s, env).value;
    var f := GenerateRegularBlock(s, b, env);
    assert FillBlock(s, b, env, now) == f;
    var d := f.value;
    assert Assemble(s, env, now) == Success(d);
    assert GenerateBlocks(s, env, now).value == Finish(d.0, d.1, NextIndex(d.0.blockgraph, d.1.parents), env, now);
  }

  /**
   * A merge block built while a childless hash of the other branch is
   * still missing names that hash as a parent: the as-written generator
   * faults where the corrected one produces the block.
   */
  lemma MergeWithMissingTipFaults(s: NodeState, env: Env, now: Time, h: Bytes)
    requires BuildsMerge(s) && |s.groupId| <= HASH_SIZE
    requires h in s.missingChildless && |h| == HASH_SIZE && !HasBlock(s.blockgraph, h)
    requires ParentsFit(MergeParents(GetChildlessBlockList(s.blockgraph), s.missingChildless))
    ensures GenerateBlocks(s, env, now).Success?
    ensures GenerateBlocksAsWritten(s, env, now).Failure?
  {
    var ps := MergeParents(GetChildlessBlockList(s.blockgraph), s.missingChildless);
    AssembleMerge(s, env, now);
    var d := Assemble(s, env, now).value;
    assert h in ps;
    var k :| 0 <= k < |ps| && ps[k] == h;
    PadDigest(h);
    assert d.1.parents[k] == h;
    assert !HasBlock(d.0.blockgraph, d.1.parents[k]);
  }

  /** With parents that fit, a merge block is assembled over the padded parents, the blockgraph untouched. */
  lemma AssembleMerge(s: NodeState, env: Env, now: Time)
    requires BuildsMerge(s) && |s.groupId| <= HASH_SIZE
    requires ParentsFit(MergeParents(GetChildlessBlockList(s.blockgraph), s.missingChildless))
    ensures Assemble(s, env, now).Success?
    ensures PadHashes(MergeParents(GetChildlessBlockList(s.blockgraph), s.missingChildless))
      == Success(Assemble(s, env, now).value.1.parents)
    ensures Assemble(s, env, now).value.0.blockgraph == s.blockgraph
  {
    var b := Blank(s, env).value;
    var m := GenerateMergeBlock(s, b, env, now);
    assert FillBlock(s, b, env, now) == m;
  }

  /** Padding a full-width hash leaves it as it is. */
  lemma PadDigest(h: Bytes)
    requires |h| == HASH_SIZE
    ensures PadRight(h, HASH_SIZE, 0) == h
  {
    var q := PadRight(h, HASH_SIZE, 0);
    assert q == q[..|h|];
  }
}
