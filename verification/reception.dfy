/**
 * Block reception: the filters over a block's parents, the missing list,
 * the admission of a block into the blockgraph, the cascading promotion
 * of waiting blocks, and `BlockTreatment`, which ties them together.
 */
module Reception {
  import opened Bytes
  import opened Wrappers
  import opened Faults
  import opened Net
  import opened Transactions
  import opened Blocks
  import opened Assoc
  import opened Blockgraphs
  import opened Node
  import opened Mempool
  import opened Sync

  // ---------------------------------------------------------------------
  // Parent filters
  // ---------------------------------------------------------------------

  /** `FilterNodesNotInBG`: the hashes the blockgraph does not store, in order. */
  function FilterNodesNotInBG(g: Graph, ps: seq<Bytes>): (r: seq<Bytes>)
    ensures forall p :: p in r <==> p in ps && !HasBlock(g, p)
    ensures |r| <= |ps|
  {
    if |ps| == 0 then []
    else (if HasBlock(g, ps[0]) then [] else [ps[0]]) + FilterNodesNotInBG(g, ps[1..])
  }

  /** `FilterNodesNotInML` as it stands: the hashes the missing list does not hold. */
  function FilterNodesNotInML(ml: MultiMap<Ipv4Address>, ps: seq<Bytes>): (r: seq<Bytes>)
    ensures forall p :: p in r <==> p in ps && !HasKey(ml, p)
    ensures |r| <= |ps|
  {
    if |ps| == 0 then []
    else (if HasKey(ml, ps[0]) then [] else [ps[0]]) + FilterNodesNotInML(ml, ps[1..])
  }

  /** The earlier revision of the same filter: the hashes that are not waiting. */
  function FilterNodesNotInWL(wl: Map<Block>, ps: seq<Bytes>): (r: seq<Bytes>)
    ensures forall p :: p in r <==> p in ps && !HasKey(wl, p)
    ensures |r| <= |ps|
  {
    if |ps| == 0 then []
    else (if HasKey(wl, ps[0]) then [] else [ps[0]]) + FilterNodesNotInWL(wl, ps[1..])
  }

  /** The second filter applied to a block's unknown parents, by strategy. */
  function FilterUnknownParents(s: NodeState, ps: seq<Bytes>, filter: ParentFilter): (r: seq<Bytes>)
    ensures filter == AgainstMissingList ==> forall p :: p in r <==> p in ps && !InMissingList(s, p)
    ensures filter == AgainstWaitingList ==> forall p :: p in r <==> p in ps && !InWaitingList(s, p)
  {
    match filter
    case AgainstMissingList => FilterNodesNotInML(s.missingList, ps)
    case AgainstWaitingList => FilterNodesNotInWL(s.waitingList, ps)
  }

  // ---------------------------------------------------------------------
  // The missing list
  // ---------------------------------------------------------------------

  /**
   * `UpdateMissingList`: each hash is recorded as missing, to be asked of
   * `ip`, unless that very pair is already recorded.
   */
  function UpdateMissingList(ml: MultiMap<Ipv4Address>, ps: seq<Bytes>, ip: Ipv4Address): (r: MultiMap<Ipv4Address>)
    ensures forall x :: x !in ps ==> Values(r, x) == Values(ml, x)
    ensures forall x :: x in ps && ip in Values(ml, x) ==> Values(r, x) == Values(ml, x)
    ensures forall x :: x in ps && ip !in Values(ml, x) ==> Values(r, x) == Values(ml, x) + [ip]
    ensures forall x :: HasKey(r, x) <==> HasKey(ml, x) || x in ps
    ensures UniquePairs(ml) ==> UniquePairs(r)
    decreases |ps|
  {
    if |ps| == 0 then ml
    else
      var m1 := InsertNew(ml, ps[0], ip);
      var r := UpdateMissingList(m1, ps[1..], ip);
      assert forall x :: x in ps <==> x == ps[0] || x in ps[1..];
      assert forall x :: HasKey(m1, x) <==> HasKey(ml, x) || x == ps[0] by {
        assert Keys(m1) == Keys(ml) + {ps[0]};
      }
      r
  }

  /** `EraseMissingBlock`: every entry of the hash leaves the missing list. */
  function EraseMissingBlock(ml: MultiMap<Ipv4Address>, h: Bytes): (r: MultiMap<Ipv4Address>)
    ensures !HasKey(r, h)
    ensures forall x :: x != h ==> Values(r, x) == Values(ml, x)
    ensures Keys(r) == Keys(ml) - {h}
    ensures UniquePairs(ml) ==> UniquePairs(r)
  {
    EraseRange(ml, h)
  }

  // ---------------------------------------------------------------------
  // Admission into the blockgraph
  // ---------------------------------------------------------------------

  /** `vector::erase(find(...))`: the first occurrence of h goes, if any. */
  function EraseFirst(l: seq<Bytes>, h: Bytes): (r: seq<Bytes>)
    ensures h !in l ==> r == l
    ensures h in l ==> |r| == |l| - 1
    ensures forall x :: x != h ==> (x in r <==> x in l)
    ensures Distinct(l) ==> Distinct(r) && h !in r
  {
    if |l| == 0 then l
    else if l[0] == h then
      assert Distinct(l) ==> h !in l[1..] by {
        if Distinct(l) {
          forall j | 0 <= j < |l[1..]|
            ensures l[1..][j] != h
          {
            assert l[1..][j] == l[j + 1];
          }
        }
      }
      l[1..]
    else
      var t := EraseFirst(l[1..], h);
      assert Distinct(l) ==> Distinct(l[1..]) by {
        if Distinct(l) {
          forall i, j | 0 <= i < j < |l[1..]|
            ensures l[1..][i] != l[1..][j]
          {
            assert l[i + 1] != l[j + 1];
          }
        }
      }
      assert Distinct(l) ==> l[0] !in t by {
        if Distinct(l) {
          forall j | 0 <= j < |l[1..]|
            ensures l[1..][j] != l[0]
          {
            assert l[1..][j] == l[j + 1];
          }
        }
      }
      [l[0]] + t
  }

  /**
   * `AddBlockToBlockgraph`: the block leaves the missing childless hashes
   * (block creation resumes when that empties them) and the branch
   * registry, its transactions leave the mempool, and it joins the
   * blockgraph.
   */
  function AddBlockToBlockgraph(s: NodeState, b: Block): (r: NodeState)
    ensures r == s.(missingChildless := r.missingChildless, createBlock := r.createBlock,
                    recoverBranch := r.recoverBranch, mempool := r.mempool, blockgraph := r.blockgraph)
    ensures r.blockgraph == AddBlock(s.blockgraph, b)
  {
    var mc := EraseFirst(s.missingChildless, b.hash);
    s.(missingChildless := mc,
       createBlock := if |mc| == 0 && b.hash in s.missingChildless then true else s.createBlock,
       recoverBranch := EraseRange(s.recoverBranch, b.hash),
       mempool := UpdatingMempool(s.mempool, b.transactions),
       blockgraph := AddBlock(s.blockgraph, b))
  }

  /** The block joins the blockgraph, and nothing stored before changes. */
  lemma AddBlockToBlockgraphStores(s: NodeState, b: Block)
    ensures var r := AddBlockToBlockgraph(s, b);
      && HasBlock(r.blockgraph, b.hash)
      && (!HasBlock(s.blockgraph, b.hash) ==> r.blockgraph.blocks == s.blockgraph.blocks[b.hash := b])
      && (forall h :: HasBlock(s.blockgraph, h) ==> HasBlock(r.blockgraph, h) && GetBlock(r.blockgraph, h) == GetBlock(s.blockgraph, h))
      && (forall h :: HasBlock(r.blockgraph, h) <==> HasBlock(s.blockgraph, h) || h == b.hash)
  {
  }

  /** The block's transactions leave the mempool, and the others stay as they were. */
  lemma AddBlockToBlockgraphMempool(s: NodeState, b: Block)
    ensures var r := AddBlockToBlockgraph(s, b);
      && Keys(r.mempool) == Keys(s.mempool) - TxHashes(b.transactions)
      && (forall h :: h !in TxHashes(b.transactions) ==> Get(r.mempool, h) == Get(s.mempool, h))
  {
  }

  /**
   * The block's hash leaves the branch registry and the missing childless
   * hashes, nothing else does, and block creation resumes when that
   * empties the childless hashes.
   */
  lemma AddBlockToBlockgraphTips(s: NodeState, b: Block)
    ensures var r := AddBlockToBlockgraph(s, b);
      && !HasKey(r.recoverBranch, b.hash)
      && (forall x :: x != b.hash ==> Values(r.recoverBranch, x) == Values(s.recoverBranch, x))
      && (UniquePairs(s.recoverBranch) ==> UniquePairs(r.recoverBranch))
      && (forall x :: x != b.hash ==> (x in r.missingChildless <==> x in s.missingChildless))
      && (Distinct(s.missingChildless) ==> Distinct(r.missingChildless) && b.hash !in r.missingChildless)
      && (r.createBlock <==> s.createBlock || (b.hash in s.missingChildless && |r.missingChildless| == 0))
  {
  }

  // ---------------------------------------------------------------------
  // The waiting list
  // ---------------------------------------------------------------------

  /** Every parent of the block is stored: the count of stored parents equals the number of parents. */
  predicate ParentsStored(g: Graph, b: Block)
  {
    forall p :: p in b.parents ==> HasBlock(g, p)
  }

  /** The position of the first waiting block, in key order, whose parents are all stored. */
  function FirstReady(g: Graph, wl: Map<Block>, i: nat): (r: Option<nat>)
    requires i <= |wl|
    ensures r.Some? ==> i <= r.value < |wl| && ParentsStored(g, wl[r.value].1)
    ensures r.Some? ==> forall j :: i <= j < r.value ==> !ParentsStored(g, wl[j].1)
    ensures r.None? ==> forall j :: i <= j < |wl| ==> !ParentsStored(g, wl[j].1)
    decreases |wl| - i
  {
    if i == |wl| then None
    else if ParentsStored(g, wl[i].1) then Some(i)
    else FirstReady(g, wl, i + 1)
  }

  /** One promotion: the waiting block at position i joins the blockgraph and leaves the list. */
  function Promote(s: NodeState, i: nat): (r: NodeState)
    requires i < |s.waitingList|
    ensures r.waitingList == Remove(s.waitingList, s.waitingList[i].0)
    ensures |r.waitingList| < |s.waitingList|
    ensures HasBlock(r.blockgraph, s.waitingList[i].1.hash)
    ensures forall h :: HasBlock(s.blockgraph, h) ==> HasBlock(r.blockgraph, h) && GetBlock(r.blockgraph, h) == GetBlock(s.blockgraph, h)
    ensures forall h :: HasBlock(r.blockgraph, h) <==> HasBlock(s.blockgraph, h) || h == s.waitingList[i].1.hash
    ensures r == s.(missingChildless := r.missingChildless, createBlock := r.createBlock, recoverBranch := r.recoverBranch,
                    mempool := r.mempool, blockgraph := r.blockgraph, waitingList := r.waitingList)
  {
    GetAt(s.waitingList, i);
    var s1 := AddBlockToBlockgraph(s, s.waitingList[i].1);
    s1.(waitingList := Remove(s1.waitingList, s.waitingList[i].0))
  }

  /**
   * `UpdateWaitingList`: the first waiting block whose parents are all
   * stored is admitted and leaves the list, and the scan restarts, until
   * no waiting block is ready.
   */
  function UpdateWaitingList(s: NodeState): (r: NodeState)
    ensures forall i :: 0 <= i < |r.waitingList| ==> !ParentsStored(r.blockgraph, r.waitingList[i].1)
    ensures Keys(r.waitingList) <= Keys(s.waitingList)
    ensures forall h :: HasBlock(s.blockgraph, h) ==> HasBlock(r.blockgraph, h) && GetBlock(r.blockgraph, h) == GetBlock(s.blockgraph, h)
    ensures r == s.(missingChildless := r.missingChildless, createBlock := r.createBlock, recoverBranch := r.recoverBranch,
                    mempool := r.mempool, blockgraph := r.blockgraph, waitingList := r.waitingList)
    decreases |s.waitingList|
  {
    match FirstReady(s.blockgraph, s.waitingList, 0)
    case None => s
    case Some(i) => UpdateWaitingList(Promote(s, i))
  }

  /** The blocks still waiting are unchanged. */
  lemma {:induction false} UpdateWaitingListKeeps(s: NodeState)
    ensures forall k :: HasKey(UpdateWaitingList(s).waitingList, k) ==>
      Get(UpdateWaitingList(s).waitingList, k) == Get(s.waitingList, k)
    decreases |s.waitingList|
  {
    match FirstReady(s.blockgraph, s.waitingList, 0)
    case None =>
    case Some(i) =>
      var s1 := Promote(s, i);
      assert UpdateWaitingList(s1) == UpdateWaitingList(s);
      UpdateWaitingListKeeps(s1);
  }

  /** Every block that left the waiting list is now stored. */
  lemma {:induction false} UpdateWaitingListAdmits(s: NodeState)
    ensures forall k :: HasKey(s.waitingList, k) && !HasKey(UpdateWaitingList(s).waitingList, k) ==>
      HasBlock(UpdateWaitingList(s).blockgraph, Get(s.waitingList, k).value.hash)
    decreases |s.waitingList|
  {
    match FirstReady(s.blockgraph, s.waitingList, 0)
    case None =>
    case Some(i) =>
      var e := s.waitingList[i];
      GetAt(s.waitingList, i);
      var s1 := Promote(s, i);
      var r := UpdateWaitingList(s1);
      assert r == UpdateWaitingList(s);
      UpdateWaitingListAdmits(s1);
      forall k | HasKey(s.waitingList, k) && !HasKey(r.waitingList, k)
        ensures HasBlock(r.blockgraph, Get(s.waitingList, k).value.hash)
      {
        if k != e.0 {
          assert HasKey(s1.waitingList, k) && Get(s1.waitingList, k) == Get(s.waitingList, k);
        } else {
          assert HasBlock(s1.blockgraph, e.1.hash);
        }
      }
  }

  /** With blocks filed under their own hashes, they stay so, and only waiting blocks join the blockgraph. */
  lemma {:induction false} UpdateWaitingListKeyed(s: NodeState)
    requires WaitingKeyed(s.waitingList)
    ensures var r := UpdateWaitingList(s);
      && WaitingKeyed(r.waitingList)
      && (forall h :: HasBlock(r.blockgraph, h) ==> HasBlock(s.blockgraph, h) || InWaitingList(s, h))
    decreases |s.waitingList|
  {
    match FirstReady(s.blockgraph, s.waitingList, 0)
    case None =>
    case Some(i) =>
      var e := s.waitingList[i];
      GetAt(s.waitingList, i);
      var s1 := Promote(s, i);
      var r := UpdateWaitingList(s1);
      assert r == UpdateWaitingList(s);
      assert WaitingKeyed(s1.waitingList);
      UpdateWaitingListKeyed(s1);
      forall h | HasBlock(r.blockgraph, h)
        ensures HasBlock(s.blockgraph, h) || InWaitingList(s, h)
      {
        if !HasBlock(s1.blockgraph, h) {
          assert InWaitingList(s1, h);
        }
      }
  }

  // ---------------------------------------------------------------------
  // BlockTreatment
  // ---------------------------------------------------------------------

  /** Every waiting block is filed under its own hash. */
  ghost predicate WaitingKeyed(wl: Map<Block>)
  {
    forall k :: HasKey(wl, k) ==> Get(wl, k).value.hash == k
  }

  /** A merge block received while not stored and not waiting: its records are treated, then it is stored. */
  function TreatMergeBlock(s: NodeState, b: Block, isLeader: bool): (r: Result<NodeState, Fault>)
    ensures r.Success? <==> forall i :: 0 <= i < |b.transactions| ==> RecordOk(s.peers, b.transactions[i].payload)
    ensures r.Success? ==> HasBlock(r.value.blockgraph, b.hash)
    ensures r.Success? ==> forall h :: HasBlock(r.value.blockgraph, h) <==> HasBlock(s.blockgraph, h) || h == b.hash
    ensures r.Success? ==> r.value.waitingList == s.waitingList && r.value.peers == s.peers
    ensures r.Success? ==> r.value.running == s.running && r.value.lastLeader == s.lastLeader
    ensures r.Success? ==> r.value.outbox == s.outbox + [ScheduleBranchRequest(!isLeader)]
  {
    var s1 :- StartSyncProcedure(s, b.transactions, isLeader);
    Success(AddBlockToBlockgraph(s1, b))
  }

  /**
   * A regular block with a parent the blockgraph lacks waits, and those of
   * its unknown parents that pass the filter become missing, to be asked
   * of the block's leader at `ip`.
   */
  function WaitForParents(s: NodeState, b: Block, filter: ParentFilter, ip: Ipv4Address): (r: NodeState)
    ensures r == s.(missingList := r.missingList, waitingList := r.waitingList)
    ensures r.waitingList == Put(s.waitingList, b.hash, b)
    ensures r.missingList == UpdateMissingList(s.missingList, FilterUnknownParents(s, FilterNodesNotInBG(s.blockgraph, b.parents), filter), ip)
  {
    var unknown := FilterNodesNotInBG(s.blockgraph, b.parents);
    var passed := FilterUnknownParents(s, unknown, filter);
    var ml := if |passed| > 0 then UpdateMissingList(s.missingList, passed, ip) else s.missingList;
    s.(missingList := ml, waitingList := Put(s.waitingList, b.hash, b))
  }

  /** A regular block whose parents are all stored is stored, and the waiting list is re-examined. */
  function StoreBlock(s: NodeState, b: Block): (r: NodeState)
    ensures r == s.(missingChildless := r.missingChildless, createBlock := r.createBlock, recoverBranch := r.recoverBranch,
                    mempool := r.mempool, blockgraph := r.blockgraph, waitingList := r.waitingList)
    ensures HasBlock(r.blockgraph, b.hash)
    ensures forall h :: HasBlock(s.blockgraph, h) ==> HasBlock(r.blockgraph, h)
    ensures Keys(r.waitingList) <= Keys(s.waitingList)
  {
    var s1 := AddBlockToBlockgraph(s, b);
    if |s1.waitingList| > 0 then UpdateWaitingList(s1) else s1
  }

  /** With blocks filed under their own hashes, storing one keeps them so and admits only it and waiting blocks. */
  lemma StoreBlockKeyed(s: NodeState, b: Block)
    requires WaitingKeyed(s.waitingList)
    ensures WaitingKeyed(StoreBlock(s, b).waitingList)
    ensures forall h :: HasBlock(StoreBlock(s, b).blockgraph, h) ==> HasBlock(s.blockgraph, h) || h == b.hash || InWaitingList(s, h)
  {
    var s1 := AddBlockToBlockgraph(s, b);
    if |s1.waitingList| > 0 {
      UpdateWaitingListKeyed(s1);
    }
  }

  /**
   * A regular block received while not stored and not waiting.  The
   * leader's address is looked up first, whatever follows; then the block
   * waits for its parents or is stored.
   */
  function TreatRegularBlock(s: NodeState, b: Block, filter: ParentFilter): (r: Result<NodeState, Fault>)
    ensures r.Success? <==> 0 <= b.leader as int < |s.peers|
    ensures r.Success? && !ParentsStored(s.blockgraph, b) ==> r.value == WaitForParents(s, b, filter, s.peers[b.leader])
    ensures r.Success? && ParentsStored(s.blockgraph, b) ==> r.value == StoreBlock(s, b)
  {
    var ip :- GetIpAddressFromId(s.peers, b.leader as int);
    var unknown := FilterNodesNotInBG(s.blockgraph, b.parents);
    if |unknown| > 0 then
      assert unknown[0] in unknown;
      Success(WaitForParents(s, b, filter, ip))
    else
      assert ParentsStored(s.blockgraph, b) by {
        assert forall p :: p in b.parents ==> p !in unknown ==> HasBlock(s.blockgraph, p);
      }
      Success(StoreBlock(s, b))
  }

  /** A block neither stored nor waiting when it arrives. */
  predicate Fresh(s: NodeState, b: Block)
  {
    !HasBlock(s.blockgraph, b.hash) && !InWaitingList(s, b.hash)
  }

  /** A fresh block, after its missing-list entries are erased: a merge or a regular block. */
  function TreatFreshBlock(s: NodeState, b: Block, filter: ParentFilter, isLeader: bool): (r: Result<NodeState, Fault>)
    requires Fresh(s, b)
    ensures IsMergeBlock(b) ==>
      (r.Success? <==> forall i :: 0 <= i < |b.transactions| ==> RecordOk(s.peers, b.transactions[i].payload))
    ensures !IsMergeBlock(b) ==> (r.Success? <==> 0 <= b.leader as int < |s.peers|)
    ensures r.Success? ==> HasBlock(r.value.blockgraph, b.hash) || InWaitingList(r.value, b.hash)
    ensures r.Success? ==> forall h :: HasBlock(s.blockgraph, h) ==> HasBlock(r.value.blockgraph, h)
    ensures r.Success? ==> r.value.peers == s.peers && r.value.running == s.running && r.value.lastLeader == s.lastLeader
  {
    if IsMergeBlock(b) then TreatMergeBlock(s, b, isLeader) else TreatRegularBlock(s, b, filter)
  }

  /**
   * `BlockTreatment`: a stopped node ignores the block; otherwise the
   * block's leader becomes the last leader, a stored block is dumped, a
   * block not stored leaves the missing list, a waiting block is then
   * dumped, and a fresh block is treated as a merge or a regular block.
   * A record naming a node outside the table, or a regular block whose
   * leader is outside it, makes the treatment fault.
   */
  function BlockTreatment(s: NodeState, b: Block, filter: ParentFilter, isLeader: bool): (r: Result<NodeState, Fault>)
    ensures !s.running ==> r == Success(s)
    ensures s.running && HasBlock(s.blockgraph, b.hash) ==>
      r == Success(s.(lastLeader := b.leader as int, numDumpingBlock := s.numDumpingBlock + 1))
    ensures s.running && Fresh(s, b) && IsMergeBlock(b) ==>
      (r.Success? <==> forall i :: 0 <= i < |b.transactions| ==> RecordOk(s.peers, b.transactions[i].payload))
    ensures s.running && Fresh(s, b) && !IsMergeBlock(b) ==> (r.Success? <==> 0 <= b.leader as int < |s.peers|)
    ensures s.running && r.Success? ==> r.value.lastLeader == b.leader as int
    ensures s.running && r.Success? ==> HasBlock(r.value.blockgraph, b.hash) || InWaitingList(r.value, b.hash)
    ensures r.Success? ==> forall h :: HasBlock(s.blockgraph, h) ==> HasBlock(r.value.blockgraph, h)
    ensures r.Success? ==> r.value.peers == s.peers && r.value.running == s.running
  {
    if !s.running then Success(s)
    else
      var s0 := s.(lastLeader := b.leader as int);
      if HasBlock(s0.blockgraph, b.hash) then Success(s0.(numDumpingBlock := s0.numDumpingBlock + 1))
      else TreatUnstored(s0, b, filter, isLeader)
  }

  /**
   * A running node dumps a block that is waiting: only the last leader,
   * the dump counter and the missing list change, and the block's hash
   * leaves the missing list.
   */
  lemma BlockTreatmentDumpsWaiting(s: NodeState, b: Block, filter: ParentFilter, isLeader: bool)
    requires s.running && !HasBlock(s.blockgraph, b.hash) && InWaitingList(s, b.hash)
    ensures var r := BlockTreatment(s, b, filter, isLeader);
      && r.Success?
      && r.value == s.(lastLeader := b.leader as int, missingList := r.value.missingList, numDumpingBlock := s.numDumpingBlock + 1)
      && Keys(r.value.missingList) == Keys(s.missingList) - {b.hash}
  {
    var s0 := s.(lastLeader := b.leader as int);
    var ml := EraseMissingBlock(s.missingList, b.hash);
    assert BlockTreatment(s, b, filter, isLeader) == TreatUnstored(s0, b, filter, isLeader);
    assert TreatUnstored(s0, b, filter, isLeader).value == s0.(missingList := ml, numDumpingBlock := s.numDumpingBlock + 1);
  }

  /** The state once a received block's leader is recorded and its missing-list entries are erased. */
  function Received(s: NodeState, b: Block): (r: NodeState)
    ensures r == s.(lastLeader := r.lastLeader, missingList := r.missingList)
    ensures r.lastLeader == b.leader as int && !InMissingList(r, b.hash)
    ensures Keys(r.missingList) == Keys(s.missingList) - {b.hash}
    ensures forall h :: h != b.hash ==> Values(r.missingList, h) == Values(s.missingList, h)
  {
    s.(lastLeader := b.leader as int, missingList := EraseMissingBlock(s.missingList, b.hash))
  }

  /**
   * A running node treats a fresh block in the state where the block's
   * leader is recorded and the block's hash has left the missing list.
   */
  lemma BlockTreatmentFresh(s: NodeState, b: Block, filter: ParentFilter, isLeader: bool)
    requires s.running && Fresh(s, b)
    ensures Fresh(Received(s, b), b)
    ensures BlockTreatment(s, b, filter, isLeader) == TreatFreshBlock(Received(s, b), b, filter, isLeader)
  {
    var s0 := s.(lastLeader := b.leader as int);
    assert Received(s, b) == s0.(missingList := EraseMissingBlock(s0.missingList, b.hash));
    assert BlockTreatment(s, b, filter, isLeader) == TreatUnstored(s0, b, filter, isLeader);
  }

  /**
   * A fresh regular block from a known leader with a parent the node does
   * not store waits: it joins the waiting list, the blockgraph is not
   * touched, and its unknown parents that pass the filter are entered on
   * the missing list, to be asked of the leader.
   */
  lemma BlockTreatmentWaits(s: NodeState, b: Block, filter: ParentFilter, isLeader: bool)
    requires s.running && Fresh(s, b) && !IsMergeBlock(b)
    requires 0 <= b.leader as int < |s.peers| && !ParentsStored(s.blockgraph, b)
    ensures var r := BlockTreatment(s, b, filter, isLeader);
      var s1 := Received(s, b);
      && r.Success?
      && r.value == s1.(missingList := r.value.missingList, waitingList := r.value.waitingList)
      && r.value.blockgraph == s.blockgraph && !HasBlock(r.value.blockgraph, b.hash)
      && r.value.waitingList == Put(s.waitingList, b.hash, b)
      && r.value.missingList == UpdateMissingList(s1.missingList,
           FilterUnknownParents(s1, FilterNodesNotInBG(s.blockgraph, b.parents), filter), s.peers[b.leader])
  {
    BlockTreatmentFresh(s, b, filter, isLeader);
    var s1 := Received(s, b);
    assert TreatFreshBlock(s1, b, filter, isLeader) == TreatRegularBlock(s1, b, filter);
    assert TreatRegularBlock(s1, b, filter).value == WaitForParents(s1, b, filter, s.peers[b.leader]);
  }

  /**
   * A fresh regular block from a known leader whose parents are all
   * stored is stored, and the waiting list is re-examined.
   */
  lemma BlockTreatmentStores(s: NodeState, b: Block, filter: ParentFilter, isLeader: bool)
    requires s.running && Fresh(s, b) && !IsMergeBlock(b)
    requires 0 <= b.leader as int < |s.peers| && ParentsStored(s.blockgraph, b)
    ensures var r := BlockTreatment(s, b, filter, isLeader);
      && r.Success? && r.value == StoreBlock(Received(s, b), b)
      && HasBlock(r.value.blockgraph, b.hash)
  {
    BlockTreatmentFresh(s, b, filter, isLeader);
    var s1 := Received(s, b);
    assert TreatFreshBlock(s1, b, filter, isLeader) == TreatRegularBlock(s1, b, filter);
  }

  /** The part of `BlockTreatment` for a block not stored: off the missing list, then dumped if waiting, else treated. */
  function TreatUnstored(s: NodeState, b: Block, filter: ParentFilter, isLeader: bool): (r: Result<NodeState, Fault>)
    requires !HasBlock(s.blockgraph, b.hash)
    ensures InWaitingList(s, b.hash) ==>
      r == Success(s.(missingList := EraseMissingBlock(s.missingList, b.hash), numDumpingBlock := s.numDumpingBlock + 1))
    ensures !InWaitingList(s, b.hash) && IsMergeBlock(b) ==>
      (r.Success? <==> forall i :: 0 <= i < |b.transactions| ==> RecordOk(s.peers, b.transactions[i].payload))
    ensures !InWaitingList(s, b.hash) && !IsMergeBlock(b) ==> (r.Success? <==> 0 <= b.leader as int < |s.peers|)
    ensures r.Success? ==> HasBlock(r.value.blockgraph, b.hash) || InWaitingList(r.value, b.hash)
    ensures r.Success? ==> forall h :: HasBlock(s.blockgraph, h) ==> HasBlock(r.value.blockgraph, h)
    ensures r.Success? ==> r.value.peers == s.peers && r.value.running == s.running && r.value.lastLeader == s.lastLeader
  {
    var s1 := s.(missingList := EraseMissingBlock(s.missingList, b.hash));
    assert InWaitingList(s1, b.hash) == InWaitingList(s, b.hash) by {
      assert s1.waitingList == s.waitingList;
    }
    if InWaitingList(s1, b.hash) then Success(s1.(numDumpingBlock := s1.numDumpingBlock + 1))
    else TreatFreshBlock(s1, b, filter, isLeader)
  }

  // ---------------------------------------------------------------------
  // The missing list stays clean
  // ---------------------------------------------------------------------

  /** No hash on the missing list is stored or waiting. */
  ghost predicate NoStaleMissing(s: NodeState)
  {
    forall h :: InMissingList(s, h) ==> !HasBlock(s.blockgraph, h) && !InWaitingList(s, h)
  }

  /** The state the reception handlers keep: a clean missing list and a waiting list keyed by hash. */
  ghost predicate Tidy(s: NodeState)
  {
    NoStaleMissing(s) && WaitingKeyed(s.waitingList)
  }

  /** A block that names itself neither as a parent nor, if a merge block, in a record. */
  predicate SelfFree(b: Block)
  {
    b.hash !in b.parents && (IsMergeBlock(b) ==> b.hash !in RecordHashes(b.transactions))
  }

  lemma TidyAfterMerge(s: NodeState, b: Block, isLeader: bool)
    requires Fresh(s, b) && WaitingKeyed(s.waitingList) && !InMissingList(s, b.hash) && SelfFree(b) && IsMergeBlock(b)
    requires forall h :: InMissingList(s, h) ==> !HasBlock(s.blockgraph, h) && !InWaitingList(s, h)
    requires TreatMergeBlock(s, b, isLeader).Success?
    ensures Tidy(TreatMergeBlock(s, b, isLeader).value)
  {
    var s1 := StartSyncProcedure(s, b.transactions, isLeader).value;
    StartSyncKeeps(s, b.transactions, isLeader);
    var r := AddBlockToBlockgraph(s1, b);
    assert TreatMergeBlock(s, b, isLeader).value == r;
    assert r.missingList == s1.missingList && r.waitingList == s.waitingList;
    forall h | InMissingList(r, h)
      ensures !HasBlock(r.blockgraph, h) && !InWaitingList(r, h)
    {
      assert InMissingList(s1, h);
      assert h != b.hash;
    }
  }

  lemma TidyAfterWait(s: NodeState, b: Block, ip: Ipv4Address)
    requires Fresh(s, b) && WaitingKeyed(s.waitingList) && !InMissingList(s, b.hash) && SelfFree(b)
    requires forall h :: InMissingList(s, h) ==> !HasBlock(s.blockgraph, h) && !InWaitingList(s, h)
    ensures Tidy(WaitForParents(s, b, AgainstWaitingList, ip))
  {
    var r := WaitForParents(s, b, AgainstWaitingList, ip);
    var unknown := FilterNodesNotInBG(s.blockgraph, b.parents);
    var passed := FilterUnknownParents(s, unknown, AgainstWaitingList);
    forall h | InMissingList(r, h)
      ensures !HasBlock(r.blockgraph, h) && !InWaitingList(r, h)
    {
      if !InMissingList(s, h) {
        assert h in passed;
        assert h in unknown;
      }
      assert h != b.hash;
      assert Keys(r.waitingList) == Keys(s.waitingList) + {b.hash};
    }
    forall k | HasKey(r.waitingList, k)
      ensures Get(r.waitingList, k).value.hash == k
    {
      if k != b.hash {
        assert Get(r.waitingList, k) == Get(s.waitingList, k);
      }
    }
  }

  lemma TidyAfterStore(s: NodeState, b: Block)
    requires Fresh(s, b) && WaitingKeyed(s.waitingList) && !InMissingList(s, b.hash)
    requires forall h :: InMissingList(s, h) ==> !HasBlock(s.blockgraph, h) && !InWaitingList(s, h)
    ensures Tidy(StoreBlock(s, b))
  {
    var r := StoreBlock(s, b);
    StoreBlockKeyed(s, b);
    assert r.missingList == s.missingList;
    forall h | InMissingList(r, h)
      ensures !HasBlock(r.blockgraph, h) && !InWaitingList(r, h)
    {
      assert InMissingList(s, h);
      assert h != b.hash;
      assert !HasBlock(s.blockgraph, h) && !InWaitingList(s, h);
      assert h !in Keys(s.waitingList);
    }
  }

  /**
   * With the waiting-list filter, the treatment of a block that does not
   * name itself keeps the missing list clean: an entry is dropped when its
   * block arrives, and no stored or waiting hash is ever entered.
   */
  lemma BlockTreatmentKeepsTidy(s: NodeState, b: Block, isLeader: bool)
    requires Tidy(s) && SelfFree(b)
    requires BlockTreatment(s, b, AgainstWaitingList, isLeader).Success?
    ensures Tidy(BlockTreatment(s, b, AgainstWaitingList, isLeader).value)
  {
    var r := BlockTreatment(s, b, AgainstWaitingList, isLeader);
    if s.running && !HasBlock(s.blockgraph, b.hash) {
      var s1 := s.(lastLeader := b.leader as int, missingList := EraseMissingBlock(s.missingList, b.hash));
      TidyAfterErase(s, b.leader as int, b.hash);
      if !InWaitingList(s1, b.hash) {
        assert r == TreatFreshBlock(s1, b, AgainstWaitingList, isLeader);
        TidyAfterFresh(s1, b, isLeader);
      } else {
        TidyOfSameLists(s1, r.value);
      }
    } else {
      TidyOfSameLists(s, r.value);
    }
  }

  /** Tidiness depends on the missing list, the waiting list and the blockgraph alone. */
  lemma TidyOfSameLists(s: NodeState, t: NodeState)
    requires Tidy(s)
    requires t.missingList == s.missingList && t.waitingList == s.waitingList && t.blockgraph == s.blockgraph
    ensures Tidy(t)
  {
  }

  /** Erasing an entry keeps the missing list clean, and leaves the erased hash off it. */
  lemma TidyAfterErase(s: NodeState, leader: int, h: Bytes)
    requires Tidy(s)
    ensures var s1 := s.(lastLeader := leader, missingList := EraseMissingBlock(s.missingList, h));
      Tidy(s1) && !InMissingList(s1, h)
  {
    var s1 := s.(lastLeader := leader, missingList := EraseMissingBlock(s.missingList, h));
    assert forall x :: InMissingList(s1, x) ==> InMissingList(s, x) && x != h;
  }

  /** The treatment of a fresh block, off the missing list and not naming itself, keeps the state tidy. */
  lemma TidyAfterFresh(s: NodeState, b: Block, isLeader: bool)
    requires Tidy(s) && Fresh(s, b) && !InMissingList(s, b.hash) && SelfFree(b)
    requires TreatFreshBlock(s, b, AgainstWaitingList, isLeader).Success?
    ensures Tidy(TreatFreshBlock(s, b, AgainstWaitingList, isLeader).value)
  {
    var f := TreatFreshBlock(s, b, AgainstWaitingList, isLeader);
    if IsMergeBlock(b) {
      assert f == TreatMergeBlock(s, b, isLeader);
      TidyAfterMerge(s, b, isLeader);
    } else if ParentsStored(s.blockgraph, b) {
      assert f.value == StoreBlock(s, b);
      TidyAfterStore(s, b);
    } else {
      assert f.value == WaitForParents(s, b, AgainstWaitingList, s.peers[b.leader]);
      TidyAfterWait(s, b, s.peers[b.leader]);
    }
  }

  /**
   * With the missing-list filter, a parent that is waiting is entered on
   * the missing list as well, so the list is no longer clean.
   */
  lemma MissingFilterListsWaitingParent(s: NodeState, b: Block, isLeader: bool, p: Bytes)
    requires Tidy(s) && s.running && Fresh(s, b) && !IsMergeBlock(b) && 0 <= b.leader as int < |s.peers|
    requires p in b.parents && p != b.hash && InWaitingList(s, p) && !HasBlock(s.blockgraph, p)
    ensures BlockTreatment(s, b, AgainstMissingList, isLeader).Success?
    ensures var r := BlockTreatment(s, b, AgainstMissingList, isLeader).value;
      InMissingList(r, p) && InWaitingList(r, p) && !NoStaleMissing(r)
  {
    var s1 := s.(lastLeader := b.leader as int, missingList := EraseMissingBlock(s.missingList, b.hash));
    var unknown := FilterNodesNotInBG(s1.blockgraph, b.parents);
    assert p in unknown;
    assert !ParentsStored(s1.blockgraph, b);
    assert !InMissingList(s1, p);
    assert p in FilterUnknownParents(s1, unknown, AgainstMissingList);
    var w := WaitForParents(s1, b, AgainstMissingList, s.peers[b.leader]);
    assert TreatRegularBlock(s1, b, AgainstMissingList) == Success(w);
    assert BlockTreatment(s, b, AgainstMissingList, isLeader) == Success(w);
    assert InMissingList(w, p) && InWaitingList(w, p);
  }

  /**
   * A missing-list entry whose block is already stored survives every
   * later block treatment: it is erased only when its block arrives while
   * not stored.
   */
  lemma StaleMissingPersists(s: NodeState, b: Block, filter: ParentFilter, isLeader: bool, p: Bytes)
    requires HasBlock(s.blockgraph, p) && InMissingList(s, p)
    requires BlockTreatment(s, b, filter, isLeader).Success?
    ensures var r := BlockTreatment(s, b, filter, isLeader).value;
      HasBlock(r.blockgraph, p) && InMissingList(r, p)
  {
    var r := BlockTreatment(s, b, filter, isLeader);
    if s.running && !HasBlock(s.blockgraph, b.hash) {
      var s1 := s.(lastLeader := b.leader as int, missingList := EraseMissingBlock(s.missingList, b.hash));
      assert p != b.hash;
      assert InMissingList(s1, p);
      if !InWaitingList(s1, b.hash) {
        assert r == TreatFreshBlock(s1, b, filter, isLeader);
        StaleAfterFresh(s1, b, filter, isLeader, p);
      }
    }
  }

  /** The treatment of a fresh block keeps a missing-list entry whose block is stored. */
  lemma StaleAfterFresh(s: NodeState, b: Block, filter: ParentFilter, isLeader: bool, p: Bytes)
    requires Fresh(s, b) && HasBlock(s.blockgraph, p) && InMissingList(s, p)
    requires TreatFreshBlock(s, b, filter, isLeader).Success?
    ensures var r := TreatFreshBlock(s, b, filter, isLeader).value;
      HasBlock(r.blockgraph, p) && InMissingList(r, p)
  {
    var f := TreatFreshBlock(s, b, filter, isLeader);
    if IsMergeBlock(b) {
      assert f == TreatMergeBlock(s, b, isLeader);
      var s2 := StartSyncProcedure(s, b.transactions, isLeader).value;
      StartSyncKeeps(s, b.transactions, isLeader);
      assert InMissingList(s2, p);
      assert f.value == AddBlockToBlockgraph(s2, b);
    } else if ParentsStored(s.blockgraph, b) {
      assert f.value == StoreBlock(s, b);
    } else {
      var w := WaitForParents(s, b, filter, s.peers[b.leader]);
      assert f.value == w;
      assert Keys(s.missingList) <= Keys(w.missingList);
    }
  }
}
