/**
 * The transaction mempool of a node: admission, capacity, the oldest-first
 * selection of a block's transactions, retransmission of old pending
 * transactions, and clean-up once a block confirms them.
 */
module Mempool {
  import opened Bytes
  import opened Wrappers
  import opened Net
  import opened Transactions
  import opened Blocks
  import opened Assoc
  import opened Blockgraphs
  import opened Node

  /** The sum of the declared sizes of the pending transactions. */
  function SumSizes(m: seq<Entry<Transaction>>): (r: int)
    ensures (forall i :: 0 <= i < |m| ==> m[i].1.size >= 0) ==> r >= 0
  {
    if |m| == 0 then 0 else m[0].1.size as int + SumSizes(m[1..])
  }

  /** `SizeMempoolBytes`: the sum accumulated in an `int`. */
  function SizeMempoolBytes(m: Map<Transaction>): (r: Int32)
    ensures (r - SumSizes(m)) % TWO32 == 0
    ensures 0 <= SumSizes(m) < TWO31 ==> r == SumSizes(m)
  {
    Wrap32(SumSizes(m))
  }

  /** `IsSpaceInMempool`: fewer than SIZE_MEMPOOL whole kilobytes are pending. */
  function IsSpaceInMempool(m: Map<Transaction>): (r: bool)
    ensures 0 <= SumSizes(m) < TWO31 ==> (r <==> SumSizes(m) < SIZE_MEMPOOL * 1000)
    ensures SizeMempoolBytes(m) < 0 ==> r
  {
    TruncDiv(SizeMempoolBytes(m), 1000) < SIZE_MEMPOOL
  }

  /** The conditions under which `TransactionsTreatment` stores t. */
  predicate Admits(s: NodeState, t: Transaction)
  {
    !HasKey(s.mempool, t.hash) && !IsTxInBG(s.blockgraph, t) && IsSpaceInMempool(s.mempool)
  }

  /**
   * `TransactionsTreatment`: a transaction that is new to the mempool and
   * to the blockgraph is stored if there is space; otherwise exactly one
   * of the loss and duplicate counters grows.
   */
  function TransactionsTreatment(s: NodeState, t: Transaction): (r: NodeState)
    ensures !s.running ==> r == s
    ensures r == s.(mempool := r.mempool, lostTrans := r.lostTrans, numDumpingTxs := r.numDumpingTxs)
    ensures s.running ==> (Keys(r.mempool) != Keys(s.mempool) <==> Admits(s, t))
    ensures s.running && Admits(s, t) ==>
      && Keys(r.mempool) == Keys(s.mempool) + {t.hash}
      && Get(r.mempool, t.hash) == Some(t)
      && (forall h :: h != t.hash ==> Get(r.mempool, h) == Get(s.mempool, h))
      && r.lostTrans == s.lostTrans && r.numDumpingTxs == s.numDumpingTxs
    ensures s.running && !Admits(s, t) ==>
      && r.mempool == s.mempool
      && r.lostTrans + r.numDumpingTxs == s.lostTrans + s.numDumpingTxs + 1
    ensures r.lostTrans == s.lostTrans + 1 <==>
      s.running && !HasKey(s.mempool, t.hash) && !IsTxInBG(s.blockgraph, t) && !IsSpaceInMempool(s.mempool)
  {
    if !s.running then s
    else if HasKey(s.mempool, t.hash) then s.(numDumpingTxs := s.numDumpingTxs + 1)
    else if IsTxInBG(s.blockgraph, t) then s.(numDumpingTxs := s.numDumpingTxs + 1)
    else if IsSpaceInMempool(s.mempool) then
      var m := Put(s.mempool, t.hash, t);
      assert t.hash in Keys(m);
      s.(mempool := m)
    else s.(lostTrans := s.lostTrans + 1)
  }

  // ---------------------------------------------------------------------
  // SelectTransactions
  // ---------------------------------------------------------------------

  /** The initial "no candidate" of the selection scan: key "0" and a far-future timestamp. */
  const NO_KEY: Bytes := [48]
  const FAR_FUTURE: Time := 9999999.0

  /** The most transactions a block takes: (n * TX_MEAN_SIZE) / 1000 < MAX_SIZE_BLOCK holds exactly below it. */
  const MAX_TXS_PER_BLOCK: nat := 120

  lemma BlockRoom(n: nat)
    ensures (n * TX_MEAN_SIZE) / 1000 < MAX_SIZE_BLOCK <==> n < MAX_TXS_PER_BLOCK
  {
  }

  /**
   * One pass of the selection's inner loop over the entries from position
   * i on: the position of the first entry, not yet selected, with the
   * smallest timestamp below `bestTs`, or `best` if there is none.
   */
  function PickOldest(m: seq<Entry<Transaction>>, sel: seq<Transaction>, i: nat, best: Option<nat>, bestTs: Time): (r: Option<nat>)
    requires i <= |m|
    requires best.Some? ==> best.value < i && m[best.value].1 !in sel && m[best.value].1.timestamp == bestTs
    ensures r.Some? ==> r.value < |m| && m[r.value].1 !in sel
    ensures r.Some? ==> m[r.value].1.timestamp <= bestTs
    ensures r.Some? && r != best ==> m[r.value].1.timestamp < bestTs
    ensures r.None? ==> best.None?
    ensures forall j :: i <= j < |m| && m[j].1 !in sel ==>
      (if r.Some? then m[r.value].1.timestamp else bestTs) <= m[j].1.timestamp
    ensures r.Some? && r != best ==> r.value >= i
    decreases |m| - i
  {
    if i == |m| then best
    else if m[i].1 in sel then PickOldest(m, sel, i + 1, best, bestTs)
    else if m[i].1.timestamp < bestTs then PickOldest(m, sel, i + 1, Some(i), m[i].1.timestamp)
    else PickOldest(m, sel, i + 1, best, bestTs)
  }

  /** Every transaction of `sel` is a distinct mempool value, oldest first, and no younger than any other pending one. */
  predicate SelectionSoFar(m: Map<Transaction>, sel: seq<Transaction>)
  {
    && (forall i, j :: 0 <= i < j < |sel| ==> sel[i] != sel[j])
    && (forall i :: 0 <= i < |sel| ==> InMempool(m, sel[i]))
    && (forall i, j :: 0 <= i < j < |sel| ==> sel[i].timestamp <= sel[j].timestamp)
    && (forall i, k :: 0 <= i < |sel| && 0 <= k < |m| && m[k].1 !in sel ==> sel[i].timestamp <= m[k].1.timestamp)
  }

  /**
   * Why the selection loop breaks before the block is full: no pending
   * entry left out is older than the far-future mark, or one such entry
   * carries the key "0" that means "no candidate".
   */
  predicate Exhausted(m: Map<Transaction>, sel: seq<Transaction>)
  {
    || (forall k :: 0 <= k < |m| && m[k].1 !in sel ==> m[k].1.timestamp >= FAR_FUTURE)
    || (exists k :: 0 <= k < |m| && m[k].1 !in sel && m[k].0 == NO_KEY && m[k].1.timestamp < FAR_FUTURE)
  }

  predicate InMempool(m: Map<Transaction>, t: Transaction)
  {
    exists k :: 0 <= k < |m| && m[k].1 == t
  }

  /** Taking a pending transaction no younger than any other unselected one keeps the selection's invariant. */
  lemma SelectStep(m: Map<Transaction>, sel: seq<Transaction>, p: nat)
    requires SelectionSoFar(m, sel)
    requires p < |m| && m[p].1 !in sel
    requires forall k :: 0 <= k < |m| && m[k].1 !in sel ==> m[p].1.timestamp <= m[k].1.timestamp
    ensures SelectionSoFar(m, sel + [m[p].1])
  {
    var t := m[p].1;
    var sel' := sel + [t];
    assert InMempool(m, t);
    assert forall k :: 0 <= k < |m| && m[k].1 !in sel' ==> m[k].1 !in sel;
    assert forall i :: 0 <= i < |sel| ==> sel'[i] == sel[i];
    forall i, k | 0 <= i < |sel'| && 0 <= k < |m| && m[k].1 !in sel'
      ensures sel'[i].timestamp <= m[k].1.timestamp
    {
      if i < |sel| {
        assert sel'[i] == sel[i];
      }
    }
    forall i, j | 0 <= i < j < |sel'|
      ensures sel'[i].timestamp <= sel'[j].timestamp
    {
      if j == |sel| {
        assert sel'[i] == sel[i];
      }
    }
  }

  /** The outer loop of `SelectTransactions`, from the transactions already taken. */
  function SelectFrom(m: Map<Transaction>, sel: seq<Transaction>): (r: seq<Transaction>)
    requires |sel| <= MAX_TXS_PER_BLOCK
    requires SelectionSoFar(m, sel)
    ensures SelectionSoFar(m, r)
    ensures |r| <= MAX_TXS_PER_BLOCK
    ensures |r| < MAX_TXS_PER_BLOCK ==> Exhausted(m, r)
    ensures |sel| <= |r| && r[..|sel|] == sel
    decreases MAX_TXS_PER_BLOCK - |sel|, 1
  {
    BlockRoom(|sel|);
    if !((|sel| * TX_MEAN_SIZE) / 1000 < MAX_SIZE_BLOCK) then sel
    else
      var p := PickOldest(m, sel, 0, None, FAR_FUTURE);
      if p.None? || m[p.value].0 == NO_KEY then sel
      else
        // `txn_mempool[min_ts.first]` is the entry the scan found
        GetAt(m, p.value);
        var t := Get(m, m[p.value].0).value;
        SelectStep(m, sel, p.value);
        SelectFromRest(m, sel, t)
  }

  function SelectFromRest(m: Map<Transaction>, sel: seq<Transaction>, t: Transaction): (r: seq<Transaction>)
    requires |sel| < MAX_TXS_PER_BLOCK
    requires SelectionSoFar(m, sel + [t])
    ensures SelectionSoFar(m, r)
    ensures |r| <= MAX_TXS_PER_BLOCK
    ensures |r| < MAX_TXS_PER_BLOCK ==> Exhausted(m, r)
    ensures |sel| <= |r| && r[..|sel|] == sel
    decreases MAX_TXS_PER_BLOCK - |sel|, 0
  {
    var r := SelectFrom(m, sel + [t]);
    assert r[..|sel|] == r[..|sel| + 1][..|sel|];
    r
  }

  /**
   * `SelectTransactions`: at most 120 distinct pending transactions, in
   * non-decreasing timestamp order, none younger than a transaction left
   * behind; fewer than 120 only when the loop ran out of candidates.
   */
  function SelectTransactions(m: Map<Transaction>): (r: seq<Transaction>)
    ensures |r| <= MAX_TXS_PER_BLOCK
    ensures forall i, j :: 0 <= i < j < |r| ==> r[i] != r[j]
    ensures forall i :: 0 <= i < |r| ==> InMempool(m, r[i])
    ensures forall i, j :: 0 <= i < j < |r| ==> r[i].timestamp <= r[j].timestamp
    ensures forall i, k :: 0 <= i < |r| && 0 <= k < |m| && m[k].1 !in r ==> r[i].timestamp <= m[k].1.timestamp
    ensures |r| < MAX_TXS_PER_BLOCK ==> Exhausted(m, r)
  {
    SelectFrom(m, [])
  }

  // ---------------------------------------------------------------------
  // Clean-up, block trigger and retransmission
  // ---------------------------------------------------------------------

  /** The hashes of a list of transactions. */
  function TxHashes(txs: seq<Transaction>): (r: set<Bytes>)
    ensures forall h :: h in r <==> exists i :: 0 <= i < |txs| && txs[i].hash == h
  {
    if |txs| == 0 then {}
    else
      var r := {txs[0].hash} + TxHashes(txs[1..]);
      assert forall h :: h in r ==> exists i :: 0 <= i < |txs| && txs[i].hash == h by {
        forall h | h in r
          ensures exists i :: 0 <= i < |txs| && txs[i].hash == h
        {
          if h != txs[0].hash {
            var i :| 0 <= i < |txs[1..]| && txs[1..][i].hash == h;
            assert txs[i + 1].hash == h;
          }
        }
      }
      assert forall h :: (exists i :: 0 <= i < |txs| && txs[i].hash == h) ==> h in r by {
        forall h | exists i :: 0 <= i < |txs| && txs[i].hash == h
          ensures h in r
        {
          var i :| 0 <= i < |txs| && txs[i].hash == h;
          if i > 0 {
            assert txs[1..][i - 1].hash == h;
          }
        }
      }
      r
  }

  /**
   * `UpdatingMempool`, and the erasure loop of `GenerateRegularBlock`: the
   * entries of the given transactions' hashes leave the mempool, every
   * other entry stays.
   */
  function UpdatingMempool(m: Map<Transaction>, txs: seq<Transaction>): (r: Map<Transaction>)
    ensures Keys(r) == Keys(m) - TxHashes(txs)
    ensures forall h :: h !in TxHashes(txs) ==> Get(r, h) == Get(m, h)
    decreases |txs|
  {
    if |txs| == 0 then m
    else
      var r := UpdatingMempool(Remove(m, txs[0].hash), txs[1..]);
      assert TxHashes(txs) == {txs[0].hash} + TxHashes(txs[1..]);
      r
  }

  /** `TestPendingTxs`: enough time since the last block, and more than MIN_SIZE_BLOCK kilobytes pending. */
  function TestPendingTxs(s: NodeState, now: Time): (r: bool)
    ensures r ==> Seconds(now) > s.lastBlockCreationTime + TIME_BTW_BLOCK
    ensures 0 <= SumSizes(s.mempool) < TWO31 ==>
      (r <==> Seconds(now) > s.lastBlockCreationTime + TIME_BTW_BLOCK && SumSizes(s.mempool) >= (MIN_SIZE_BLOCK + 1) * 1000)
  {
    Seconds(now) - s.lastBlockCreationTime > TIME_BTW_BLOCK && TruncDiv(SizeMempoolBytes(s.mempool), 1000) > MIN_SIZE_BLOCK
  }

  /** A pending transaction older than the retransmission timer. */
  predicate Stale(t: Transaction, now: Time)
  {
    t.timestamp + RETRANSMISSION_TIMER as real < now
  }

  /** The length of the longest run of stale transactions at the front of the mempool. */
  function StalePrefix(m: seq<Entry<Transaction>>, now: Time): (r: nat)
    ensures r <= |m|
    ensures forall i :: 0 <= i < r ==> Stale(m[i].1, now)
    ensures r < |m| ==> !Stale(m[r].1, now)
  {
    if |m| == 0 || !Stale(m[0].1, now) then 0 else 1 + StalePrefix(m[1..], now)
  }

  /** `b` extends `a` with packets that carry stale transactions only. */
  predicate Resends(a: seq<Effect>, b: seq<Effect>, now: Time)
  {
    |a| <= |b| && b[..|a|] == a &&
    forall e :: e in b[|a|..] ==> e.Send? && e.msg.TransactionMsg? && Stale(e.msg.tx, now)
  }

  lemma ResendsTrans(a: seq<Effect>, b: seq<Effect>, c: seq<Effect>, now: Time)
    requires Resends(a, b, now) && Resends(b, c, now)
    ensures Resends(a, c, now)
  {
    assert c[..|a|] == c[..|b|][..|a|];
    forall e | e in c[|a|..]
      ensures e.Send? && e.msg.TransactionMsg? && Stale(e.msg.tx, now)
    {
      var j :| 0 <= j < |c| - |a| && c[|a|..][j] == e;
      if |a| + j < |b| {
        assert b[|a|..][j] == e;
      } else {
        assert c[|b|..][|a| + j - |b|] == e;
      }
    }
  }

  /**
   * The loop of `RetransmitTransactions` from entry position `k` with its
   * counter at `i`; `step` is what the counter grows by per retransmission.
   */
  function RetransmitLoop(s: NodeState, now: Time, k: nat, i: int, step: int): (r: NodeState)
    requires k <= |s.mempool|
    ensures r == s.(numRTxsG := r.numRTxsG, outbox := r.outbox)
    ensures Resends(s.outbox, r.outbox, now)
    decreases |s.mempool| - k, 1
  {
    if k == |s.mempool| then s
    else if Stale(s.mempool[k].1, now) && i <= 10 then RetransmitNext(s, now, k, i, step)
    else s
  }

  /** One retransmission of the loop, then the rest of the loop. */
  function RetransmitNext(s: NodeState, now: Time, k: nat, i: int, step: int): (r: NodeState)
    requires k < |s.mempool| && Stale(s.mempool[k].1, now)
    ensures r == s.(numRTxsG := r.numRTxsG, outbox := r.outbox)
    ensures Resends(s.outbox, r.outbox, now)
    decreases |s.mempool| - k, 0
  {
    var t := s.mempool[k].1;
    var s1 := BroadcastTransaction(s.(numRTxsG := s.numRTxsG + 1), t);
    var r := RetransmitLoop(s1, now, k + 1, i + step, step);
    assert Resends(s.outbox, s1.outbox, now) by {
      assert s1.outbox[..|s.outbox|] == s.outbox;
      forall e | e in s1.outbox[|s.outbox|..]
        ensures e.Send? && e.msg.TransactionMsg? && Stale(e.msg.tx, now)
      {
      }
    }
    ResendsTrans(s.outbox, s1.outbox, r.outbox, now);
    r
  }

  /**
   * `RetransmitTransactions` as written: the counter that should cap the
   * retransmissions at eleven is never incremented.
   */
  function RetransmitTransactionsAsWritten(s: NodeState, now: Time): (r: NodeState)
    ensures r == s.(numRTxsG := r.numRTxsG, outbox := r.outbox)
    ensures Resends(s.outbox, r.outbox, now)
  {
    RetransmitLoop(s, now, 0, 0, 0)
  }

  /** The evidently intended `RetransmitTransactions`: the counter grows with each retransmission. */
  function RetransmitTransactions(s: NodeState, now: Time): (r: NodeState)
    ensures r == s.(numRTxsG := r.numRTxsG, outbox := r.outbox)
    ensures Resends(s.outbox, r.outbox, now)
  {
    RetransmitLoop(s, now, 0, 0, 1)
  }

  function Min(a: int, b: int): int
  {
    if a <= b then a else b
  }

  /** With a counter that does not move, the loop retransmits the whole stale run. */
  lemma {:induction false} RetransmitCountFixed(s: NodeState, now: Time, k: nat, i: int)
    requires k <= |s.mempool| && i <= 10
    ensures RetransmitLoop(s, now, k, i, 0).numRTxsG == s.numRTxsG + StalePrefix(s.mempool[k..], now)
    decreases |s.mempool| - k
  {
    if k < |s.mempool| {
      StalePrefixStep(s.mempool, k, now);
      var t := s.mempool[k].1;
      if Stale(t, now) {
        var s1 := BroadcastTransaction(s.(numRTxsG := s.numRTxsG + 1), t);
        RetransmitLoopStep(s, now, k, i, 0);
        RetransmitCountFixed(s1, now, k + 1, i);
      }
    }
  }

  /** With a counter that grows by one, the loop stops after 11 - i retransmissions. */
  lemma {:induction false} RetransmitCountCounted(s: NodeState, now: Time, k: nat, i: int)
    requires k <= |s.mempool| && 0 <= i <= 11
    ensures RetransmitLoop(s, now, k, i, 1).numRTxsG == s.numRTxsG + Min(StalePrefix(s.mempool[k..], now), 11 - i)
    decreases |s.mempool| - k
  {
    if k < |s.mempool| {
      StalePrefixStep(s.mempool, k, now);
      var t := s.mempool[k].1;
      if Stale(t, now) && i <= 10 {
        var s1 := BroadcastTransaction(s.(numRTxsG := s.numRTxsG + 1), t);
        RetransmitLoopStep(s, now, k, i, 1);
        RetransmitCountCounted(s1, now, k + 1, i + 1);
      }
    }
  }

  /** Unfolds one retransmission of the loop. */
  lemma RetransmitLoopStep(s: NodeState, now: Time, k: nat, i: int, step: int)
    requires k < |s.mempool| && Stale(s.mempool[k].1, now) && i <= 10
    ensures var s1 := BroadcastTransaction(s.(numRTxsG := s.numRTxsG + 1), s.mempool[k].1);
      && s1.mempool == s.mempool && s1.numRTxsG == s.numRTxsG + 1
      && RetransmitLoop(s, now, k, i, step) == RetransmitLoop(s1, now, k + 1, i + step, step)
  {
  }

  lemma StalePrefixStep(m: seq<Entry<Transaction>>, k: nat, now: Time)
    requires k < |m|
    ensures StalePrefix(m[k..], now) == if Stale(m[k].1, now) then 1 + StalePrefix(m[k + 1..], now) else 0
  {
    assert m[k..][0] == m[k];
    assert m[k..][1..] == m[k + 1..];
  }

  /** As written, every stale transaction at the front of the mempool is retransmitted, however many there are. */
  lemma RetransmitAsWrittenUncapped(s: NodeState, now: Time)
    ensures RetransmitTransactionsAsWritten(s, now).numRTxsG == s.numRTxsG + StalePrefix(s.mempool, now)
  {
    RetransmitCountFixed(s, now, 0, 0);
    assert s.mempool[0..] == s.mempool;
  }

  /** With the counter incremented, at most eleven transactions are retransmitted per round. */
  lemma RetransmitCapped(s: NodeState, now: Time)
    ensures RetransmitTransactions(s, now).numRTxsG == s.numRTxsG + Min(StalePrefix(s.mempool, now), 11)
  {
    RetransmitCountCounted(s, now, 0, 0);
    assert s.mempool[0..] == s.mempool;
  }
}
