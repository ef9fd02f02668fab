/**
 * The ordered containers of the node: `std::map<std::string, V>` and
 * `std::multimap<std::string, V>`.  Both are modelled by the sequence of
 * their entries in iteration order, so that every loop over a container
 * visits entries in the order the C++ code does (keys ascending under
 * `std::string::operator<`; equal keys of a multimap in insertion order).
 */
module Assoc {
  import opened Bytes
  import opened Wrappers

  type Entry<V> = (Bytes, V)

  /** Keys strictly ascending: the iteration sequence of a std::map. */
  predicate StrictlySorted<V>(m: seq<Entry<V>>)
  {
    forall i, j :: 0 <= i < j < |m| ==> Less(m[i].0, m[j].0)
  }

  /** Keys ascending, duplicates allowed: the iteration sequence of a std::multimap. */
  predicate Ordered<V>(m: seq<Entry<V>>)
  {
    forall i, j :: 0 <= i < j < |m| ==> !Less(m[j].0, m[i].0)
  }

  type Map<V> = m: seq<Entry<V>> | StrictlySorted(m) witness []
  type MultiMap<V> = m: seq<Entry<V>> | Ordered(m) witness []

  predicate HasKey<V>(m: seq<Entry<V>>, k: Bytes)
  {
    exists i :: 0 <= i < |m| && m[i].0 == k
  }

  /** The set of keys present. */
  function Keys<V>(m: seq<Entry<V>>): (r: set<Bytes>)
    ensures forall k :: k in r <==> HasKey(m, k)
  {
    if |m| == 0 then {}
    else
      assert forall k :: HasKey(m, k) <==> k == m[0].0 || HasKey(m[1..], k) by {
        forall k | HasKey(m, k) && k != m[0].0
          ensures HasKey(m[1..], k)
        {
          var i :| 0 <= i < |m| && m[i].0 == k;
          assert m[1..][i - 1].0 == k;
        }
      }
      {m[0].0} + Keys(m[1..])
  }

  /** `m.find(k)`: the value stored under k. */
  function Get<V>(m: seq<Entry<V>>, k: Bytes): (r: Option<V>)
    ensures r.Some? <==> HasKey(m, k)
  {
    if |m| == 0 then None
    else if m[0].0 == k then Some(m[0].1)
    else
      assert HasKey(m, k) <==> HasKey(m[1..], k) by {
        if HasKey(m, k) {
          var i :| 0 <= i < |m| && m[i].0 == k;
          assert m[1..][i - 1].0 == k;
        }
      }
      Get(m[1..], k)
  }

  /** The value `m[k]` of a std::map reads at the position holding k. */
  lemma {:induction false} GetAt<V>(m: Map<V>, i: nat)
    requires i < |m|
    ensures Get(m, m[i].0) == Some(m[i].1)
  {
    if i > 0 {
      LessIrreflexive(m[i].0);
      assert Less(m[0].0, m[i].0);
      TailSorted(m);
      var t: Map<V> := m[1..];
      GetAt(t, i - 1);
      assert t[i - 1] == m[i];
    }
  }

  lemma TailSorted<V>(m: Map<V>)
    requires |m| > 0
    ensures StrictlySorted(m[1..])
  {
    assert forall i :: 0 <= i < |m| - 1 ==> m[1..][i] == m[i + 1];
  }

  /** Prepending an entry whose key is below the head keeps a std::map sorted. */
  lemma ConsSorted<V>(e: Entry<V>, t: Map<V>)
    requires |t| == 0 || Less(e.0, t[0].0)
    ensures StrictlySorted([e] + t)
  {
    var m := [e] + t;
    forall i, j | 0 <= i < j < |m|
      ensures Less(m[i].0, m[j].0)
    {
      if i == 0 && j > 1 {
        LessTransitive(e.0, t[0].0, t[j - 1].0);
      }
    }
  }

  /** `m[k] = v`: insert or overwrite the entry for k. */
  function Put<V>(m: Map<V>, k: Bytes, v: V): (r: Map<V>)
    ensures Keys(r) == Keys(m) + {k}
    ensures Get(r, k) == Some(v)
    ensures forall x :: x != k ==> Get(r, x) == Get(m, x)
  {
    if |m| == 0 then [(k, v)]
    else if m[0].0 == k then
      TailSorted(m);
      NotKeyOfTail(m);
      HeadBelowTail(m);
      ConsBelowAll((k, v), m[1..]);
      var r := [(k, v)] + m[1..];
      assert r[1..] == m[1..];
      r
    else if Less(k, m[0].0) then
      ConsSorted((k, v), m);
      var r := [(k, v)] + m;
      assert r[1..] == m;
      r
    else
      TailSorted(m);
      NotKeyOfTail(m);
      HeadBelowTail(m);
      LessTotal(k, m[0].0);
      var t := Put(m[1..], k, v);
      ConsBelowAll(m[0], t);
      var r := [m[0]] + t;
      assert r[1..] == t;
      r
  }

  lemma NotKeyOfTail<V>(m: Map<V>)
    requires |m| > 0
    ensures m[0].0 !in Keys(m[1..])
  {
    if HasKey(m[1..], m[0].0) {
      var i :| 0 <= i < |m| - 1 && m[1..][i].0 == m[0].0;
      assert Less(m[0].0, m[i + 1].0);
      LessIrreflexive(m[0].0);
    }
  }

  /** Every key of the tail of a std::map lies above its first key. */
  lemma HeadBelowTail<V>(m: Map<V>)
    requires |m| > 0
    ensures forall x :: x in Keys(m[1..]) ==> Less(m[0].0, x)
  {
    forall x | x in Keys(m[1..])
      ensures Less(m[0].0, x)
    {
      var i :| 0 <= i < |m| - 1 && m[1..][i].0 == x;
      assert m[i + 1].0 == x;
    }
  }

  /** Prepending an entry whose key is below every key keeps a std::map sorted. */
  lemma ConsBelowAll<V>(e: Entry<V>, t: Map<V>)
    requires forall x :: x in Keys(t) ==> Less(e.0, x)
    ensures StrictlySorted([e] + t)
  {
    var m := [e] + t;
    forall i, j | 0 <= i < j < |m|
      ensures Less(m[i].0, m[j].0)
    {
      if i == 0 {
        assert t[j - 1].0 in Keys(t);
      }
    }
  }

  /** `m.erase(k)`. */
  function Remove<V>(m: Map<V>, k: Bytes): (r: Map<V>)
    ensures Keys(r) == Keys(m) - {k}
    ensures forall x :: x != k ==> Get(r, x) == Get(m, x)
    ensures |r| <= |m|
    ensures HasKey(m, k) ==> |r| < |m|
  {
    if |m| == 0 then m
    else
      TailSorted(m);
      NotKeyOfTail(m);
      HeadBelowTail(m);
      if m[0].0 == k then m[1..]
      else
        var t := Remove(m[1..], k);
        ConsBelowAll(m[0], t);
        var r := [m[0]] + t;
        assert r[1..] == t;
        LessIrreflexive(m[0].0);
        r
  }

  lemma LessAsymmetric(a: Bytes, b: Bytes)
    requires Less(a, b)
    ensures !Less(b, a)
  {
    if Less(b, a) {
      LessTransitive(a, b, a);
      LessIrreflexive(a);
    }
  }

  // ---------------------------------------------------------------------
  // std::multimap
  // ---------------------------------------------------------------------

  /** The values stored under k, in iteration order (the equal range of k). */
  function Values<V>(m: seq<Entry<V>>, k: Bytes): (r: seq<V>)
    ensures |r| <= |m|
  {
    if |m| == 0 then []
    else (if m[0].0 == k then [m[0].1] else []) + Values(m[1..], k)
  }

  /** `m.count(k)`. */
  function Count<V>(m: seq<Entry<V>>, k: Bytes): (r: nat)
    ensures r == |Values(m, k)|
    ensures r > 0 <==> HasKey(m, k)
  {
    if |m| == 0 then 0
    else
      assert forall x :: HasKey(m, x) <==> x == m[0].0 || HasKey(m[1..], x) by {
        forall x | HasKey(m, x) && x != m[0].0
          ensures HasKey(m[1..], x)
        {
          var i :| 0 <= i < |m| && m[i].0 == x;
          assert m[1..][i - 1].0 == x;
        }
      }
      (if m[0].0 == k then 1 else 0) + Count(m[1..], k)
  }

  lemma OrderedTail<V>(m: MultiMap<V>)
    requires |m| > 0
    ensures Ordered(m[1..])
  {
    assert forall i :: 0 <= i < |m| - 1 ==> m[1..][i] == m[i + 1];
  }

  /**
   * `m.insert({k, v})`: the entry goes after every entry whose key is not
   * above k (the upper bound of k's equal range).
   */
  function Insert<V>(m: MultiMap<V>, k: Bytes, v: V): (r: MultiMap<V>)
    ensures forall x :: x != k ==> Values(r, x) == Values(m, x)
    ensures Keys(r) == Keys(m) + {k}
  {
    if |m| == 0 then [(k, v)]
    else if Less(k, m[0].0) then
      HeadNotAboveTail(m);
      BelowHeadBelowAll(m, k);
      ConsNotAboveAll((k, v), m);
      var r := [(k, v)] + m;
      assert r[1..] == m;
      r
    else
      OrderedTail(m);
      HeadNotAboveTail(m);
      var t := Insert(m[1..], k, v);
      ConsNotAboveAll(m[0], t);
      var r := [m[0]] + t;
      assert r[1..] == t;
      r
  }

  lemma BelowHeadBelowAll<V>(m: MultiMap<V>, k: Bytes)
    requires |m| > 0 && Less(k, m[0].0)
    ensures forall x :: x in Keys(m) ==> !Less(x, k)
    ensures k !in Keys(m)
  {
    if k in Keys(m) {
      var i :| 0 <= i < |m| && m[i].0 == k;
      if i > 0 {
        assert !Less(m[i].0, m[0].0);
      }
      LessIrreflexive(k);
    }
    forall x | x in Keys(m)
      ensures !Less(x, k)
    {
      var i :| 0 <= i < |m| && m[i].0 == x;
      LessTotal(m[0].0, x);
      if Less(m[0].0, x) {
        LessTransitive(k, m[0].0, x);
        LessAsymmetric(k, x);
      } else if x == m[0].0 {
        LessAsymmetric(k, x);
      }
    }
  }

  /** With the multimap ordered, the inserted value ends k's equal range. */
  lemma {:induction false} InsertAtUpperBound<V>(m: MultiMap<V>, k: Bytes, v: V)
    ensures Values(Insert(m, k, v), k) == Values(m, k) + [v]
  {
    if |m| > 0 {
      if Less(k, m[0].0) {
        InsertBelowHead(m, k, v);
      } else {
        var r := Insert(m, k, v);
        OrderedTail(m);
        assert r[1..] == Insert(m[1..], k, v);
        InsertAtUpperBound(m[1..], k, v);
        var h: seq<V> := if m[0].0 == k then [m[0].1] else [];
        assert Values(r, k) == h + (Values(m[1..], k) + [v]);
        assert Values(m, k) == h + Values(m[1..], k);
      }
    }
  }

  lemma InsertBelowHead<V>(m: MultiMap<V>, k: Bytes, v: V)
    requires |m| > 0 && Less(k, m[0].0)
    ensures Values(Insert(m, k, v), k) == Values(m, k) + [v]
  {
    var r := Insert(m, k, v);
    assert r[1..] == m;
    BelowHeadBelowAll(m, k);
    assert Count(m, k) == 0;
    assert Values(m, k) == [];
    assert Values(r, k) == [v] + Values(m, k);
  }

  /** Every key of the tail of a std::multimap lies at or above its first key. */
  lemma HeadNotAboveTail<V>(m: MultiMap<V>)
    requires |m| > 0
    ensures forall x :: x in Keys(m[1..]) ==> !Less(x, m[0].0)
  {
    forall x | x in Keys(m[1..])
      ensures !Less(x, m[0].0)
    {
      var i :| 0 <= i < |m| - 1 && m[1..][i].0 == x;
      assert m[i + 1].0 == x;
    }
  }

  /** Prepending an entry whose key is not above any key keeps a std::multimap ordered. */
  lemma ConsNotAboveAll<V>(e: Entry<V>, t: MultiMap<V>)
    requires forall x :: x in Keys(t) ==> !Less(x, e.0)
    ensures Ordered([e] + t)
  {
    var m := [e] + t;
    forall i, j | 0 <= i < j < |m|
      ensures !Less(m[j].0, m[i].0)
    {
      if i == 0 {
        assert t[j - 1].0 in Keys(t);
      }
    }
  }

  /** `m.erase(k)`: every entry of k's equal range goes. */
  function EraseKey<V>(m: MultiMap<V>, k: Bytes): (r: MultiMap<V>)
    ensures forall x :: x != k ==> Values(r, x) == Values(m, x)
    ensures Values(r, k) == []
    ensures Keys(r) == Keys(m) - {k}
  {
    if |m| == 0 then m
    else
      OrderedTail(m);
      HeadNotAboveTail(m);
      var t := EraseKey(m[1..], k);
      assert m == [m[0]] + m[1..];
      ConsEntry(m[0], m[1..]);
      if m[0].0 == k then t
      else
        ConsNotAboveAll(m[0], t);
        ConsEntry(m[0], t);
        [m[0]] + t
  }

  /** The keys and values of a sequence with an entry in front. */
  lemma ConsEntry<V>(e: Entry<V>, t: seq<Entry<V>>)
    ensures Keys([e] + t) == {e.0} + Keys(t)
    ensures forall x :: Values([e] + t, x) == (if e.0 == x then [e.1] else []) + Values(t, x)
  {
    var m := [e] + t;
    assert m[1..] == t;
    forall x | HasKey(m, x) && x != e.0
      ensures HasKey(t, x)
    {
      var i :| 0 <= i < |m| && m[i].0 == x;
      assert t[i - 1].0 == x;
    }
    forall x | HasKey(t, x)
      ensures HasKey(m, x)
    {
      var i :| 0 <= i < |t| && t[i].0 == x;
      assert m[i + 1].0 == x;
    }
    assert m[0].0 == e.0;
  }
  /** No value occurs twice in s. */
  ghost predicate Unique<V>(s: seq<V>)
  {
    forall i, j :: 0 <= i < j < |s| ==> s[i] != s[j]
  }

  /** No (key, value) pair is stored twice in a std::multimap. */
  ghost predicate UniquePairs<V>(m: seq<Entry<V>>)
  {
    forall k :: Unique(Values(m, k))
  }

  /** Inserting a pair that is not yet stored keeps the pairs unique. */
  lemma InsertFresh<V>(m: MultiMap<V>, k: Bytes, v: V)
    requires UniquePairs(m) && v !in Values(m, k)
    ensures UniquePairs(Insert(m, k, v))
  {
    InsertAtUpperBound(m, k, v);
    forall x
      ensures Unique(Values(Insert(m, k, v), x))
    {
      if x != k {
        assert Unique(Values(m, x));
      } else {
        assert Unique(Values(m, k));
      }
    }
  }

  /** Erasing a key keeps the pairs unique. */
  lemma EraseKeyUnique<V>(m: MultiMap<V>, k: Bytes)
    requires UniquePairs(m)
    ensures UniquePairs(EraseKey(m, k))
  {
    forall x
      ensures Unique(Values(EraseKey(m, k), x))
    {
      if x != k {
        assert Unique(Values(m, x));
      }
    }
  }
  /** `multimap::erase(k)` guarded by `count(k) > 0`: k's equal range goes. */
  function EraseRange<V>(m: MultiMap<V>, k: Bytes): (r: MultiMap<V>)
    ensures !HasKey(r, k)
    ensures forall x :: x != k ==> Values(r, x) == Values(m, x)
    ensures Keys(r) == Keys(m) - {k}
    ensures UniquePairs(m) ==> UniquePairs(r)
  {
    if HasKey(m, k) then
      assert UniquePairs(m) ==> UniquePairs(EraseKey(m, k)) by {
        if UniquePairs(m) {
          EraseKeyUnique(m, k);
        }
      }
      EraseKey(m, k)
    else m
  }

  /** Inserts the pair (k, v) unless k's equal range already holds v. */
  function InsertNew<V(==)>(m: MultiMap<V>, k: Bytes, v: V): (r: MultiMap<V>)
    ensures v in Values(r, k)
    ensures v in Values(m, k) ==> r == m
    ensures v !in Values(m, k) ==> Values(r, k) == Values(m, k) + [v]
    ensures forall x :: x != k ==> Values(r, x) == Values(m, x)
    ensures Keys(r) == Keys(m) + {k}
    ensures UniquePairs(m) ==> UniquePairs(r)
  {
    if v in Values(m, k) then
      assert HasKey(m, k) by {
        assert Count(m, k) > 0;
      }
      m
    else
      InsertAtUpperBound(m, k, v);
      assert UniquePairs(m) ==> UniquePairs(Insert(m, k, v)) by {
        if UniquePairs(m) {
          InsertFresh(m, k, v);
        }
      }
      Insert(m, k, v)
  }
}
