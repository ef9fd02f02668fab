/**
 * `B4MeshMobility`'s group discovery: the routing table gives a candidate
 * group, a candidate that differs from the current group is adopted at
 * once outside the tolerance window and only when it differs enough
 * inside it, and an adopted group gets an id computed from its members
 * whatever their order.
 */
module Mobility {
  import opened Bytes
  import opened Net
  import opened Decimal
  import opened Transactions
  import Node

  /** Seconds after a change during which a further change must be considerable. */
  const TOPOLOGY_TOLERANCE_TIME: int := 10
  /** `std::numeric_limits<int>::max()`. */
  const INT_MAX: int := 2147483647
  /** Width of a group id. */
  const GROUP_ID_SIZE: nat := 32

  /**
   * The discovery state of one node.  `notified` lists, oldest first, the
   * groups handed to the node's `Central` application through
   * `Central::ReceiveNewTopology`.
   */
  datatype MobilityState = MobilityState(
    running: bool,
    self: int,
    selfIp: Ipv4Address,
    peers: seq<Ipv4Address>,
    group: seq<Member>,
    groupId: Bytes,
    timeChange: int,
    notified: seq<seq<Member>>)

  // ---------------------------------------------------------------------
  // Counting members
  // ---------------------------------------------------------------------

  /** How many elements of xs occur in ys: `common_count`. */
  function CountIn(xs: seq<Member>, ys: seq<Member>): (r: nat)
    ensures r <= |xs|
    ensures r == |xs| <==> forall x :: x in xs ==> x in ys
  {
    if |xs| == 0 then 0
    else
      assert forall x :: x in xs <==> x == xs[0] || x in xs[1..] by {
        assert xs == [xs[0]] + xs[1..];
      }
      (if xs[0] in ys then 1 else 0) + CountIn(xs[1..], ys)
  }

  /** How many elements of xs do not occur in ys: the counter `i` of `CalculDiffBtwGroups`. */
  function CountOut(xs: seq<Member>, ys: seq<Member>): (r: nat)
    ensures r <= |xs|
    ensures r == 0 <==> forall x :: x in xs ==> x in ys
  {
    if |xs| == 0 then 0
    else
      assert forall x :: x in xs <==> x == xs[0] || x in xs[1..] by {
        assert xs == [xs[0]] + xs[1..];
      }
      (if xs[0] in ys then 0 else 1) + CountOut(xs[1..], ys)
  }

  /** Every element is counted once, as present or as absent. */
  lemma {:induction false} CountInOut(xs: seq<Member>, ys: seq<Member>)
    ensures CountIn(xs, ys) + CountOut(xs, ys) == |xs|
    decreases |xs|
  {
    if |xs| > 0 {
      CountInOut(xs[1..], ys);
    }
  }

  predicate DistinctMembers(xs: seq<Member>)
  {
    forall i, j :: 0 <= i < j < |xs| ==> xs[i] != xs[j]
  }

  /** The members of xs that occur in ys. */
  function Common(xs: seq<Member>, ys: seq<Member>): set<Member>
  {
    set x | x in xs && x in ys
  }

  /** Without repetitions in xs, the count is the size of the common set. */
  lemma {:induction false} CountInCommon(xs: seq<Member>, ys: seq<Member>)
    requires DistinctMembers(xs)
    ensures CountIn(xs, ys) == |Common(xs, ys)|
    decreases |xs|
  {
    if |xs| > 0 {
      var t := xs[1..];
      assert DistinctMembers(t) by {
        forall i, j | 0 <= i < j < |t|
          ensures t[i] != t[j]
        {
          assert t[i] == xs[i + 1] && t[j] == xs[j + 1];
        }
      }
      CountInCommon(t, ys);
      assert xs[0] !in t by {
        forall k | 0 <= k < |t|
          ensures t[k] != xs[0]
        {
          assert t[k] == xs[k + 1];
        }
      }
      var c, ct := Common(xs, ys), Common(t, ys);
      assert CountIn(xs, ys) == (if xs[0] in ys then 1 else 0) + CountIn(t, ys);
      assert xs[0] !in ct;
      assert forall x :: x in xs <==> x == xs[0] || x in t by {
        assert xs == [xs[0]] + t;
      }
      if xs[0] in ys {
        assert c == ct + {xs[0]};
      } else {
        assert c == ct;
      }
    }
  }

  /** Without repetitions, a sequence has as many elements as its set. */
  lemma {:induction false} DistinctCard(ys: seq<Member>)
    requires DistinctMembers(ys)
    ensures |set y | y in ys| == |ys|
    decreases |ys|
  {
    if |ys| > 0 {
      var t := ys[1..];
      assert DistinctMembers(t) by {
        forall i, j | 0 <= i < j < |t|
          ensures t[i] != t[j]
        {
          assert t[i] == ys[i + 1] && t[j] == ys[j + 1];
        }
      }
      DistinctCard(t);
      assert ys[0] !in t by {
        forall k | 0 <= k < |t|
          ensures t[k] != ys[0]
        {
          assert t[k] == ys[k + 1];
        }
      }
      assert ys == [ys[0]] + t;
      assert (set y | y in ys) == (set y | y in t) + {ys[0]};
    }
  }

  /**
   * Without repetitions on either side, every element of ys is counted
   * exactly when all of ys occurs in xs.
   */
  lemma CountInCovers(xs: seq<Member>, ys: seq<Member>)
    requires DistinctMembers(xs) && DistinctMembers(ys)
    ensures CountIn(xs, ys) == |ys| <==> forall y :: y in ys ==> y in xs
  {
    CountInCommon(xs, ys);
    DistinctCard(ys);
    if forall y :: y in ys ==> y in xs {
      CommonAll(xs, ys);
    } else {
      var y :| y in ys && y !in xs;
      CommonShort(xs, ys, y);
    }
  }

  lemma CommonAll(xs: seq<Member>, ys: seq<Member>)
    requires forall y :: y in ys ==> y in xs
    ensures Common(xs, ys) == set y | y in ys
  {
  }

  lemma CommonShort(xs: seq<Member>, ys: seq<Member>, y: Member)
    requires y in ys && y !in xs
    ensures |Common(xs, ys)| < |set y | y in ys|
  {
    var all := set y | y in ys;
    SubsetCard(Common(xs, ys), all - {y});
    assert |all - {y}| == |all| - 1;
  }

  lemma SubsetCard<T>(a: set<T>, b: set<T>)
    requires a <= b
    ensures |a| <= |b|
    decreases b
  {
    if a != {} {
      var x :| x in a;
      SubsetCard(a - {x}, b - {x});
    }
  }

  // ---------------------------------------------------------------------
  // Classifying a change
  // ---------------------------------------------------------------------

  /**
   * `DetecteNatureChange`: NONE for an unchanged group; SPLIT when every
   * new member was already there, which is checked first; MERGE when as
   * many new members were there as the old group has; ARBITRARY otherwise.
   * For groups without repeated members, `NatureOfDistinctGroups` states
   * both directions of the MERGE and ARBITRARY cases in terms of membership.
   */
  function DetecteNatureChange(oldGroup: seq<Member>, newGroup: seq<Member>): (r: int)
    ensures r == Node.NONE <==> newGroup == oldGroup
    ensures r == Node.SPLIT <==> newGroup != oldGroup && forall n :: n in newGroup ==> n in oldGroup
    ensures r == Node.MERGE ==> newGroup != oldGroup && CountIn(newGroup, oldGroup) == |oldGroup|
    ensures r in {Node.NONE, Node.SPLIT, Node.MERGE, Node.ARBITRARY}
  {
    if newGroup == oldGroup then Node.NONE
    else
      var common := CountIn(newGroup, oldGroup);
      if common == |newGroup| then Node.SPLIT
      else if common == |oldGroup| then Node.MERGE
      else Node.ARBITRARY
  }

  /**
   * For groups without repeated members, a change that is not a split is
   * a merge exactly when the whole old group is in the new one.
   */
  lemma NatureOfDistinctGroups(oldGroup: seq<Member>, newGroup: seq<Member>)
    requires DistinctMembers(oldGroup) && DistinctMembers(newGroup)
    ensures DetecteNatureChange(oldGroup, newGroup) == Node.MERGE <==>
      && newGroup != oldGroup
      && (exists n :: n in newGroup && n !in oldGroup)
      && forall o :: o in oldGroup ==> o in newGroup
    ensures DetecteNatureChange(oldGroup, newGroup) == Node.ARBITRARY <==>
      && (exists n :: n in newGroup && n !in oldGroup)
      && (exists o :: o in oldGroup && o !in newGroup)
  {
    CountInCovers(newGroup, oldGroup);
  }

  /** From {1, 2, 3}: {1, 2} is a split, {1, 2, 3, 4} a merge and {1, 2, 4} an arbitrary change. */
  lemma NatureExamples(a: Ipv4Address, b: Ipv4Address, c: Ipv4Address, d: Ipv4Address)
    ensures var g := [Member(1, a), Member(2, b), Member(3, c)];
      && DetecteNatureChange(g, g) == Node.NONE
      && DetecteNatureChange(g, [Member(1, a), Member(2, b)]) == Node.SPLIT
      && DetecteNatureChange(g, [Member(1, a), Member(2, b), Member(3, c), Member(4, d)]) == Node.MERGE
      && DetecteNatureChange(g, [Member(1, a), Member(2, b), Member(4, d)]) == Node.ARBITRARY
  {
    var g := [Member(1, a), Member(2, b), Member(3, c)];
    var n := [Member(1, a), Member(2, b), Member(3, c), Member(4, d)];
    assert CountIn(n[3..], g) == 0;
    assert CountIn(n[2..], g) == 1;
    assert CountIn(n[1..], g) == 2;
    assert CountIn(n, g) == 3;
    assert Member(3, c) !in [Member(1, a), Member(2, b)];
    assert Member(4, d) !in g;
  }

  // ---------------------------------------------------------------------
  // Flap suppression and debounce
  // ---------------------------------------------------------------------

  /**
   * `CalculDiffBtwGroups`: a size difference of two or more is always a
   * change; otherwise the candidate must bring at least one member the
   * group lacks when it is smaller, and at least two when it is not.
   */
  function CalculDiffBtwGroups(group: seq<Member>, cand: seq<Member>): (r: bool)
    ensures |group| - |cand| >= 2 || |cand| - |group| >= 2 ==> r
    ensures -2 < |group| - |cand| < 2 ==>
      (r <==> CountOut(cand, group) >= (if |cand| < |group| then 1 else 2))
  {
    var diff := |group| - |cand|;
    if -2 < diff < 2 then
      var lim := if |cand| < |group| then 1 else 2;
      !(CountOut(cand, group) < lim)
    else true
  }

  /**
   * What flap suppression ignores, for groups without repeated members:
   * one member leaving, one member joining, and one member replaced by
   * another.
   */
  lemma SmallChangesIgnored(group: seq<Member>, cand: seq<Member>)
    requires DistinctMembers(group) && DistinctMembers(cand)
    ensures |cand| + 1 == |group| && (forall c :: c in cand ==> c in group) ==> !CalculDiffBtwGroups(group, cand)
    ensures |cand| == |group| + 1 && (forall g :: g in group ==> g in cand) ==> !CalculDiffBtwGroups(group, cand)
    ensures |cand| == |group| && CountIn(cand, group) + 1 == |cand| ==> !CalculDiffBtwGroups(group, cand)
  {
    CountInOut(cand, group);
    CountInCovers(cand, group);
  }

  /** A candidate two members larger or smaller, or replacing two members, is always a change. */
  lemma LargeChangesApplied(group: seq<Member>, cand: seq<Member>)
    ensures |cand| >= |group| + 2 || |group| >= |cand| + 2 ==> CalculDiffBtwGroups(group, cand)
    ensures |cand| == |group| && CountIn(cand, group) + 2 <= |cand| ==> CalculDiffBtwGroups(group, cand)
  {
    CountInOut(cand, group);
  }

  /** The candidate comes within the tolerance window of the previous change. */
  predicate InToleranceWindow(s: MobilityState, now: Time)
  {
    now - s.timeChange as real < TOPOLOGY_TOLERANCE_TIME as real
  }

  /**
   * `CheckGroupChangement`: outside the tolerance window the candidate is
   * adopted; inside it, only a considerable change is.
   */
  function CheckGroupChangement(s: MobilityState, cand: seq<Member>, now: Time, ser: Ipv4Address -> Bytes): (r: MobilityState)
    ensures !InToleranceWindow(s, now) || CalculDiffBtwGroups(s.group, cand) ==> r == ChangeGroup(s, cand, now, ser)
    ensures InToleranceWindow(s, now) && !CalculDiffBtwGroups(s.group, cand) ==> r == s
  {
    if InToleranceWindow(s, now) then
      if CalculDiffBtwGroups(s.group, cand) then ChangeGroup(s, cand, now, ser) else s
    else ChangeGroup(s, cand, now, ser)
  }

  /**
   * `ChangeGroup`: the candidate becomes the group under its computed id,
   * the node's `Central` application is handed the new group, and the
   * change time is recorded.
   */
  function ChangeGroup(s: MobilityState, cand: seq<Member>, now: Time, ser: Ipv4Address -> Bytes): (r: MobilityState)
    ensures r.group == cand && r.groupId == CalculeGroupId(cand, ser) && |r.groupId| == GROUP_ID_SIZE
    ensures r.notified == s.notified + [cand] && r.timeChange == Seconds(now)
    ensures r == s.(group := r.group, groupId := r.groupId, notified := r.notified, timeChange := r.timeChange)
  {
    s.(groupId := CalculeGroupId(cand, ser), group := cand, notified := s.notified + [cand], timeChange := Seconds(now))
  }

  // ---------------------------------------------------------------------
  // The candidate group
  // ---------------------------------------------------------------------

  /** The members (j, dest) for every position j >= i at which the peer table holds dest, in order. */
  function PeerMatches(peers: seq<Ipv4Address>, dest: Ipv4Address, i: nat): (r: seq<Member>)
    requires i <= |peers|
    ensures forall m :: m in r <==> m.ip == dest && i <= m.id < |peers| && peers[m.id] == dest
    decreases |peers| - i
  {
    if i == |peers| then []
    else (if peers[i] == dest then [Member(i, dest)] else []) + PeerMatches(peers, dest, i + 1)
  }

  /** The members found through the routing table's destinations, skipping the node's own address. */
  function RouteMembers(peers: seq<Ipv4Address>, selfIp: Ipv4Address, dests: seq<Ipv4Address>): (r: seq<Member>)
    ensures forall m :: m in r <==>
      m.ip in dests && m.ip != selfIp && 0 <= m.id < |peers| && peers[m.id] == m.ip
  {
    if |dests| == 0 then []
    else
      assert forall x :: x in dests <==> x == dests[0] || x in dests[1..] by {
        assert dests == [dests[0]] + dests[1..];
      }
      (if dests[0] != selfIp then PeerMatches(peers, dests[0], 0) else []) + RouteMembers(peers, selfIp, dests[1..])
  }

  /**
   * The sorted candidate of `TableChange`: the node itself, then every
   * (id, address) the routing table reaches.
   */
  function Candidate(s: MobilityState, dests: seq<Ipv4Address>): (r: seq<Member>)
    ensures SortedMembers(r)
    ensures Member(s.self, s.selfIp) in r
    ensures forall m :: m in r <==> (m == Member(s.self, s.selfIp) ||
      (m.ip in dests && m.ip != s.selfIp && 0 <= m.id < |s.peers| && s.peers[m.id] == m.ip))
  {
    var raw := [Member(s.self, s.selfIp)] + RouteMembers(s.peers, s.selfIp, dests);
    var r := SortMembers(raw);
    assert forall m :: m in r <==> m in raw by {
      forall m
        ensures m in r <==> m in raw
      {
        assert m in r <==> m in multiset(r);
        assert m in raw <==> m in multiset(raw);
      }
    }
    r
  }

  /**
   * `TableChange`: a stopped node ignores the routing table; a candidate
   * equal to the current group changes nothing; any other goes through
   * the debounce.
   */
  function TableChange(s: MobilityState, dests: seq<Ipv4Address>, now: Time, ser: Ipv4Address -> Bytes): (r: MobilityState)
    ensures !s.running || Candidate(s, dests) == s.group ==> r == s
    ensures s.running && Candidate(s, dests) != s.group ==> r == CheckGroupChangement(s, Candidate(s, dests), now, ser)
    ensures r.group == s.group || (r.group == Candidate(s, dests) && SortedMembers(r.group) && Member(s.self, s.selfIp) in r.group)
  {
    if !s.running then s
    else
      var cand := Candidate(s, dests);
      if cand == s.group then s else CheckGroupChangement(s, cand, now, ser)
  }

  // ---------------------------------------------------------------------
  // The group id
  // ---------------------------------------------------------------------

  /** `int(c)` for a `char`, which is signed. */
  function SignedChar(c: Byte): (r: int)
    ensures -128 <= r < 128
    ensures (r - c as int) % 256 == 0
  {
    if c as int >= 128 then c as int - 256 else c as int
  }

  /** The sum of the signed characters, without overflow. */
  function CharSum(s: Bytes): int
  {
    if |s| == 0 then 0 else SignedChar(s[0]) + CharSum(s[1..])
  }

  /** The `hash` loop: each addition stored back into an `int`, wrapping past its range. */
  function SumChars(acc: Int32, s: Bytes): (r: Int32)
    ensures (r - (acc + CharSum(s))) % TWO32 == 0
    decreases |s|
  {
    if |s| == 0 then acc
    else
      var a := Wrap32(acc + SignedChar(s[0]));
      var r := SumChars(a, s[1..]);
      ModSum(r - (a + CharSum(s[1..])), a - (acc + SignedChar(s[0])));
      r
  }

  /** Each member's id in decimal followed by its serialised address, in the given order. */
  function GroupString(order: seq<Member>, ser: Ipv4Address -> Bytes): Bytes
  {
    if |order| == 0 then [] else ToString(order[0].id) + ser(order[0].ip) + GroupString(order[1..], ser)
  }

  /** `hash % numeric_limits<int>::max()` over the sorted group, with the sign of the sum. */
  function GroupHash(grp: seq<Member>, ser: Ipv4Address -> Bytes): (r: int)
    ensures -INT_MAX < r < INT_MAX
  {
    TruncRem(SumChars(0, GroupString(SortMembers(grp), ser)), INT_MAX)
  }

  function Pow10(k: nat): (r: nat)
    ensures r >= 1
  {
    if k == 0 then 1 else 10 * Pow10(k - 1)
  }

  lemma {:induction false} DigitsLength(n: nat, k: nat)
    requires k >= 1 && n < Pow10(k)
    ensures |Digits(n)| <= k
    decreases k
  {
    if n >= 10 {
      assert k >= 2;
      assert n / 10 < Pow10(k - 1);
      DigitsLength(n / 10, k - 1);
    }
  }

  /** A hash below `INT_MAX` in magnitude takes at most eleven characters. */
  lemma HashDigits(h: int)
    requires -INT_MAX < h < INT_MAX
    ensures |ToString(h)| <= 11
  {
    assert Pow10(10) == 10000000000 by {
      assert Pow10(1) == 10 && Pow10(2) == 100 && Pow10(5) == 100000;
    }
    if h < 0 {
      DigitsLength(-h, 10);
    } else {
      DigitsLength(h, 10);
    }
  }

  /**
   * `CalculeGroupId`: the decimal hash of the sorted group, NUL-padded to
   * the width of a group id.
   */
  function CalculeGroupId(grp: seq<Member>, ser: Ipv4Address -> Bytes): (r: Bytes)
    ensures |r| == GROUP_ID_SIZE
    ensures |ToString(GroupHash(grp, ser))| <= 11
    ensures r[..|ToString(GroupHash(grp, ser))|] == ToString(GroupHash(grp, ser))
    ensures forall i :: |ToString(GroupHash(grp, ser))| <= i < GROUP_ID_SIZE ==> r[i] == 0
  {
    var h := GroupHash(grp, ser);
    HashDigits(h);
    PadRight(ToString(h), GROUP_ID_SIZE, 0)
  }

  /** The id depends on the members only, not on the order they are listed in. */
  lemma GroupIdPermutationInvariant(a: seq<Member>, b: seq<Member>, ser: Ipv4Address -> Bytes)
    requires multiset(a) == multiset(b)
    ensures CalculeGroupId(a, ser) == CalculeGroupId(b, ser)
  {
    SortPermutationInvariant(a, b);
  }

  /** While the sum stays inside the `int` range the hash is the plain remainder of the character sum. */
  lemma SumWithoutOverflow(s: Bytes)
    requires -TWO31 <= CharSum(s) < TWO31
    ensures SumChars(0, s) == CharSum(s)
  {
    var r := SumChars(0, s);
    ZeroMod(r - CharSum(s));
  }

  lemma ModSum(x: int, y: int)
    requires x % TWO32 == 0 && y % TWO32 == 0
    ensures (x + y) % TWO32 == 0
  {
    var p, q := x / TWO32, y / TWO32;
    assert x == TWO32 * p && y == TWO32 * q;
    assert x + y == TWO32 * (p + q);
  }

  lemma ZeroMod(d: int)
    requires -TWO32 < d < TWO32 && d % TWO32 == 0
    ensures d == 0
  {
    assert d == TWO32 * (d / TWO32);
  }
}
