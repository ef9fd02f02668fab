/**
 * Node addresses and group membership: the `peers` table that maps a node
 * id to its IPv4 address, and the (id, address) pairs that make up a group.
 */
module Net {
  import opened Bytes
  import opened Wrappers

  /** `ns3::Ipv4Address`, ordered by its 32-bit value. */
  newtype Ipv4Address = x: int | 0 <= x < 0x1_0000_0000

  /** `std::pair<int, Ipv4Address>`: a node id and its address. */
  datatype Member = Member(id: int, ip: Ipv4Address)

  /** `std::pair::operator<`: by id, then by address. */
  predicate MemberLess(a: Member, b: Member)
  {
    a.id < b.id || (a.id == b.id && a.ip < b.ip)
  }

  predicate SortedMembers(s: seq<Member>)
  {
    forall i, j :: 0 <= i < j < |s| ==> !MemberLess(s[j], s[i])
  }

  /** Insert m into a sorted sequence after every member not above it. */
  function InsertMember(s: seq<Member>, m: Member): (r: seq<Member>)
    requires SortedMembers(s)
    ensures SortedMembers(r)
    ensures multiset(r) == multiset(s) + multiset{m}
  {
    if |s| == 0 then [m]
    else if MemberLess(m, s[0]) then
      [m] + s
    else
      SortedTail(s);
      var t := InsertMember(s[1..], m);
      assert s == [s[0]] + s[1..];
      ConsSortedMember(s[0], t);
      [s[0]] + t
  }

  lemma SortedTail(s: seq<Member>)
    requires SortedMembers(s) && |s| > 0
    ensures SortedMembers(s[1..])
    ensures forall x :: x in multiset(s[1..]) ==> !MemberLess(x, s[0])
  {
    assert forall j :: 0 < j < |s| ==> s[1..][j - 1] == s[j];
  }

  lemma ConsSortedMember(h: Member, t: seq<Member>)
    requires SortedMembers(t)
    requires forall x :: x in multiset(t) ==> !MemberLess(x, h)
    ensures SortedMembers([h] + t)
  {
    var r := [h] + t;
    forall i, j | 0 <= i < j < |r|
      ensures !MemberLess(r[j], r[i])
    {
      if i == 0 {
        assert r[j] == t[j - 1];
        assert t[j - 1] in multiset(t);
      } else {
        assert r[i] == t[i - 1] && r[j] == t[j - 1];
      }
    }
  }

  /** `std::sort` of a group: the sorted permutation. */
  function SortMembers(s: seq<Member>): (r: seq<Member>)
    ensures SortedMembers(r)
    ensures multiset(r) == multiset(s)
  {
    if |s| == 0 then []
    else
      assert s == s[..|s| - 1] + [s[|s| - 1]];
      InsertMember(SortMembers(s[..|s| - 1]), s[|s| - 1])
  }

  /**
   * Two sorted sequences with the same members are equal: sorting
   * forgets the order a group was assembled in.
   */
  lemma {:induction false} SortedUnique(a: seq<Member>, b: seq<Member>)
    requires SortedMembers(a) && SortedMembers(b)
    requires multiset(a) == multiset(b)
    ensures a == b
  {
    if |a| > 0 {
      assert |b| == |multiset(b)| == |a|;
      SameHead(a, b);
      SortedTail(a);
      SortedTail(b);
      assert a == [a[0]] + a[1..] && b == [b[0]] + b[1..];
      assert multiset(a[1..]) == multiset(a) - multiset{a[0]};
      assert multiset(b[1..]) == multiset(b) - multiset{b[0]};
      SortedUnique(a[1..], b[1..]);
    }
  }

  lemma SameHead(a: seq<Member>, b: seq<Member>)
    requires SortedMembers(a) && SortedMembers(b)
    requires multiset(a) == multiset(b) && |a| > 0 && |b| > 0
    ensures a[0] == b[0]
  {
    assert a[0] in multiset(b) && b[0] in multiset(a);
    var i :| 0 <= i < |b| && b[i] == a[0];
    var j :| 0 <= j < |a| && a[j] == b[0];
    assert !MemberLess(a[j], a[0]);
    assert !MemberLess(b[i], b[0]);
  }

  lemma SortPermutationInvariant(a: seq<Member>, b: seq<Member>)
    requires multiset(a) == multiset(b)
    ensures SortMembers(a) == SortMembers(b)
  {
    SortedUnique(SortMembers(a), SortMembers(b));
  }

  /**
   * `GetIdFromIp` of the `Central` application: the first position of ip
   * in the peer table, or -1 when the table does not hold it.  It is also
   * the corrected form of the node's own lookup (`Node.GetIdFromIpAsWritten`).
   */
  function IdFromIp(peers: seq<Ipv4Address>, ip: Ipv4Address): (r: int)
    ensures -1 <= r < |peers|
    ensures r == -1 <==> ip !in peers
    ensures r >= 0 ==> peers[r] == ip && forall j :: 0 <= j < r ==> peers[j] != ip
  {
    if |peers| == 0 then -1
    else if peers[0] == ip then 0
    else
      var r := IdFromIp(peers[1..], ip);
      assert ip in peers <==> ip in peers[1..] by {
        assert peers == [peers[0]] + peers[1..];
      }
      if r == -1 then -1 else r + 1
  }

  /** `GetIpAddressFromId`: the address of node id, which must exist. */
  function IpFromId(peers: seq<Ipv4Address>, id: int): (r: Ipv4Address)
    requires 0 <= id < |peers|
    ensures r in peers
  {
    peers[id]
  }

  /** Address lookup inverts id lookup on a table without repeated addresses. */
  lemma IdFromIpOfIpFromId(peers: seq<Ipv4Address>, id: int)
    requires 0 <= id < |peers|
    requires forall i, j :: 0 <= i < j < |peers| ==> peers[i] != peers[j]
    ensures IdFromIp(peers, IpFromId(peers, id)) == id
  {
  }
}
