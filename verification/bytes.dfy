/**
 * Byte strings as the C++ code uses them: std::string buffers holding
 * binary hashes, NUL padding, and little-endian integers copied with memcpy.
 */
module Bytes {

  /** One unsigned byte, as the code reads each char of a buffer through memcpy. */
  newtype Byte = x: int | 0 <= x < 0x100
  type Bytes = seq<Byte>

  const TWO8: int := 0x100
  const TWO31: int := 0x8000_0000
  const TWO32: int := 0x1_0000_0000
  const TWO63: int := 0x8000_0000_0000_0000
  const TWO64: int := 0x1_0000_0000_0000_0000

  /** The value range of a C++ `int` (32 bits, two's complement). */
  type Int32 = x: int | -TWO31 <= x < TWO31
  /** The value range of a 64-bit signed integer. */
  type Int64 = x: int | -TWO63 <= x < TWO63

  /** `string(n, c)`: n copies of the byte c. */
  function Fill(n: nat, c: Byte): (r: Bytes)
    ensures |r| == n
    ensures forall i :: 0 <= i < n ==> r[i] == c
  {
    seq(n, _ => c)
  }

  /** `s + string(width - s.size(), c)`, which the source only evaluates when s fits. */
  function PadRight(s: Bytes, width: nat, c: Byte): (r: Bytes)
    requires |s| <= width
    ensures |r| == width
    ensures r[..|s|] == s
    ensures forall i :: |s| <= i < width ==> r[i] == c
  {
    s + Fill(width - |s|, c)
  }

  /** `std::string::operator<`: lexicographic order on unsigned bytes. */
  predicate Less(a: Bytes, b: Bytes)
  {
    if |a| == 0 then |b| > 0
    else if |b| == 0 then false
    else if a[0] != b[0] then a[0] < b[0]
    else Less(a[1..], b[1..])
  }

  lemma {:induction false} LessIrreflexive(a: Bytes)
    ensures !Less(a, a)
  {
    if |a| > 0 {
      LessIrreflexive(a[1..]);
    }
  }

  lemma {:induction false} LessTotal(a: Bytes, b: Bytes)
    ensures a == b || Less(a, b) || Less(b, a)
  {
    if |a| > 0 && |b| > 0 && a[0] == b[0] {
      LessTotal(a[1..], b[1..]);
      if a[1..] == b[1..] {
        assert a == [a[0]] + a[1..] && b == [b[0]] + b[1..];
      }
    }
  }

  lemma {:induction false} LessTransitive(a: Bytes, b: Bytes, c: Bytes)
    requires Less(a, b) && Less(b, c)
    ensures Less(a, c)
  {
    if |a| > 0 && |b| > 0 && |c| > 0 && a[0] == b[0] && b[0] == c[0] {
      LessTransitive(a[1..], b[1..], c[1..]);
    }
  }

  /** Concatenation of a sequence of byte strings. */
  function Concat(ss: seq<Bytes>): (r: Bytes)
  {
    if |ss| == 0 then [] else ss[0] + Concat(ss[1..])
  }

  /** The record split of a childless-hash reply: consecutive pieces of at most w bytes. */
  function Chunks(d: Bytes, w: nat): (r: seq<Bytes>)
    requires w > 0
    ensures forall i :: 0 <= i < |r| ==> 0 < |r[i]| <= w
    ensures forall i :: 0 <= i < |r| - 1 ==> |r[i]| == w
    decreases |d|
  {
    if |d| == 0 then []
    else if |d| <= w then [d]
    else [d[..w]] + Chunks(d[w..], w)
  }

  lemma {:induction false} ConcatChunks(d: Bytes, w: nat)
    requires w > 0
    ensures Concat(Chunks(d, w)) == d
    decreases |d|
  {
    if |d| > w {
      ConcatChunks(d[w..], w);
      assert d == d[..w] + d[w..];
    }
  }

  lemma {:induction false} ChunksConcat(hs: seq<Bytes>, w: nat)
    requires w > 0
    requires forall i :: 0 <= i < |hs| ==> |hs[i]| == w
    ensures Chunks(Concat(hs), w) == hs
  {
    if |hs| > 0 {
      ChunksConcat(hs[1..], w);
      ConcatLength(hs[1..], w);
      var d := Concat(hs);
      assert d == hs[0] + Concat(hs[1..]);
      assert d[..w] == hs[0];
      assert d[w..] == Concat(hs[1..]);
      if |hs| == 1 {
        assert Concat(hs[1..]) == [];
        assert d == hs[0];
      } else {
        assert |d| > w;
      }
    }
  }

  lemma {:induction false} ConcatLength(hs: seq<Bytes>, w: nat)
    requires forall i :: 0 <= i < |hs| ==> |hs[i]| == w
    ensures |Concat(hs)| == w * |hs|
  {
    if |hs| > 0 {
      ConcatLength(hs[1..], w);
    }
  }

  // ---------------------------------------------------------------------
  // Little-endian fixed-width integers (the memcpy of an int field).
  // ---------------------------------------------------------------------

  /** 256^n. */
  function Pow256(n: nat): (r: nat)
    ensures r >= 1
  {
    if n == 0 then 1 else 256 * Pow256(n - 1)
  }

  /** The n low-order bytes of u, least significant first. */
  function EncodeLE(u: nat, n: nat): (r: Bytes)
    ensures |r| == n
  {
    if n == 0 then [] else [(u % 256) as Byte] + EncodeLE(u / 256, n - 1)
  }

  /** The unsigned value of a little-endian byte string. */
  function DecodeLE(b: Bytes): (r: nat)
    ensures r < Pow256(|b|)
  {
    if |b| == 0 then 0 else b[0] as int + 256 * DecodeLE(b[1..])
  }

  lemma {:induction false} DecodeEncodeLE(u: nat, n: nat)
    requires u < Pow256(n)
    ensures DecodeLE(EncodeLE(u, n)) == u
  {
    if n > 0 {
      var q, m := u / 256, u % 256;
      var e := EncodeLE(u, n);
      assert e[1..] == EncodeLE(q, n - 1);
      DivBound(u, n);
      DecodeEncodeLE(q, n - 1);
      assert e[0] as int == m;
      assert DecodeLE(e) == m + 256 * q;
    }
  }

  lemma DivBound(u: nat, n: nat)
    requires n > 0 && u < Pow256(n)
    ensures u / 256 < Pow256(n - 1)
  {
    assert Pow256(n) == 256 * Pow256(n - 1);
  }

  /** Two's-complement reinterpretation of an unsigned n-byte value. */
  function ToSigned(u: nat, n: nat): int
  {
    if u >= Pow256(n) / 2 then u - Pow256(n) else u
  }

  /** The unsigned n-byte image of a signed value. */
  function ToUnsigned(x: int, n: nat): nat
    requires -(Pow256(n) / 2) <= x < Pow256(n) / 2
  {
    if x < 0 then x + Pow256(n) else x
  }

  lemma Pow256Values()
    ensures Pow256(4) == TWO32
    ensures Pow256(8) == TWO64
  {
    assert Pow256(1) == 256;
    assert Pow256(2) == 65536;
    assert Pow256(4) == 256 * 256 * 65536;
  }

  /** `memcpy(buf, &x, 4)` for an int. */
  function EncodeInt32(x: Int32): (r: Bytes)
    ensures |r| == 4
  {
    Pow256Values();
    EncodeLE(ToUnsigned(x, 4), 4)
  }

  /** `memcpy(&x, buf, 4)` for an int; the bytes read are the first four. */
  function DecodeInt32(b: Bytes): (r: Int32)
    requires |b| >= 4
  {
    Pow256Values();
    ToSigned(DecodeLE(b[..4]), 4)
  }

  function EncodeInt64(x: Int64): (r: Bytes)
    ensures |r| == 8
  {
    Pow256Values();
    EncodeLE(ToUnsigned(x, 8), 8)
  }

  function DecodeInt64(b: Bytes): (r: Int64)
    requires |b| >= 8
  {
    Pow256Values();
    ToSigned(DecodeLE(b[..8]), 8)
  }

  lemma DecodeEncodeInt32(x: Int32, rest: Bytes)
    ensures DecodeInt32(EncodeInt32(x) + rest) == x
  {
    Pow256Values();
    var e := EncodeInt32(x);
    assert (e + rest)[..4] == e;
    DecodeEncodeLE(ToUnsigned(x, 4), 4);
  }

  lemma DecodeEncodeInt64(x: Int64, rest: Bytes)
    ensures DecodeInt64(EncodeInt64(x) + rest) == x
  {
    Pow256Values();
    var e := EncodeInt64(x);
    assert (e + rest)[..8] == e;
    DecodeEncodeLE(ToUnsigned(x, 8), 8);
  }

  /**
   * The value a C++ `int` holds after an out-of-range integer is stored
   * into it: reduction modulo 2^32 into the signed range.
   */
  function Wrap32(x: int): (r: Int32)
    ensures (r - x) % TWO32 == 0
    ensures -TWO31 <= x < TWO31 ==> r == x
  {
    var u := x % TWO32;
    if u >= TWO31 then u - TWO32 else u
  }

  /** C++ `a / b` on ints: the quotient rounded toward zero. */
  function TruncDiv(a: int, b: int): (r: int)
    requires b > 0
    ensures a >= 0 ==> r == a / b
    ensures a < 0 ==> r <= 0 && r * b >= a && (r - 1) * b < a
  {
    if a >= 0 then a / b else -((-a) / b)
  }

  /** C++ `a % b` on ints: the remainder takes the sign of a. */
  function TruncRem(a: int, b: int): (r: int)
    requires b > 0
    ensures a == TruncDiv(a, b) * b + r
    ensures a >= 0 ==> 0 <= r < b
    ensures a < 0 ==> -b < r <= 0
  {
    a - TruncDiv(a, b) * b
  }
}
