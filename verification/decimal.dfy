/**
 * Decimal text as the C++ standard library produces and reads it:
 * `std::to_string` for integers, `std::stoi`, and splitting a string at
 * its first space with `find` and `substr`.
 */
module Decimal {
  import opened Bytes
  import opened Wrappers

  const SPACE: Byte := 32
  const PLUS: Byte := 43
  const MINUS: Byte := 45
  const ZERO: Byte := 48

  predicate IsDigit(c: Byte)
  {
    48 <= c <= 57
  }

  /** `isspace` in the C locale. */
  predicate IsSpace(c: Byte)
  {
    c == SPACE || 9 <= c <= 13
  }

  /** The ASCII character of a decimal digit. */
  function DigitChar(d: nat): (c: Byte)
    requires d < 10
    ensures IsDigit(c)
    ensures d > 0 ==> c != ZERO
  {
    [48, 49, 50, 51, 52, 53, 54, 55, 56, 57][d]
  }

  /** The value of an ASCII decimal digit. */
  function DigitOf(c: Byte): (d: nat)
    requires IsDigit(c)
    ensures d < 10 && DigitChar(d) == c
  {
    if c == 48 then 0 else if c == 49 then 1 else if c == 50 then 2
    else if c == 51 then 3 else if c == 52 then 4 else if c == 53 then 5
    else if c == 54 then 6 else if c == 55 then 7 else if c == 56 then 8
    else 9
  }

  lemma DigitOfChar(d: nat)
    requires d < 10
    ensures DigitOf(DigitChar(d)) == d
  {
  }

  /** The decimal digits of n, most significant first, with no leading zero. */
  function Digits(n: nat): (r: Bytes)
    ensures 0 < |r|
    ensures forall i :: 0 <= i < |r| ==> IsDigit(r[i])
    ensures |r| > 1 ==> r[0] != ZERO
  {
    if n < 10 then [DigitChar(n)] else Digits(n / 10) + [DigitChar(n % 10)]
  }

  /** `std::to_string(x)` for an integer. */
  function ToString(x: int): (r: Bytes)
    ensures 0 < |r|
    ensures forall i :: 0 <= i < |r| ==> r[i] != SPACE && !IsSpace(r[i])
    ensures x >= 0 <==> IsDigit(r[0])
  {
    if x < 0 then [MINUS] + Digits(-x) else Digits(x)
  }

  /** The value of a run of decimal digits, most significant first. */
  function DigitValue(d: Bytes): nat
    requires forall i :: 0 <= i < |d| ==> IsDigit(d[i])
  {
    if |d| == 0 then 0 else 10 * DigitValue(d[..|d| - 1]) + DigitOf(d[|d| - 1])
  }

  /** The number of leading bytes of s that are decimal digits. */
  function LeadingDigits(s: Bytes): (k: nat)
    ensures k <= |s|
    ensures forall i :: 0 <= i < k ==> IsDigit(s[i])
    ensures k < |s| ==> !IsDigit(s[k])
  {
    if |s| == 0 || !IsDigit(s[0]) then 0 else 1 + LeadingDigits(s[1..])
  }

  /** The number of leading bytes of s that are white space. */
  function LeadingSpaces(s: Bytes): (k: nat)
    ensures k <= |s|
    ensures forall i :: 0 <= i < k ==> IsSpace(s[i])
    ensures k < |s| ==> !IsSpace(s[k])
  {
    if |s| == 0 || !IsSpace(s[0]) then 0 else 1 + LeadingSpaces(s[1..])
  }

  /**
   * `std::stoi(s)`: leading white space, an optional sign, then the longest
   * run of digits; anything after the digits is ignored.  None stands for
   * the exception stoi throws when there is no digit (invalid_argument) or
   * the value does not fit an int (out_of_range).
   */
  function Stoi(s: Bytes): (r: Option<Int32>)
    ensures (forall i :: 0 <= i < |s| ==> !IsDigit(s[i])) ==> r.None?
  {
    var t := s[LeadingSpaces(s)..];
    var signed := |t| > 0 && (t[0] == MINUS || t[0] == PLUS);
    var d := if signed then t[1..] else t;
    var k := LeadingDigits(d);
    if k == 0 then None
    else
      assert d[0] == s[LeadingSpaces(s) + (if signed then 1 else 0)];
      var magnitude: int := DigitValue(d[..k]);
      var v := if signed && t[0] == MINUS then -magnitude else magnitude;
      if -TWO31 <= v < TWO31 then Some(v) else None
  }

  lemma {:induction false} DigitValueOfDigits(n: nat)
    ensures DigitValue(Digits(n)) == n
  {
    if n >= 10 {
      var d := Digits(n);
      assert d[..|d| - 1] == Digits(n / 10);
      DigitValueOfDigits(n / 10);
      DigitOfChar(n % 10);
      assert DigitValue(d) == 10 * (n / 10) + n % 10;
    } else {
      DigitOfChar(n);
    }
  }

  lemma LeadingDigitsOfDigits(n: nat)
    ensures LeadingDigits(Digits(n)) == |Digits(n)|
  {
    AllDigits(Digits(n));
  }

  lemma {:induction false} AllDigits(d: Bytes)
    requires forall i :: 0 <= i < |d| ==> IsDigit(d[i])
    ensures LeadingDigits(d) == |d|
  {
    if |d| > 0 {
      AllDigits(d[1..]);
    }
  }

  /** The id printed by `to_string` is read back by `stoi`. */
  lemma StoiToString(x: Int32)
    ensures Stoi(ToString(x)) == Some(x)
  {
    var s := ToString(x);
    assert LeadingSpaces(s) == 0;
    assert s[0..] == s;
    var xi: int := x;
    var n: nat := if xi < 0 then -xi else xi;
    DigitValueOfDigits(n);
    LeadingDigitsOfDigits(n);
    if x < 0 {
      assert s[1..] == Digits(n);
    } else {
      assert s[0] != MINUS && s[0] != PLUS;
    }
    assert Digits(n)[..|Digits(n)|] == Digits(n);
  }

  /** `s.find(c)`: the first position of c, None for npos. */
  function Find(s: Bytes, c: Byte): (r: Option<nat>)
    ensures r.Some? ==> r.value < |s| && s[r.value] == c
    ensures r.Some? ==> forall i :: 0 <= i < r.value ==> s[i] != c
    ensures r.None? ==> forall i :: 0 <= i < |s| ==> s[i] != c
  {
    if |s| == 0 then None
    else if s[0] == c then Some(0)
    else match Find(s[1..], c)
      case None => None
      case Some(k) => Some(k + 1)
  }

  /**
   * `(s.substr(0, n), s.substr(n + 1))` with `n = s.find(" ")`.  When there is
   * no space n is npos: the first substr keeps the whole string and n + 1
   * wraps to 0, so the second keeps it too.
   */
  function SplitAtSpace(s: Bytes): (r: (Bytes, Bytes))
    ensures SPACE !in r.0
    ensures r.0 == s || r.0 + [SPACE] + r.1 == s
    ensures SPACE !in s ==> r == (s, s)
  {
    match Find(s, SPACE)
    case None => (s, s)
    case Some(n) =>
      assert s == s[..n] + [SPACE] + s[n + 1..];
      (s[..n], s[n + 1..])
  }

  /** Splitting a text that starts with a space-free word returns that word and the rest. */
  lemma SplitAtSpaceOfWord(w: Bytes, rest: Bytes)
    requires SPACE !in w
    ensures SplitAtSpace(w + [SPACE] + rest) == (w, rest)
  {
    var s := w + [SPACE] + rest;
    FindAfterWord(w, rest);
    assert s[..|w|] == w;
    assert s[|w| + 1..] == rest;
  }

  lemma {:induction false} FindAfterWord(w: Bytes, rest: Bytes)
    requires SPACE !in w
    ensures Find(w + [SPACE] + rest, SPACE) == Some(|w|)
  {
    if |w| > 0 {
      assert (w + [SPACE] + rest)[1..] == w[1..] + [SPACE] + rest;
      FindAfterWord(w[1..], rest);
    }
  }
}
