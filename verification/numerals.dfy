/**
 * Number <-> text conversions used by the modelled programs:
 * printf's `%d` / `%zu` / `%llu` (decimal, no padding), Python's `int(s)`
 * (base 10, surrounding whitespace, optional sign, `_` separators),
 * Python's `int(m, 2)` on a bit string, and Python's `'%0*X' % (w, v)`
 * (upper-case hexadecimal, zero-padded to at least `w` digits).
 */
module Numerals {
  import opened Wrappers

  // ---------------------------------------------------------------------
  // Decimal digits
  // ---------------------------------------------------------------------

  predicate IsDigit(c: char) { '0' <= c <= '9' }

  predicate AllDigits(s: string) {
    forall i :: 0 <= i < |s| ==> IsDigit(s[i])
  }

  function DigitValue(c: char): nat
    requires IsDigit(c)
  {
    (c as int) - ('0' as int)
  }

  function DigitChar(d: nat): (c: char)
    requires d < 10
    ensures IsDigit(c) && DigitValue(c) == d
  {
    (('0' as int) + d) as char
  }

  /** The value of a string of decimal digits, most significant first. */
  function DecimalValue(s: string): nat
    requires AllDigits(s)
    decreases |s|
  {
    if s == [] then 0 else 10 * DecimalValue(s[..|s| - 1]) + DigitValue(s[|s| - 1])
  }

  /** printf's `%d` (and `%zu`, `%llu`) of a non-negative number. */
  function NatToDecimal(n: nat): (s: string)
    ensures 1 <= |s| && AllDigits(s)
    ensures s[0] == '0' ==> n == 0 && |s| == 1
    decreases n
  {
    if n < 10 then [DigitChar(n)] else NatToDecimal(n / 10) + [DigitChar(n % 10)]
  }

  lemma {:induction false} DecimalRoundTrip(n: nat)
    ensures DecimalValue(NatToDecimal(n)) == n
    decreases n
  {
    if n >= 10 {
      DecimalRoundTrip(n / 10);
      var s := NatToDecimal(n);
      assert s[..|s| - 1] == NatToDecimal(n / 10);
    }
  }

  /** printf's `%d` of any integer: a minus sign for negative values. */
  function IntToDecimal(i: int): (s: string)
    ensures 1 <= |s|
    ensures s[0] == '-' <==> i < 0
    ensures IsDigit(s[|s| - 1])
    ensures forall k :: 0 < k < |s| ==> IsDigit(s[k])
  {
    if i < 0 then "-" + NatToDecimal(-i) else NatToDecimal(i)
  }

  // ---------------------------------------------------------------------
  // Python's int(s) in base 10
  // ---------------------------------------------------------------------

  /** The characters for which Python's `str.isspace()` holds; `int()` strips them. */
  predicate IsPySpace(c: char) {
    var k := c as int;
    (9 <= k <= 13) || (28 <= k <= 32) || k == 0x85 || k == 0xA0 || k == 0x1680
    || (0x2000 <= k <= 0x200A) || k == 0x2028 || k == 0x2029 || k == 0x202F
    || k == 0x205F || k == 0x3000
  }

  function StripLeft(s: string): (r: string)
    ensures |r| <= |s| && r == s[|s| - |r|..]
    ensures |r| > 0 ==> !IsPySpace(r[0])
    decreases |s|
  {
    if |s| > 0 && IsPySpace(s[0]) then StripLeft(s[1..]) else s
  }

  function StripRight(s: string): (r: string)
    ensures |r| <= |s| && r == s[..|r|]
    ensures |r| > 0 ==> !IsPySpace(r[|r| - 1])
    decreases |s|
  {
    if |s| > 0 && IsPySpace(s[|s| - 1]) then StripRight(s[..|s| - 1]) else s
  }

  /** Python's `str.strip()` with no argument. */
  function Strip(s: string): string {
    StripRight(StripLeft(s))
  }

  /**
   * The digit part of a Python integer literal: digits, with single
   * underscores allowed between two digits.
   */
  predicate IsPyDigits(s: string) {
    && |s| > 0
    && IsDigit(s[0])
    && IsDigit(s[|s| - 1])
    && (forall i :: 0 <= i < |s| ==> IsDigit(s[i]) || s[i] == '_')
    && (forall i :: 0 <= i < |s| - 1 && s[i] == '_' ==> IsDigit(s[i + 1]))
  }

  function DropUnderscores(s: string): (r: string)
    ensures forall i :: 0 <= i < |s| && s[i] != '_' ==> s[i] in r
    ensures |r| <= |s|
    ensures (forall i :: 0 <= i < |s| ==> IsDigit(s[i])) ==> r == s
  {
    if s == [] then []
    else if s[0] == '_' then DropUnderscores(s[1..])
    else [s[0]] + DropUnderscores(s[1..])
  }

  lemma {:induction false} DropUnderscoresDigits(s: string)
    requires forall i :: 0 <= i < |s| ==> IsDigit(s[i]) || s[i] == '_'
    ensures AllDigits(DropUnderscores(s))
    decreases |s|
  {
    if s != [] {
      DropUnderscoresDigits(s[1..]);
    }
  }

  function PyDigitsValue(s: string): nat
    requires IsPyDigits(s)
  {
    DropUnderscoresDigits(s);
    DecimalValue(DropUnderscores(s))
  }

  /** Python's `int()` of an already stripped text: an optional sign, then digits. */
  function PySigned(t: string): (r: Option<int>)
    ensures r.Some? ==> exists i :: 0 <= i < |t| && IsDigit(t[i])
  {
    if |t| > 0 && (t[0] == '+' || t[0] == '-') then
      if IsPyDigits(t[1..]) then
        assert t[1..][0] == t[1];
        var v: int := PyDigitsValue(t[1..]);
        Some(if t[0] == '-' then -v else v)
      else None
    else if IsPyDigits(t) then
      Some(PyDigitsValue(t))
    else None
  }

  /**
   * Python's `int(s)` for a `str` argument: `None` stands for the
   * `ValueError` it raises.
   */
  function PyInt(s: string): (r: Option<int>)
    ensures r.Some? ==> exists i :: 0 <= i < |s| && IsDigit(s[i])
  {
    var t := Strip(s);
    assert forall i :: 0 <= i < |t| ==> t[i] in s by {
      forall i | 0 <= i < |t| ensures t[i] in s {
        var l := StripLeft(s);
        assert t[i] == l[i];
        assert l[i] == s[|s| - |l| + i];
      }
    }
    PySigned(t)
  }

  lemma StripUnpadded(s: string)
    requires |s| > 0 && !IsPySpace(s[0]) && !IsPySpace(s[|s| - 1])
    ensures Strip(s) == s
  {
  }

  /** Python reads back exactly what printf's `%d` writes. */
  lemma {:induction false} PyIntRoundTrip(i: int)
    ensures PyInt(IntToDecimal(i)) == Some(i)
  {
    var n: nat := if i < 0 then -i else i;
    var d := NatToDecimal(n);
    DecimalRoundTrip(n);
    if i < 0 {
      PyIntOfNegated(d);
      assert IntToDecimal(i) == "-" + d;
    } else {
      PyIntOfDigits(d);
      assert IntToDecimal(i) == d;
    }
  }

  /** A digit string is read as its value. */
  lemma PyIntOfDigits(d: string)
    requires |d| > 0 && AllDigits(d)
    ensures PyInt(d) == Some(DecimalValue(d) as int)
  {
    StripUnpadded(d);
    PySignedDigits(d);
  }

  lemma PySignedDigits(d: string)
    requires |d| > 0 && AllDigits(d)
    ensures PySigned(d) == Some(DecimalValue(d) as int)
  {
    DigitsArePyDigits(d);
    assert d[0] != '+' && d[0] != '-';
  }

  lemma PySignedNegated(t: string, d: string)
    requires |d| > 0 && AllDigits(d)
    requires |t| > 0 && t[0] == '-' && t[1..] == d
    ensures PySigned(t) == Some(-(DecimalValue(d) as int))
  {
    DigitsArePyDigits(d);
  }

  lemma DigitsArePyDigits(d: string)
    requires |d| > 0 && AllDigits(d)
    ensures IsPyDigits(d) && PyDigitsValue(d) == DecimalValue(d)
  {
    assert DropUnderscores(d) == d;
  }

  /** A digit string after a minus sign is read as its negated value. */
  lemma PyIntOfNegated(d: string)
    requires |d| > 0 && AllDigits(d)
    ensures PyInt("-" + d) == Some(-(DecimalValue(d) as int))
  {
    var m := "-" + d;
    assert m[0] == '-' && m[|m| - 1] == d[|d| - 1];
    StripUnpadded(m);
    PySignedNegated(m, d);
  }

  // ---------------------------------------------------------------------
  // Powers, bit strings and hexadecimal
  // ---------------------------------------------------------------------

  function Pow2(e: nat): (p: nat)
    ensures p >= 1
  {
    if e == 0 then 1 else 2 * Pow2(e - 1)
  }

  function Pow16(e: nat): (p: nat)
    ensures p >= 1
  {
    if e == 0 then 1 else 16 * Pow16(e - 1)
  }

  lemma {:induction false} Pow16IsPow2(k: nat)
    ensures Pow16(k) == Pow2(4 * k)
  {
    if k > 0 {
      Pow16IsPow2(k - 1);
      var e := 4 * (k - 1);
      assert Pow2(e + 4) == 2 * Pow2(e + 3) == 4 * Pow2(e + 2) == 8 * Pow2(e + 1) == 16 * Pow2(e);
    }
  }

  lemma {:induction false} Pow2Monotone(a: nat, b: nat)
    requires a <= b
    ensures Pow2(a) <= Pow2(b)
    decreases b
  {
    if a < b {
      Pow2Monotone(a, b - 1);
    }
  }

  predicate IsBitString(m: string) {
    forall i :: 0 <= i < |m| ==> m[i] == '0' || m[i] == '1'
  }

  /** Python's `int(m, 2)` on a non-empty string of `'0'` and `'1'`. */
  function BinaryValue(m: string): nat
    requires IsBitString(m)
    decreases |m|
  {
    if m == [] then 0 else 2 * BinaryValue(m[..|m| - 1]) + (if m[|m| - 1] == '1' then 1 else 0)
  }

  lemma {:induction false} BinaryValueBound(m: string)
    requires IsBitString(m)
    ensures BinaryValue(m) < Pow2(|m|)
    decreases |m|
  {
    if m != [] {
      BinaryValueBound(m[..|m| - 1]);
    }
  }

  const HexAlphabet: string := "0123456789ABCDEF"

  predicate IsUpperHexDigit(c: char) {
    ('0' <= c <= '9') || ('A' <= c <= 'F')
  }

  function HexDigitValue(c: char): (v: nat)
    requires IsUpperHexDigit(c)
    ensures v < 16 && HexAlphabet[v] == c
  {
    if '0' <= c <= '9' then (c as int) - ('0' as int) else (c as int) - ('A' as int) + 10
  }

  predicate AllUpperHex(s: string) {
    forall i :: 0 <= i < |s| ==> IsUpperHexDigit(s[i])
  }

  /** The value of an upper-case hexadecimal numeral, most significant digit first. */
  function HexValue(s: string): nat
    requires AllUpperHex(s)
    decreases |s|
  {
    if s == [] then 0 else 16 * HexValue(s[..|s| - 1]) + HexDigitValue(s[|s| - 1])
  }

  /** The `w` low-order hexadecimal digits of `v`, most significant first. */
  function HexDigitsFixed(v: nat, w: nat): (s: string)
    ensures |s| == w && AllUpperHex(s)
    decreases w
  {
    if w == 0 then [] else HexDigitsFixed(v / 16, w - 1) + [HexAlphabet[v % 16]]
  }

  /** The number of digits `%X` writes for `v` (at least one, for zero). */
  function HexWidth(v: nat): (w: nat)
    ensures w >= 1
    decreases v
  {
    if v < 16 then 1 else 1 + HexWidth(v / 16)
  }

  lemma {:induction false} HexFixedValue(v: nat, w: nat)
    requires v < Pow16(w)
    ensures HexValue(HexDigitsFixed(v, w)) == v
    decreases w
  {
    if w > 0 {
      DivBound(v, w);
      HexFixedValue(v / 16, w - 1);
      var s := HexDigitsFixed(v, w);
      assert s[..|s| - 1] == HexDigitsFixed(v / 16, w - 1);
      HexAlphabetValue(v % 16);
    }
  }

  /** Dropping the last hex digit of a `w`-digit value leaves a `w - 1`-digit value. */
  lemma DivBound(v: nat, w: nat)
    requires w > 0 && v < Pow16(w)
    ensures v / 16 < Pow16(w - 1)
  {
  }

  lemma HexAlphabetValue(d: nat)
    requires d < 16
    ensures HexDigitValue(HexAlphabet[d]) == d
  {
  }

  lemma {:induction false} HexWidthFits(v: nat)
    ensures v < Pow16(HexWidth(v))
    decreases v
  {
    if v >= 16 {
      HexWidthFits(v / 16);
    }
  }

  lemma {:induction false} HexWidthMinimal(v: nat, w: nat)
    requires w >= 1 && v < Pow16(w)
    ensures HexWidth(v) <= w
    decreases w
  {
    if v >= 16 {
      assert w >= 2;
      HexWidthMinimal(v / 16, w - 1);
    }
  }

  /** Python's `'%0*X' % (width, v)`: upper-case hex, zero-padded to at least `width` digits. */
  function HexPadded(v: nat, width: nat): (s: string)
    ensures AllUpperHex(s)
    ensures |s| == if width > HexWidth(v) then width else HexWidth(v)
    ensures HexValue(s) == v
  {
    var w := if width > HexWidth(v) then width else HexWidth(v);
    HexWidthFits(v);
    Pow16IsPow2(HexWidth(v));
    Pow16IsPow2(w);
    Pow2Monotone(4 * HexWidth(v), 4 * w);
    HexFixedValue(v, w);
    HexDigitsFixed(v, w)
  }

  /** A bit string of length n fits in ceil(n/4) hexadecimal digits. */
  lemma BinaryFitsHexWidth(m: string)
    requires IsBitString(m) && |m| >= 1
    ensures HexWidth(BinaryValue(m)) <= (|m| + 3) / 4
  {
    var w := (|m| + 3) / 4;
    BinaryValueBound(m);
    Pow2Monotone(|m|, 4 * w);
    Pow16IsPow2(w);
    HexWidthMinimal(BinaryValue(m), w);
  }
}
