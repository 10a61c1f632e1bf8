/** Numbers as the student-number code handles them: decimal digit strings,
    `Number.prototype.toString`, `padStart`, `slice(-k)`, and `parseInt`
    called without a radix (which also accepts a `0x` prefix). JavaScript
    numbers are modelled as integers or `NaN`; the values involved never leave
    the range a double represents exactly. */
module Decimal {
  import opened Text

  predicate IsDigit(c: char) {
    '0' <= c <= '9'
  }

  predicate AllDigits(s: string) {
    forall i :: 0 <= i < |s| ==> IsDigit(s[i])
  }

  predicate IsHexDigit(c: char) {
    IsDigit(c) || ('a' <= c <= 'f') || ('A' <= c <= 'F')
  }

  /** The value of a hexadecimal digit character. */
  function CharValue(c: char): (v: nat)
    requires IsHexDigit(c)
    ensures v < 16
    ensures v < 10 <==> IsDigit(c)
  {
    if IsDigit(c) then c as int - '0' as int
    else if 'a' <= c <= 'f' then c as int - 'a' as int + 10
    else c as int - 'A' as int + 10
  }

  /** A digit of base `radix` (10 or 16, the two bases `parseInt` picks). */
  predicate IsDigitIn(c: char, radix: nat) {
    IsHexDigit(c) && CharValue(c) < radix
  }

  predicate AllDigitsIn(s: string, radix: nat) {
    forall i :: 0 <= i < |s| ==> IsDigitIn(s[i], radix)
  }

  lemma DecimalDigitsAreRadix10(s: string)
    ensures AllDigits(s) <==> AllDigitsIn(s, 10)
  {
  }

  function Pow(radix: nat, k: nat): (p: nat)
    ensures radix > 0 ==> p > 0
  {
    if k == 0 then 1 else radix * Pow(radix, k - 1)
  }

  /** The value of a big-endian digit string in base `radix`. */
  function ValueIn(radix: nat, s: string): nat
    requires AllDigitsIn(s, radix)
  {
    if s == [] then 0 else ValueIn(radix, s[..|s| - 1]) * radix + CharValue(s[|s| - 1])
  }

  /** The value of a decimal digit string. */
  function DigitsValue(s: string): nat
    requires AllDigits(s)
  {
    ValueIn(10, s)
  }

  function DigitChar(d: nat): (c: char)
    requires d < 10
    ensures IsDigit(c) && CharValue(c) == d
  {
    ('0' as int + d) as char
  }

  /** `Number.prototype.toString()` of a non-negative integer: its shortest
      decimal representation, read back by `DigitsValue`. */
  function NatToDecimal(n: nat): (r: string)
    ensures |r| >= 1 && AllDigits(r)
    ensures DigitsValue(r) == n
    ensures |r| > 1 ==> r[0] != '0'
    decreases n
  {
    if n < 10 then
      var r := [DigitChar(n)];
      assert r[..0] == [];
      assert ValueIn(10, r) == ValueIn(10, r[..0]) * 10 + CharValue(r[0]);
      r
    else
      var head := NatToDecimal(n / 10);
      var r := head + [DigitChar(n % 10)];
      assert r[..|r| - 1] == head;
      r
  }

  /** Every digit string of length k is below 10^k. */
  lemma {:induction false} DigitsValueBound(s: string)
    requires AllDigits(s)
    ensures DigitsValue(s) < Pow(10, |s|)
    decreases |s|
  {
    if s != [] {
      DigitsValueBound(s[..|s| - 1]);
    }
  }

  /** The decimal form of n fits in k digits exactly when n < 10^k. */
  lemma {:induction false} DecimalLength(n: nat, k: nat)
    requires k >= 1
    ensures |NatToDecimal(n)| <= k <==> n < Pow(10, k)
    decreases n
  {
    if n >= 10 {
      if k == 1 {
        assert |NatToDecimal(n / 10)| >= 1;
      } else {
        DecimalLength(n / 10, k - 1);
      }
    }
  }

  /** Reading a digit string from the front. */
  lemma {:induction false} DigitsValueFront(s: string)
    requires |s| >= 1 && AllDigits(s)
    ensures DigitsValue(s) == CharValue(s[0]) * Pow(10, |s| - 1) + DigitsValue(s[1..])
    decreases |s|
  {
    if |s| > 1 {
      var init := s[..|s| - 1];
      DigitsValueFront(init);
      assert init[1..] == s[1..][..|s[1..]| - 1];
      assert init[0] == s[0];
    } else {
      assert s[..0] == [];
    }
  }

  /** Leading zeros do not change the value. */
  lemma {:induction false} LeadingZeros(z: string, s: string)
    requires forall i :: 0 <= i < |z| ==> z[i] == '0'
    requires AllDigits(s)
    ensures AllDigits(z + s) && DigitsValue(z + s) == DigitsValue(s)
    decreases |z|
  {
    if |z| > 0 {
      LeadingZeros(z[1..], s);
      DigitsValueFront(z + s);
      assert (z + s)[1..] == z[1..] + s;
    } else {
      assert z + s == s;
    }
  }

  /** For digit strings of one width, code-point order is numeric order.
      This is what makes sorting zero-padded numbers as strings correct. */
  lemma {:induction false} LexOrderIsNumericOrder(a: string, b: string)
    requires |a| == |b| && AllDigits(a) && AllDigits(b)
    ensures LexLe(a, b) <==> DigitsValue(a) <= DigitsValue(b)
    decreases |a|
  {
    if |a| > 0 {
      DigitsValueFront(a);
      DigitsValueFront(b);
      DigitsValueBound(a[1..]);
      DigitsValueBound(b[1..]);
      LexOrderIsNumericOrder(a[1..], b[1..]);
      var p := Pow(10, |a| - 1);
      var va, vb := CharValue(a[0]), CharValue(b[0]);
      if va < vb {
        PlaceValue(va, vb, p, DigitsValue(a[1..]), DigitsValue(b[1..]));
      } else if vb < va {
        PlaceValue(vb, va, p, DigitsValue(b[1..]), DigitsValue(a[1..]));
      }
    }
  }

  /** A smaller leading digit wins whatever follows it. */
  lemma PlaceValue(lo: nat, hi: nat, p: nat, x: nat, y: nat)
    requires lo < hi && x < p
    ensures lo * p + x < hi * p + y
  {
    assert lo * p + x < (lo + 1) * p;
    assert (lo + 1) * p <= hi * p;
  }

  /** `String.prototype.padStart(width, fill)` with a one-character fill:
      strings already `width` long are returned unchanged, never cut. */
  function PadStart(s: string, width: nat, fill: char): (r: string)
    ensures |r| == if |s| >= width then |s| else width
    ensures r[|r| - |s|..] == s
    ensures forall i :: 0 <= i < |r| - |s| ==> r[i] == fill
  {
    if |s| >= width then s else seq(width - |s|, _ => fill) + s
  }

  /** `String.prototype.slice(-k)`: the last k characters, or all of a
      shorter string. */
  function SliceLast(s: string, k: nat): (r: string)
    ensures |r| == if |s| < k then |s| else k
    ensures s == s[..|s| - |r|] + r
  {
    s[if |s| > k then |s| - k else 0..]
  }

  /** A JavaScript number restricted to the values the code can produce:
      integers and `NaN`. */
  datatype JsNumber = NaN | Finite(value: int)

  /** `x + k`; `NaN` absorbs. */
  function Plus(x: JsNumber, k: int): (r: JsNumber)
    ensures r.NaN? <==> x.NaN?
    ensures x.Finite? ==> r.value - x.value == k
  {
    match x
    case NaN => NaN
    case Finite(v) => Finite(v + k)
  }

  /** The longest prefix of `s` made of base-`radix` digits. */
  function DigitPrefix(s: string, radix: nat): (r: string)
    ensures |r| <= |s| && r == s[..|r|] && AllDigitsIn(r, radix)
    ensures |r| < |s| ==> !IsDigitIn(s[|r|], radix)
  {
    if |s| > 0 && IsDigitIn(s[0], radix) then
      var tail := DigitPrefix(s[1..], radix);
      [s[0]] + tail
    else []
  }

  /** `parseInt` after the sign: base 16 after `0x`/`0X`, otherwise base 10;
      the longest run of digits, or `NaN` when there is none. */
  function ParseMagnitude(u: string): (r: JsNumber)
    ensures r.Finite? ==> r.value >= 0
  {
    var hex := |u| >= 2 && u[0] == '0' && (u[1] == 'x' || u[1] == 'X');
    var radix := if hex then 16 else 10;
    var z := DigitPrefix(if hex then u[2..] else u, radix);
    if z == [] then NaN else Finite(ValueIn(radix, z))
  }

  /** `parseInt(s)` with no radix argument: skip leading white space, take an
      optional sign, then read the magnitude. */
  function ParseInt(s: string): (r: JsNumber)
    ensures TrimStart(s) == [] ==> r.NaN?
  {
    var t := TrimStart(s);
    if |t| > 0 && t[0] == '-' then
      match ParseMagnitude(t[1..])
      case NaN => NaN
      case Finite(m) => Finite(-m)
    else if |t| > 0 && t[0] == '+' then ParseMagnitude(t[1..])
    else ParseMagnitude(t)
  }

  /** On a plain string of decimal digits, the magnitude is its value. */
  lemma ParseMagnitudeOfDigits(s: string)
    requires |s| >= 1 && AllDigits(s)
    ensures ParseMagnitude(s) == Finite(DigitsValue(s))
  {
    DigitPrefixOfDigits(s, 10);
  }

  /** On a plain string of decimal digits, `parseInt` gives its value;
      leading zeros are read as decimal, not octal. */
  lemma ParseIntOfDigits(s: string)
    requires |s| >= 1 && AllDigits(s)
    ensures ParseInt(s) == Finite(DigitsValue(s))
  {
    assert !IsWhitespace(s[0]);
    assert TrimStart(s) == s;
    ParseMagnitudeOfDigits(s);
  }

  /** `Number.prototype.toString()` (exponent notation, which starts at
      10^21, is out of reach of every number this code formats). */
  function NumberToString(x: JsNumber): (r: string)
    ensures x.Finite? && x.value >= 0 ==> AllDigits(r) && DigitsValue(r) == x.value
  {
    match x
    case NaN => "NaN"
    case Finite(v) => if v < 0 then "-" + NatToDecimal(-v) else NatToDecimal(v)
  }

  /** `parseInt` reads back every integer that `toString` writes. */
  lemma NumberToStringRoundTrip(v: int)
    ensures ParseInt(NumberToString(Finite(v))) == Finite(v)
  {
    if v < 0 {
      var d := NatToDecimal(-v);
      var s := "-" + d;
      assert s[1..] == d;
      assert TrimStart(s) == s;
      ParseMagnitudeOfDigits(d);
    } else {
      ParseIntOfDigits(NatToDecimal(v));
    }
  }

  /** A string made only of digits is its own longest digit prefix. */
  lemma DigitPrefixOfDigits(s: string, radix: nat)
    requires AllDigitsIn(s, radix)
    ensures DigitPrefix(s, radix) == s
  {
  }
}
