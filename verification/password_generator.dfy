/** The two generators of backend/utils/passwordGenerator.js: a 12-character
    temporary password drawn from a fixed charset, and the next student number
    of a year, `YYYY` followed by a five-digit zero-padded sequence.

    The random source is the sequence of indices `crypto.randomInt` returned;
    the store query is the list of student numbers already stored; the year is
    an argument instead of a clock reading. */
module PasswordGenerator {
  import opened Wrappers
  import opened Text
  import opened Decimal

  const TemporaryPasswordLength: nat := 12

  const Charset: string := "abcdefghijklmnopqrstuvwxyzABCDEFGHIJKLMNOPQRSTUVWXYZ0123456789!@#$%^&*"

  /** `generateTemporaryPassword`: character i is `Charset[draws[i]]`, where
      `draws[i]` is the i-th value of `crypto.randomInt(0, Charset.length)`. */
  method GenerateTemporaryPassword(draws: seq<nat>) returns (password: string)
    requires |draws| == TemporaryPasswordLength
    requires forall i :: 0 <= i < |draws| ==> draws[i] < |Charset|
    ensures |password| == TemporaryPasswordLength
    ensures forall i :: 0 <= i < |password| ==> password[i] == Charset[draws[i]]
    ensures forall i :: 0 <= i < |password| ==> password[i] in Charset
  {
    password := "";
    var i := 0;
    while i < TemporaryPasswordLength
      invariant 0 <= i <= TemporaryPasswordLength
      invariant |password| == i
      invariant forall k :: 0 <= k < i ==> password[k] == Charset[draws[k]]
    {
      password := password + [Charset[draws[i]]];
      i := i + 1;
    }
  }

  /** The position of a charset character. */
  function CharsetIndex(c: char): (i: nat)
    requires c in Charset
    ensures i < |Charset| && Charset[i] == c
  {
    IndexOf(Charset, c)
  }

  function IndexOf(s: string, c: char): (i: nat)
    requires c in s
    ensures i < |s| && s[i] == c
  {
    if s[0] == c then 0 else 1 + IndexOf(s[1..], c)
  }

  /** Every 12-character string over the charset is the output of some
      sequence of draws, so the generator can produce any such password. */
  lemma EveryPasswordReachable(p: string)
    requires |p| == TemporaryPasswordLength
    requires forall i :: 0 <= i < |p| ==> p[i] in Charset
    ensures exists draws: seq<nat> ::
      && |draws| == TemporaryPasswordLength
      && (forall i :: 0 <= i < |draws| ==> draws[i] < |Charset|)
      && (forall i :: 0 <= i < |p| ==> p[i] == Charset[draws[i]])
  {
    var draws := seq(|p|, i requires 0 <= i < |p| => CharsetIndex(p[i]));
    assert |draws| == TemporaryPasswordLength;
    assert forall i :: 0 <= i < |draws| ==> draws[i] < |Charset| && p[i] == Charset[draws[i]];
  }

  /** Width of the zero-padded sequence part of a student number. */
  const SequenceWidth: nat := 5

  /** `currentYear.toString()`. */
  function YearPrefix(year: nat): (prefix: string)
    ensures |prefix| >= 1 && AllDigits(prefix)
    ensures DigitsValue(prefix) == year
    ensures |prefix| > 1 ==> prefix[0] != '0'
  {
    NatToDecimal(year)
  }

  /** Years 1000..9999 are written with exactly four digits. */
  lemma FourDigitYear(year: nat)
    requires 1000 <= year <= 9999
    ensures |YearPrefix(year)| == 4
  {
    DecimalLength(year, 4);
    DecimalLength(year, 3);
  }

  /** `m` is what `findOne({studentNumber: /^prefix/}).sort({studentNumber: -1})`
      returns: a stored number starting with `prefix` that no other such
      number follows in string order. */
  ghost predicate IsLastWithPrefix(m: string, prefix: string, existing: seq<string>) {
    && m in existing
    && StartsWith(m, prefix)
    && forall x :: x in existing && StartsWith(x, prefix) ==> LexLe(x, m)
  }

  /** The store query of `generateStudentNumber`, over the stored numbers. */
  function LastWithPrefix(prefix: string, existing: seq<string>): (r: Option<string>)
    ensures r.None? <==> forall x :: x in existing ==> !StartsWith(x, prefix)
    ensures r.Some? ==> IsLastWithPrefix(r.value, prefix, existing)
  {
    if existing == [] then None
    else
      var x := existing[0];
      var rest := LastWithPrefix(prefix, existing[1..]);
      assert forall y :: y in existing ==> y == x || y in existing[1..];
      if !StartsWith(x, prefix) then rest
      else if rest.None? then
        LexLeReflexive(x);
        Some(x)
      else
        LexLeTotal(x, rest.value);
        if LexLe(x, rest.value) then rest
        else
          assert forall y :: y in existing[1..] && StartsWith(y, prefix) ==> LexLe(y, x) by {
            forall y | y in existing[1..] && StartsWith(y, prefix)
              ensures LexLe(y, x)
            {
              LexLeTransitive(y, rest.value, x);
            }
          }
          LexLeReflexive(x);
          Some(x)
  }

  /** The number after `sequence` in year `prefix`, padded to the width. */
  function FormatStudentNumber(prefix: string, sequence: JsNumber): string {
    prefix + PadStart(NumberToString(sequence), SequenceWidth, '0')
  }

  /** `generateStudentNumber`: the parsed last five characters of the last
      same-year number plus one, or 1 for the first number of the year. */
  function GenerateStudentNumber(year: nat, existing: seq<string>): (r: string)
    ensures StartsWith(r, YearPrefix(year))
    ensures (forall x :: x in existing ==> !StartsWith(x, YearPrefix(year)))
              ==> r == YearPrefix(year) + "00001"
    ensures forall m :: IsLastWithPrefix(m, YearPrefix(year), existing) ==>
              r == FormatStudentNumber(YearPrefix(year), Plus(ParseInt(SliceLast(m, SequenceWidth)), 1))
  {
    var prefix := YearPrefix(year);
    var sequence := match LastWithPrefix(prefix, existing)
      case None => Finite(1)
      case Some(last) => Plus(ParseInt(SliceLast(last, SequenceWidth)), 1);
    var r := FormatStudentNumber(prefix, sequence);
    assert r[..|prefix|] == prefix;
    assert forall m :: IsLastWithPrefix(m, prefix, existing) ==> Some(m) == LastWithPrefix(prefix, existing) by {
      forall m | IsLastWithPrefix(m, prefix, existing)
        ensures Some(m) == LastWithPrefix(prefix, existing)
      {
        var last := LastWithPrefix(prefix, existing).value;
        LexLeAntisymmetric(m, last);
      }
    }
    r
  }

  /** A number in the generator's own format for year `prefix`: the prefix
      and exactly five digits. */
  predicate WellFormed(n: string, prefix: string) {
    |n| == |prefix| + SequenceWidth && StartsWith(n, prefix) && AllDigits(n[|prefix|..])
  }

  /** The sequence part of a well-formed number. */
  function SequenceOf(n: string, prefix: string): nat
    requires WellFormed(n, prefix)
  {
    DigitsValue(n[|prefix|..])
  }

  /** For sequences 0..99999 the number is the prefix and five digits, and
      the five digits read back as the sequence. */
  lemma FormatWidth(prefix: string, s: nat)
    requires s < 100000
    ensures WellFormed(FormatStudentNumber(prefix, Finite(s)), prefix)
    ensures SequenceOf(FormatStudentNumber(prefix, Finite(s)), prefix) == s
  {
    var d := NatToDecimal(s);
    DecimalLength(s, 5);
    var padded := PadStart(d, SequenceWidth, '0');
    var n := FormatStudentNumber(prefix, Finite(s));
    assert padded == padded[..|padded| - |d|] + d;
    LeadingZeros(padded[..|padded| - |d|], d);
    assert n[|prefix|..] == padded;
  }

  /** Round trip: `parseInt` of the last five characters of a formatted
      number gives the sequence back. */
  lemma FormatRoundTrip(prefix: string, s: nat)
    requires s < 100000
    ensures ParseInt(SliceLast(FormatStudentNumber(prefix, Finite(s)), SequenceWidth)) == Finite(s)
  {
    FormatWidth(prefix, s);
    var n := FormatStudentNumber(prefix, Finite(s));
    assert SliceLast(n, SequenceWidth) == n[|prefix|..];
    ParseIntOfDigits(n[|prefix|..]);
  }

  /** `padStart` never cuts: from 100000 on, the sequence keeps all its
      digits and the number is longer than the prefix plus five. */
  lemma PaddingNeverTruncates(prefix: string, s: nat)
    requires s >= 100000
    ensures FormatStudentNumber(prefix, Finite(s)) == prefix + NatToDecimal(s)
    ensures |FormatStudentNumber(prefix, Finite(s))| > |prefix| + SequenceWidth
  {
    DecimalLength(s, 5);
  }

  /** Among well-formed numbers of one year, string order is sequence
      order, which is why sorting the numbers as strings finds the highest
      sequence. */
  lemma LexOrderIsSequenceOrder(prefix: string, a: string, b: string)
    requires WellFormed(a, prefix) && WellFormed(b, prefix)
    ensures LexLe(a, b) <==> SequenceOf(a, prefix) <= SequenceOf(b, prefix)
  {
    var k := |prefix|;
    assert a == prefix + a[k..];
    assert b == prefix + b[k..];
    LexLeCommonPrefix(prefix, a[k..], b[k..]);
    LexOrderIsNumericOrder(a[k..], b[k..]);
  }

  /** The same-year numbers are all well-formed and below the last
      sequence five digits can hold. */
  predicate RoomInYear(prefix: string, existing: seq<string>, bound: nat) {
    forall x :: x in existing && StartsWith(x, prefix) ==>
      WellFormed(x, prefix) && SequenceOf(x, prefix) < bound
  }

  /** After a well-formed last number with sequence s < 99999 comes the
      well-formed number with sequence s + 1. */
  lemma GenerateAfterLast(year: nat, existing: seq<string>, m: string)
    requires IsLastWithPrefix(m, YearPrefix(year), existing)
    requires WellFormed(m, YearPrefix(year)) && SequenceOf(m, YearPrefix(year)) < 99999
    ensures WellFormed(GenerateStudentNumber(year, existing), YearPrefix(year))
    ensures SequenceOf(GenerateStudentNumber(year, existing), YearPrefix(year)) == SequenceOf(m, YearPrefix(year)) + 1
  {
    NumberAfter(YearPrefix(year), m);
  }

  /** The number formatted from a well-formed `m` read back and incremented
      is well-formed with the next sequence. */
  lemma NumberAfter(prefix: string, m: string)
    requires WellFormed(m, prefix) && SequenceOf(m, prefix) < 99999
    ensures var g := FormatStudentNumber(prefix, Plus(ParseInt(SliceLast(m, SequenceWidth)), 1));
            WellFormed(g, prefix) && SequenceOf(g, prefix) == SequenceOf(m, prefix) + 1
  {
    var s := SequenceOf(m, prefix);
    assert Plus(ParseInt(SliceLast(m, SequenceWidth)), 1) == Finite(s + 1) by {
      var tail := m[|prefix|..];
      assert SliceLast(m, SequenceWidth) == tail;
      ParseIntOfDigits(tail);
    }
    FormatWidth(prefix, s + 1);
  }

  /** When the same-year numbers are well-formed and below 99999, the new
      number is well-formed, has a higher sequence than each of them, and so
      is not already stored. */
  lemma GeneratedNumberIsFresh(year: nat, existing: seq<string>)
    requires RoomInYear(YearPrefix(year), existing, 99999)
    ensures WellFormed(GenerateStudentNumber(year, existing), YearPrefix(year))
    ensures forall x :: x in existing && StartsWith(x, YearPrefix(year)) ==>
      SequenceOf(x, YearPrefix(year)) < SequenceOf(GenerateStudentNumber(year, existing), YearPrefix(year))
    ensures GenerateStudentNumber(year, existing) !in existing
    ensures var s := SequenceOf(GenerateStudentNumber(year, existing), YearPrefix(year));
            s == 1 || exists x :: x in existing && StartsWith(x, YearPrefix(year)) && s == SequenceOf(x, YearPrefix(year)) + 1
  {
    var prefix := YearPrefix(year);
    var r := GenerateStudentNumber(year, existing);
    match LastWithPrefix(prefix, existing)
    case None =>
      FormatWidth(prefix, 1);
      assert r == FormatStudentNumber(prefix, Finite(1));
    case Some(m) =>
      GenerateAfterLast(year, existing, m);
      forall x | x in existing && StartsWith(x, prefix)
        ensures SequenceOf(x, prefix) < SequenceOf(r, prefix)
      {
        LexOrderIsSequenceOrder(prefix, x, m);
      }
  }

  /** Sequential allocation is strictly increasing: once a generated number
      is stored, the next one continues from it. */
  lemma SequentialAllocationIncreases(year: nat, existing: seq<string>)
    requires RoomInYear(YearPrefix(year), existing, 99998)
    ensures var first := GenerateStudentNumber(year, existing);
            var second := GenerateStudentNumber(year, existing + [first]);
            WellFormed(first, YearPrefix(year)) && WellFormed(second, YearPrefix(year))
            && SequenceOf(second, YearPrefix(year)) == SequenceOf(first, YearPrefix(year)) + 1
  {
    var first := GenerateStudentNumber(year, existing);
    FirstIsLast(year, existing);
    GenerateAfterLast(year, existing + [first], first);
  }

  /** Once stored, a generated number is the last of its year, with room
      for one more. */
  lemma FirstIsLast(year: nat, existing: seq<string>)
    requires RoomInYear(YearPrefix(year), existing, 99998)
    ensures var first := GenerateStudentNumber(year, existing);
            && WellFormed(first, YearPrefix(year)) && SequenceOf(first, YearPrefix(year)) < 99999
            && IsLastWithPrefix(first, YearPrefix(year), existing + [first])
  {
    var prefix := YearPrefix(year);
    var first := GenerateStudentNumber(year, existing);
    GeneratedNumberIsFresh(year, existing);
    var grown := existing + [first];
    LexLeReflexive(first);
    forall x | x in grown && StartsWith(x, prefix)
      ensures LexLe(x, first)
    {
      if x != first {
        LexOrderIsSequenceOrder(prefix, x, first);
      }
    }
  }

  /** For a four-digit year the number has nine characters, all digits,
      not the eleven of the doc comment's example. */
  lemma NineDigitNumbers(year: nat, existing: seq<string>)
    requires 1000 <= year <= 9999
    requires RoomInYear(YearPrefix(year), existing, 99999)
    ensures |GenerateStudentNumber(year, existing)| == 9
    ensures AllDigits(GenerateStudentNumber(year, existing))
  {
    var prefix := YearPrefix(year);
    var r := GenerateStudentNumber(year, existing);
    assert WellFormed(r, prefix) by {
      GeneratedNumberIsFresh(year, existing);
    }
    assert |prefix| == 4 by {
      FourDigitYear(year);
    }
    WellFormedIsDigits(r, prefix);
  }

  /** A well-formed number behind a digit prefix is all digits. */
  lemma WellFormedIsDigits(n: string, prefix: string)
    requires AllDigits(prefix) && WellFormed(n, prefix)
    ensures AllDigits(n)
  {
    assert n == prefix + n[|prefix|..];
  }

  /** Years are independent: numbers of other years do not change the
      number generated for this one. */
  lemma OtherYearsIgnored(year: nat, existing: seq<string>, others: seq<string>)
    requires forall x :: x in others ==> !StartsWith(x, YearPrefix(year))
    ensures GenerateStudentNumber(year, existing + others) == GenerateStudentNumber(year, existing)
  {
    var prefix := YearPrefix(year);
    var all := existing + others;
    match LastWithPrefix(prefix, existing)
    case None =>
    case Some(m) =>
      assert IsLastWithPrefix(m, prefix, all);
  }
}
