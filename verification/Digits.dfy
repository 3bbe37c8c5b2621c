/** Numerals: the digits that the formatter produces, and what they stand for. */
module Digits {
  import opened Words

  /** Bases of the formatter. */
  type Base = b: nat | 2 <= b <= 16 witness 10

  const HEX_DIGITS: string := "0123456789ABCDEF"

  function DigitChar(d: nat): char
    requires d < 16
  {
    HEX_DIGITS[d]
  }

  function DigitValue(c: char): nat {
    if '0' <= c <= '9' then (c - '0') as nat
    else if 'A' <= c <= 'F' then (c - 'A') as nat + 10
    else 0
  }

  lemma DigitBack(d: nat)
    requires d < 16
    ensures DigitValue(DigitChar(d)) == d
  {
    assert d == 0 || d == 1 || d == 2 || d == 3 || d == 4 || d == 5 || d == 6 || d == 7
        || d == 8 || d == 9 || d == 10 || d == 11 || d == 12 || d == 13 || d == 14 || d == 15;
  }

  /** The digits of a number, the lowest first; none for zero. */
  function Low(val: nat, base: Base): string {
    if val == 0 then "" else [DigitChar(val % base)] + Low(Quotient(val, base), base)
  }

  function Quotient(val: nat, base: Base): (q: nat)
    ensures val > 0 ==> q < val
  {
    QuotientSmaller(val, base);
    val / base
  }

  lemma QuotientSmaller(val: nat, base: Base)
    ensures val > 0 ==> val / base < val
  {
  }

  function Backwards(s: string): (r: string)
    ensures |r| == |s| && forall k :: 0 <= k < |s| ==> r[k] == s[|s| - 1 - k]
  {
    if s == "" then "" else Backwards(s[1..]) + [s[0]]
  }

  /** A number as it is printed. */
  function Numeral(val: nat, base: Base): string {
    if val == 0 then "0" else Backwards(Low(val, base))
  }

  /** What a numeral stands for. */
  function Value(s: string, base: Base): nat {
    if s == "" then 0 else Value(s[..|s| - 1], base) * base + DigitValue(s[|s| - 1])
  }

  /** A printed number decodes to itself. */
  lemma {:induction false} NumeralDecodes(val: nat, base: Base)
    ensures Value(Numeral(val, base), base) == val
  {
    if val == 0 {
      assert Value("0", base) == Value("", base) * base + 0 by { assert "0"[..0] == ""; }
    } else {
      LowDecodes(val, base);
    }
  }

  lemma {:induction false} LowDecodes(val: nat, base: Base)
    ensures Value(Backwards(Low(val, base)), base) == val
  {
    hide DigitChar, DigitValue, Quotient, Value;
    if val > 0 {
      var q := Quotient(val, base);
      LowDecodes(q, base);
      DigitBack(val % base);
      OneMoreDigit(Backwards(Low(q, base)), DigitChar(val % base), base);
      QuotientRest(val, base);
    } else {
      NoDigits(base);
    }
  }

  /** The digits are 0 to 9 and A to F. */
  lemma DigitCode(d: nat)
    requires d < 16
    ensures DigitChar(d) as int == if d < 10 then 48 + d else 55 + d
  {
    assert d == 0 || d == 1 || d == 2 || d == 3 || d == 4 || d == 5 || d == 6 || d == 7
        || d == 8 || d == 9 || d == 10 || d == 11 || d == 12 || d == 13 || d == 14 || d == 15;
  }

  predicate InBase(c: char, base: Base) {
    var v := c as int;
    (48 <= v <= 57 && v - 48 < base) || (65 <= v <= 70 && v - 55 < base)
  }

  /** The characters of a numeral are digits of the base, and the first one is no zero, but for zero
      itself: with what it decodes to, this leaves one numeral for each number. */
  predicate Canonical(s: string, base: Base) {
    s != "" && (|s| > 1 ==> s[0] != '0') && forall k :: 0 <= k < |s| ==> InBase(s[k], base)
  }

  lemma NumeralCanonical(val: nat, base: Base)
    ensures Canonical(Numeral(val, base), base)
  {
    hide Low;
    if val > 0 { LowDigits(val, base); }
  }

  lemma LowSplit(val: nat, base: Base)
    ensures Low(val, base) == if val == 0 then "" else [DigitChar(val % base)] + Low(Quotient(val, base), base)
  {
  }

  lemma {:induction false} LowDigits(val: nat, base: Base)
    ensures val > 0 ==> Low(val, base) != "" && Low(val, base)[|Low(val, base)| - 1] != '0'
    ensures forall k :: 0 <= k < |Low(val, base)| ==> InBase(Low(val, base)[k], base)
  {
    hide DigitChar, Quotient, Low;
    LowSplit(val, base);
    if val > 0 {
      var q, d := Quotient(val, base), val % base;
      LowDigits(q, base);
      LowSplit(q, base);
      DigitCode(d);
      QuotientRest(val, base);
    }
  }

  lemma NoDigits(base: Base)
    ensures Value("", base) == 0
  {
  }

  lemma OneMoreDigit(s: string, d: char, base: Base)
    ensures Value(s + [d], base) == Value(s, base) * base + DigitValue(d)
  {
    hide DigitValue;
    assert (s + [d])[..|s|] == s;
  }

  lemma QuotientRest(val: nat, base: Base)
    ensures Quotient(val, base) * base + val % base == val
  {
  }

  function Power(base: Base, k: nat): nat {
    if k == 0 then 1 else base * Power(base, k - 1)
  }

  /** Numbers below a power of the base have at most so many digits. */
  lemma {:induction false} LowLength(val: nat, base: Base, k: nat)
    requires val < Power(base, k)
    ensures |Low(val, base)| <= k
  {
    if val > 0 {
      assert k > 0;
      BelowPower(val, base, Power(base, k - 1));
      LowLength(Quotient(val, base), base, k - 1);
    }
  }

  lemma BelowPower(val: nat, base: Base, p: nat)
    requires val < base * p
    ensures val / base < p
  {
  }

  /** A 32-bit number has at most 32 binary, 8 hexadecimal and 10 decimal digits. */
  lemma WordLength(val: u32)
    ensures |Low(val, 2)| <= 32 && |Low(val, 16)| <= 8 && |Low(val, 10)| <= 10
  {
    Doubling();
    LowLength(val, 2, 32);
    LowLength(val, 16, 8);
    LowLength(val, 10, 10);
  }

  lemma Doubling()
    ensures Power(2, 32) == TWO_TO_THE_32 && Power(16, 8) == TWO_TO_THE_32 && Power(10, 10) == 10_000_000_000
  {
    assert Power(2, 4) == 16;
    assert Power(2, 8) == 256;
    assert Power(2, 12) == 4096;
    assert Power(2, 16) == 65536;
    assert Power(2, 20) == 1048576;
    assert Power(2, 24) == 16777216;
    assert Power(2, 28) == 268435456;
    assert Power(16, 4) == 65536;
    assert Power(10, 4) == 10000;
    assert Power(10, 8) == 100000000;
  }
}
