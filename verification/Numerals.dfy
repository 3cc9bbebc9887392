/** Numerals in text: how the program writes a number and how it reads one back. */
module Numerals {
  import opened Common
  import Digits

  // ---- digits ----

  /** The value of a digit of either case; 16 for any other character. */
  function DigitValue(c: char): nat {
    if '0' <= c <= '9' then (c - '0') as nat
    else if 'a' <= c <= 'f' then 10 + (c - 'a') as nat
    else if 'A' <= c <= 'F' then 10 + (c - 'A') as nat
    else 16
  }

  /** The digit the program writes: letters in lower case. */
  function DigitChar(d: nat): char
    requires d < 16
  {
    if d < 10 then '0' + d as char else 'a' + (d - 10) as char
  }

  predicate AllDigits(s: string, base: nat) {
    forall i :: 0 <= i < |s| ==> DigitValue(s[i]) < base
  }

  function DigitValues(s: string): seq<nat> {
    seq(|s|, i requires 0 <= i < |s| => DigitValue(s[i]))
  }

  /** The number that `s` denotes, read as digits. */
  function NumeralValue(s: string, base: nat): nat {
    Digits.Value(DigitValues(s), base)
  }

  lemma {:induction false} NumeralValueStep(s: string, base: nat)
    ensures s == "" ==> NumeralValue(s, base) == 0
    ensures s != "" ==>
      NumeralValue(s, base) == NumeralValue(s[..|s| - 1], base) * base + DigitValue(s[|s| - 1])
  {
    if s != "" {
      assert DigitValues(s)[..|s| - 1] == DigitValues(s[..|s| - 1]);
    }
  }

  /** `s` is a numeral for `n`: one or more digits, of either case, with any zero padding. */
  ghost predicate IsNumeral(s: string, base: nat, n: nat) {
    s != "" && AllDigits(s, base) && NumeralValue(s, base) == n
  }

  lemma {:induction false} SingleDigit(s: string, base: nat)
    requires |s| == 1 && DigitValue(s[0]) < base
    ensures IsNumeral(s, base, DigitValue(s[0]))
  {
    NumeralValueStep(s, base);
    NumeralValueStep(s[..0], base);
  }

  // ---- writing ----

  /** `std::to_string`, or `<<` with `std::hex`. */
  function Numeral(n: nat, base: nat): (s: string)
    requires 2 <= base <= 16
    ensures s != ""
    decreases n
  {
    if n < base then [DigitChar(n)]
    else
      Shrinks(n, base);
      Numeral(n / base, base) + [DigitChar(n % base)]
  }

  lemma Shrinks(n: nat, base: nat)
    requires 2 <= base <= n
    ensures 0 < n / base < n && 0 <= n % base < base && n == n / base * base + n % base
  {
    var q := n / base;
    assert n == q * base + n % base;
    if q >= n {
      Digits.MultiplyBoth(n, q, base);
    }
  }

  /** A shortest numeral: no upper-case letters, and no leading zero unless it is the only digit. */
  predicate IsShortest(s: string) {
    s != "" && (s[0] == '0' ==> |s| == 1) && forall i :: 0 <= i < |s| ==> !('A' <= s[i] <= 'F')
  }

  /** What is written reads back as the number, and is in shortest form. */
  lemma {:induction false} NumeralIsNumeral(n: nat, base: nat)
    requires 2 <= base <= 16
    ensures IsNumeral(Numeral(n, base), base, n)
    ensures IsShortest(Numeral(n, base)) && (Numeral(n, base)[0] == '0' ==> n == 0)
    decreases n
  {
    var s := Numeral(n, base);
    NumeralValueStep(s, base);
    if n < base {
      NumeralValueStep(s[..0], base);
    } else {
      Shrinks(n, base);
      NumeralIsNumeral(n / base, base);
      assert s[..|s| - 1] == Numeral(n / base, base);
    }
  }

  /** The shortest numeral of a number is unique. */
  lemma {:induction false} ShortestIsUnique(s: string, n: nat, base: nat)
    requires 2 <= base <= 16 && IsNumeral(s, base, n) && IsShortest(s)
    ensures s == Numeral(n, base)
    decreases |s|
  {
    hide NumeralValue, Numeral, DigitValue, DigitChar;
    var k := |s| - 1;
    var d, front := DigitValue(s[k]), NumeralValue(s[..k], base);
    NumeralValueStep(s, base);
    DigitIsShortest(s[k]);
    if k == 0 {
      NumeralValueStep(s[..0], base);
      OneDigitNumeral(n, base);
      assert s == [s[0]];
    } else {
      ShortestIsUnique(s[..k], front, base);
      NumeralIsNumeral(front, base);
      OneDigitNumeral(0, base);
      NumeralStep(front, d, base);
      assert s == s[..k] + [s[k]];
    }
  }

  lemma DigitIsShortest(c: char)
    ensures DigitValue(c) < 16 && !('A' <= c <= 'F') ==> c == DigitChar(DigitValue(c))
  {
  }

  lemma OneDigitNumeral(n: nat, base: nat)
    requires n < base && 2 <= base <= 16
    ensures Numeral(n, base) == [DigitChar(n)] && (n == 0 ==> Numeral(n, base) == "0")
  {
  }

  lemma NumeralStep(front: nat, d: nat, base: nat)
    requires 2 <= base <= 16 && front > 0 && d < base
    ensures Numeral(front * base + d, base) == Numeral(front, base) + [DigitChar(d)]
  {
    Digits.LastDigit(front, d, base);
    Digits.MultiplyBoth(1, front, base);
  }

  lemma {:induction false} NumeralLength(n: nat, base: nat, k: nat)
    requires 2 <= base <= 16 && k >= 1 && n < Digits.Power(base, k)
    ensures |Numeral(n, base)| <= k
    decreases k
  {
    assert Digits.Power(base, 1) == base by { assert Digits.Power(base, 0) == 1; }
    if n >= base {
      Shrinks(n, base);
      if k > 1 {
        if n / base >= Digits.Power(base, k - 1) {
          Digits.MultiplyBoth(Digits.Power(base, k - 1), n / base, base);
          assert false;
        }
        NumeralLength(n / base, base, k - 1);
      }
    }
  }

  // ---- reading ----

  /** What a function that takes a `char const*` sees of a string. */
  function CString(s: string): string {
    if s == "" || s[0] == '\0' then "" else [s[0]] + CString(s[1..])
  }

  predicate IsSpace(c: char) {
    c == ' ' || '\t' <= c <= '\r'
  }

  function SkipSpaces(s: string): string {
    if s != "" && IsSpace(s[0]) then SkipSpaces(s[1..]) else s
  }

  /** The longest run of digits at the start of `s`. */
  function LeadingDigits(s: string, base: nat): string {
    if s == "" || DigitValue(s[0]) >= base then "" else [s[0]] + LeadingDigits(s[1..], base)
  }

  /** Stream extraction of digits into a 16-bit number: what follows the digits is ignored. */
  function ReadNumber(s: string, base: nat): (r: Result<nat>)
    ensures r.Ok? ==> r.value <= 0xFFFF
  {
    var run := LeadingDigits(s, base);
    if run == "" || NumeralValue(run, base) > 0xFFFF then InvalidArgument
    else Ok(NumeralValue(run, base))
  }

  /** What follows a sign, if there is one. */
  function Unsigned(s: string): string {
    if s != "" && (s[0] == '+' || s[0] == '-') then s[1..] else s
  }

  /** `n` with the sign that `s` begins with, modulo `size`. */
  function WithSign(s: string, n: int, size: nat): (r: nat)
    requires size > 0
    ensures r < size
  {
    (if s != "" && s[0] == '-' then -n else n) % size
  }

  /** Stream extraction of a decimal number, which may have a sign: a negative one wraps around. */
  function ReadDecimal(s: string): (r: Result<nat>)
    ensures r.Ok? ==> r.value <= 0xFFFF
  {
    var magnitude :- ReadNumber(Unsigned(s), 10);
    Ok(WithSign(s, magnitude, 0x1_0000))
  }

  /** `strtoll` in base 2, which must use up the text, cut down to 16 bits. */
  function ReadBinary(s: string): (r: Result<nat>)
    ensures r.Ok? ==> r.value <= 0xFFFF
  {
    var text := SkipSpaces(s);
    var run := LeadingDigits(Unsigned(text), 2);
    if run == "" then (if s == "" then Ok(0) else InvalidArgument)
    else if run != Unsigned(text) then InvalidArgument
    else if NumeralValue(run, 2) > 0x7FFF_FFFF_FFFF_FFFF then Ok(if text[0] == '-' then 0 else 0xFFFF)
    else Ok(WithSign(text, NumeralValue(run, 2), 0x1_0000))
  }

  /** The instance of `convertFromString` for 16-bit numbers. */
  function ConvertFromString(str: string): (r: Result<nat>)
    ensures r.Ok? ==> r.value <= 0xFFFF
  {
    var s := CString(str);
    if "0b" <= s then ReadBinary(s[2..])
    else if "0x" <= s || "0X" <= s then ReadNumber(s[2..], 16)
    else ReadDecimal(SkipSpaces(s))
  }

  // ---- reading what is a numeral ----

  lemma {:induction false} LeadingDigitsOfNumeral(s: string, base: nat)
    requires AllDigits(s, base)
    ensures LeadingDigits(s, base) == s
  {
    if s != "" {
      LeadingDigitsOfNumeral(s[1..], base);
    }
  }

  lemma {:induction false} CStringOfNumeral(s: string)
    requires AllDigits(s, 16)
    ensures CString(s) == s
  {
    if s != "" {
      CStringOfNumeral(s[1..]);
    }
  }

  /** `s` is a decimal numeral, with or without a sign, and with spaces before and after it. */
  ghost predicate SpacedNumeral(s: string, n: nat) {
    exists before, sign, numeral, after, magnitude: nat ::
      Spaced(s, before, sign, numeral, after) && IsNumeral(numeral, 10, magnitude) &&
      magnitude <= 0xFFFF && n == WithSign(sign, magnitude, 0x1_0000)
  }

  predicate Spaced(s: string, before: string, sign: string, numeral: string, after: string) {
    s == before + (sign + (numeral + after)) && sign in {"", "+", "-"} &&
    (forall i :: 0 <= i < |before| ==> IsSpace(before[i])) && (forall i :: 0 <= i < |after| ==> IsSpace(after[i]))
  }

  lemma {:induction false} SkipLeading(before: string, rest: string)
    requires forall i :: 0 <= i < |before| ==> IsSpace(before[i])
    requires rest == "" || !IsSpace(rest[0])
    ensures SkipSpaces(before + rest) == rest
  {
    if before == "" {
      assert before + rest == rest;
    } else {
      SkipLeading(before[1..], rest);
      assert (before + rest)[1..] == before[1..] + rest;
    }
  }

  lemma {:induction false} DigitsThenOther(numeral: string, after: string, base: nat)
    requires AllDigits(numeral, base) && (after == "" || DigitValue(after[0]) >= base)
    ensures LeadingDigits(numeral + after, base) == numeral
  {
    if numeral == "" {
      assert numeral + after == after;
    } else {
      DigitsThenOther(numeral[1..], after, base);
      assert (numeral + after)[1..] == numeral[1..] + after;
    }
  }

  lemma CStringOfNone()
    ensures CString("") == ""
  {
  }

  lemma SpaceIsNoDigit(s: string)
    ensures s != "" && IsSpace(s[0]) ==> DigitValue(s[0]) == 16
  {
  }

  lemma {:induction false} CStringInParts(a: string, b: string)
    requires '\0' !in a
    ensures CString(a + b) == a + CString(b)
  {
    if a == "" {
      assert a + b == b;
    } else {
      var rest := a[1..];
      CStringInParts(rest, b);
      assert (a + b)[1..] == rest + b;
      assert CString(a + b) == [a[0]] + CString(rest + b);
      hide CString;
      assert a == [a[0]] + rest;
    }
  }

  /** A decimal numeral of a 16-bit number converts to that number, whatever spaces are around it; with
      a minus sign it converts to the number modulo 2^16. */
  lemma ConvertSpaced(s: string, n: nat)
    requires SpacedNumeral(s, n)
    ensures ConvertFromString(s) == Ok(n)
  {
    hide ConvertFromString, IsNumeral, WithSign, Spaced;
    var before, sign, numeral, after, magnitude: nat :|
      Spaced(s, before, sign, numeral, after) && IsNumeral(numeral, 10, magnitude) &&
      magnitude <= 0xFFFF && n == WithSign(sign, magnitude, 0x1_0000);
    ConvertSpacedParts(s, before, sign, numeral, after, magnitude);
  }

  lemma ConvertSpacedParts(s: string, before: string, sign: string, numeral: string, after: string, magnitude: nat)
    requires Spaced(s, before, sign, numeral, after) && IsNumeral(numeral, 10, magnitude) && magnitude <= 0xFFFF
    ensures ConvertFromString(s) == Ok(WithSign(sign, magnitude, 0x1_0000))
  {
    hide NumeralValue, SkipSpaces, LeadingDigits, CString, DigitValue, ReadBinary;
    SpacedText(s, before, sign, numeral, after);
    var rest := sign + (numeral + after);
    SkipLeading(before, rest);
    assert Unsigned(rest) == numeral + after;
    assert WithSign(rest, magnitude, 0x1_0000) == WithSign(sign, magnitude, 0x1_0000);
    assert after == "" || DigitValue(after[0]) >= 10 by { SpaceIsNoDigit(after); }
    DigitsThenOther(numeral, after, 10);
    CStringInParts(s, "");
    assert s + "" == s && s + CString("") == s by { CStringOfNone(); }
    NoPrefix(s, before, sign, numeral, after);
  }

  /** A decimal numeral of a 16-bit number converts to that number. */
  lemma ConvertDecimal(s: string, n: nat)
    requires IsNumeral(s, 10, n) && n <= 0xFFFF
    ensures ConvertFromString(s) == Ok(n)
  {
    hide ConvertFromString, IsNumeral;
    assert s == "" + ("" + (s + ""));
    ConvertSpacedParts(s, "", "", s, "", n);
  }

  lemma SpacedText(s: string, before: string, sign: string, numeral: string, after: string)
    requires Spaced(s, before, sign, numeral, after) && numeral != "" && AllDigits(numeral, 10)
    ensures '\0' !in s && numeral[0] != '-' && numeral[0] != '+'
    ensures var rest := sign + (numeral + after); rest != "" && !IsSpace(rest[0]) && rest[|sign|] == numeral[0]
  {
    assert DigitValue(numeral[0]) < 10;
    assert (sign + (numeral + after))[0] == if sign == "" then numeral[0] else sign[0];
  }

  lemma NoPrefix(s: string, before: string, sign: string, numeral: string, after: string)
    requires Spaced(s, before, sign, numeral, after) && numeral != "" && AllDigits(numeral, 10)
    ensures !("0b" <= s) && !("0x" <= s) && !("0X" <= s)
  {
    assert s[0] == if before != "" then before[0] else if sign != "" then sign[0] else numeral[0];
    if |s| > 1 && before == "" && sign == "" {
      assert s[1] == if |numeral| > 1 then numeral[1] else after[0];
    }
  }

  /** A hexadecimal numeral of a 16-bit number converts to that number once `0x` is put before it. */
  lemma ConvertHexadecimal(s: string, n: nat)
    requires IsNumeral(s, 16, n) && n <= 0xFFFF
    ensures ConvertFromString("0x" + s) == Ok(n)
  {
    hide NumeralValue, DigitValue, LeadingDigits, CString;
    CStringOfNumeral(s);
    LeadingDigitsOfNumeral(s, 16);
    var text := "0x" + s;
    assert text == ['0'] + (['x'] + s);
    CStringCons('0', ['x'] + s);
    CStringCons('x', s);
    assert text[2..] == s && text[1] == 'x';
    assert CString(text) == text;
  }

  lemma CStringCons(c: char, s: string)
    requires c != '\0'
    ensures CString([c] + s) == [c] + CString(s)
  {
    assert ([c] + s)[1..] == s;
  }
}
