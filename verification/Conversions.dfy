/** What `convertFromString` returns, on every text, in terms of the characters of the text. */
module Conversions {
  import opened Common
  import opened Numerals

  /** The digits of both directions: what is written and what is read for each number below sixteen. */
  lemma DigitsAreHexadecimal(d: nat)
    requires d < 16
    ensures DigitChar(d) == "0123456789abcdef"[d]
    ensures DigitValue("0123456789abcdef"[d]) == d && DigitValue("0123456789ABCDEF"[d]) == d
  {
  }

  /** A character has a value exactly if it is one of these digits. */
  lemma OnlyTheseAreDigits(c: char)
    ensures DigitValue(c) < 10 <==> c in "0123456789"
    ensures DigitValue(c) < 16 <==> c in "0123456789abcdefABCDEF"
    ensures DigitValue(c) <= 16 && (DigitValue(c) < 2 <==> c in "01")
  {
    assert "0123456789" == ['0', '1', '2', '3', '4', '5', '6', '7', '8', '9'];
    assert "0123456789abcdefABCDEF" == "0123456789" + ['a', 'b', 'c', 'd', 'e', 'f', 'A', 'B', 'C', 'D', 'E', 'F'];
  }

  /** The white-space characters. */
  lemma TheseAreSpaces(c: char)
    ensures IsSpace(c) <==> c in {' ', '\t', '\n', '\U{0B}', '\U{0C}', '\r'}
  {
  }

  lemma SpacesOnly(s: string)
    requires forall i :: 0 <= i < |s| ==> s[i] in {' ', '\t', '\n', '\U{0B}', '\U{0C}', '\r'}
    ensures (forall i :: 0 <= i < |s| ==> IsSpace(s[i])) && '\0' !in s
  {
    forall i | 0 <= i < |s|
      ensures IsSpace(s[i])
    {
      TheseAreSpaces(s[i]);
    }
  }

  /** The digits are of these characters, and the tail does not begin with another one of them. */
  predicate Run(digits: string, all: string, tail: string) {
    (forall i :: 0 <= i < |digits| ==> digits[i] in all) && (tail == "" || tail[0] !in all)
  }

  lemma DigitsOnly(digits: string, tail: string, base: nat)
    requires base == 2 || base == 10 || base == 16
    requires var all := if base == 2 then "01" else if base == 10 then "0123456789" else "0123456789abcdefABCDEF";
      Run(digits, all, tail)
    ensures AllDigits(digits, base) && '\0' !in digits
    ensures LeadingDigits(digits + tail, base) == digits && LeadingDigits(digits + CString(tail), base) == digits
  {
    hide DigitValue, LeadingDigits;
    forall i | 0 <= i < |digits|
      ensures DigitValue(digits[i]) < base && digits[i] != '\0'
    {
      OnlyTheseAreDigits(digits[i]);
    }
    if tail != "" {
      OnlyTheseAreDigits(tail[0]);
    }
    DigitsThenOther(digits, tail, base);
    DigitsThenOther(digits, CString(tail), base);
  }

  /** What stands before the tail of a number: white space, a sign and digits. */
  predicate Head(before: string, sign: string, digits: string, tail: string) {
    (forall i :: 0 <= i < |before| ==> before[i] in {' ', '\t', '\n', '\U{0B}', '\U{0C}', '\r'}) &&
    sign in {"", "+", "-"} &&
    (sign == "" && digits == "" && tail != "" ==>
      tail[0] !in {' ', '\t', '\n', '\U{0B}', '\U{0C}', '\r', '+', '-'})
  }

  /** Every text has a head and a tail, so that the lemmas below leave none out. */
  lemma TextHasHead(s: string, all: string) returns (before: string, sign: string, digits: string, tail: string)
    requires forall c :: c in all ==> c !in {' ', '\t', '\n', '\U{0B}', '\U{0C}', '\r', '+', '-'}
    ensures s == before + sign + digits + tail && Head(before, sign, digits, tail)
    ensures Run(digits, all, tail)
  {
    var rest: string, unsigned: string;
    before, rest := SplitLeading(s, [' ', '\t', '\n', '\U{0B}', '\U{0C}', '\r']);
    sign := if rest != "" && rest[0] in {'+', '-'} then [rest[0]] else "";
    unsigned := rest[|sign|..];
    digits, tail := SplitLeading(unsigned, all);
    assert s == before + (sign + (digits + tail));
    assert digits == "" ==> tail == unsigned;
  }

  lemma {:induction false} SplitLeading(s: string, all: string) returns (run: string, rest: string)
    ensures s == run + rest && (rest == "" || rest[0] !in all)
    ensures forall i :: 0 <= i < |run| ==> run[i] in all
  {
    if s == "" || s[0] !in all {
      run, rest := "", s;
    } else {
      run, rest := SplitLeading(s[1..], all);
      run := [s[0]] + run;
    }
  }

  /** A sign and what follows it. */
  lemma SignedText(before: string, sign: string, body: string)
    requires forall i :: 0 <= i < |before| ==> before[i] in {' ', '\t', '\n', '\U{0B}', '\U{0C}', '\r'}
    requires sign in {"", "+", "-"}
    requires sign == "" && body != "" ==>
      body[0] !in {' ', '\t', '\n', '\U{0B}', '\U{0C}', '\r', '+', '-'}
    ensures var text := sign + body;
      SkipSpaces(before + text) == text && Unsigned(text) == body && (text != "" && text[0] == '-' <==> sign == "-")
  {
    hide SkipSpaces;
    var text := sign + body;
    SpacesOnly(before);
    if text != "" {
      TheseAreSpaces(text[0]);
      assert text[0] == if sign == "" then body[0] else sign[0];
    }
    SkipLeading(before, text);
  }

  lemma HeadParts(before: string, sign: string, digits: string, tail: string, all: string)
    requires Head(before, sign, digits, tail) && Run(digits, all, tail) && (all == "01" || all == "0123456789")
    ensures '\0' !in before + sign + digits
    ensures var body := digits + CString(tail);
      sign == "" && body != "" ==> body[0] !in {' ', '\t', '\n', '\U{0B}', '\U{0C}', '\r', '+', '-'}
  {
    SpacesOnly(before);
    if digits != "" {
      OnlyTheseAreDigits(digits[0]);
    }
    forall i | 0 <= i < |digits|
      ensures digits[i] != '\0'
    {
      OnlyTheseAreDigits(digits[i]);
    }
  }

  /** Reading such a text up to the digits. */
  lemma ReadHead(before: string, sign: string, digits: string, tail: string, base: nat)
    requires Head(before, sign, digits, tail) && (base == 2 || base == 10)
    requires Run(digits, if base == 2 then "01" else "0123456789", tail)
    ensures var text := sign + (digits + CString(tail));
      CString(before + sign + digits + tail) == before + text && SkipSpaces(before + text) == text &&
      Unsigned(text) == digits + CString(tail) && LeadingDigits(Unsigned(text), base) == digits &&
      (text != "" && text[0] == '-' <==> sign == "-")
  {
    hide LeadingDigits, SkipSpaces, DigitValue, Unsigned, CString, Run, AllDigits;
    HeadParts(before, sign, digits, tail, if base == 2 then "01" else "0123456789");
    DigitsOnly(digits, tail, base);
    CStringInParts(before + sign + digits, tail);
    assert before + sign + digits + CString(tail) == before + (sign + (digits + CString(tail)));
    SignedText(before, sign, digits + CString(tail));
  }

  /** Decimal: white space, a sign and digits are read, and what follows is ignored; a negative number wraps
      around. It fails without digits, and with a number that needs more than 16 bits. */
  lemma ConvertDecimalText(before: string, sign: string, digits: string, tail: string)
    requires Head(before, sign, digits, tail)
    requires Run(digits, "0123456789", tail)
    requires var text := before + sign + digits + tail; !("0b" <= text) && !("0x" <= text) && !("0X" <= text)
    ensures var m := NumeralValue(digits, 10);
      ConvertFromString(before + sign + digits + tail)
      == if digits == "" || m > 0xFFFF then InvalidArgument
         else if sign == "-" && m > 0 then Ok(0x1_0000 - m) else Ok(m)
  {
    hide LeadingDigits, SkipSpaces, CString, NumeralValue, ReadBinary, Head, Run;
    ReadHead(before, sign, digits, tail, 10);
    CStringStart(before + sign + digits + tail);
  }

  lemma CStringStart(s: string)
    ensures "0b" <= s <==> "0b" <= CString(s)
    ensures "0x" <= s <==> "0x" <= CString(s)
    ensures "0X" <= s <==> "0X" <= CString(s)
  {
    if |s| >= 2 && s[0] == '0' {
      assert CString(s) == ['0'] + CString(s[1..]);
    }
  }

  /** Hexadecimal: digits of either case right behind the prefix are read, and what follows is ignored. */
  lemma ConvertHexadecimalText(prefix: string, digits: string, tail: string)
    requires prefix in {"0x", "0X"}
    requires Run(digits, "0123456789abcdefABCDEF", tail)
    ensures var m := NumeralValue(digits, 16);
      ConvertFromString(prefix + digits + tail) == if digits == "" || m > 0xFFFF then InvalidArgument else Ok(m)
  {
    hide LeadingDigits, NumeralValue, ReadBinary, ReadDecimal, CString, Run, AllDigits;
    DigitsOnly(digits, tail, 16);
    CStringInParts(prefix + digits, tail);
    var s := CString(prefix + digits + tail);
    assert s == prefix + (digits + CString(tail));
    assert s[0] == prefix[0] && s[1] == prefix[1];
    assert s[2..] == digits + CString(tail);
  }

  /** Binary: white space, a sign and digits behind the prefix are read, and must use up the text up to a
      NUL; the number is limited to 64 bits with a sign and then cut down to 16. Nothing at all is zero. */
  lemma ConvertBinaryText(before: string, sign: string, digits: string, tail: string)
    requires Head(before, sign, digits, tail)
    requires Run(digits, "01", tail)
    ensures var m: int, ended := NumeralValue(digits, 2), tail == "" || tail[0] == '\0';
      ConvertFromString("0b" + (before + sign + digits + tail))
      == if !ended || (digits == "" && (before != "" || sign != "")) then InvalidArgument
         else if digits == "" then Ok(0)
         else if m > 0x7FFF_FFFF_FFFF_FFFF then Ok(if sign == "-" then 0 else 0xFFFF)
         else Ok((if sign == "-" then -m else m) % 0x1_0000)
  {
    hide LeadingDigits, SkipSpaces, NumeralValue, Head, CString, Run;
    ReadHead(before, sign, digits, tail, 2);
    var rest := before + sign + digits + tail;
    CStringInParts("0b", rest);
    assert ("0b" + CString(rest))[2..] == CString(rest);
    CStringEnds(tail);
  }

  lemma CStringEnds(s: string)
    ensures CString(s) == "" <==> s == "" || s[0] == '\0'
  {
  }
}
