/** MAC addresses and their text. */
module MacAddresses {
  import opened Common
  import opened Numerals
  import Conversions
  import Digits
  import Tokens
  import Words

  type MacAddress = m: seq<nat> | |m| == 6 && forall i :: 0 <= i < 6 ==> m[i] < 0x100
    witness [0, 0, 0, 0, 0, 0]

  // ---- writing ----

  function HexDigit(d: nat, upperCase: bool): char
    requires d < 16
  {
    if d < 10 then '0' + d as char else (if upperCase then 'A' else 'a') + (d - 10) as char
  }

  /** An octet in hexadecimal, filled up with zero to two characters. */
  function HexPair(octet: nat, upperCase: bool): string
    requires octet < 0x100
  {
    [HexDigit(octet / 16, upperCase), HexDigit(octet % 16, upperCase)]
  }

  function Pairs(octets: seq<nat>, upperCase: bool): seq<string>
    requires Digits.InBase(octets, 0x100)
  {
    if octets == [] then []
    else Pairs(octets[..|octets| - 1], upperCase) + [HexPair(octets[|octets| - 1], upperCase)]
  }

  /** What is put between octets; NUL stands for no separator. */
  function Between(separator: char): string {
    if separator != '\0' then [separator] else ""
  }

  function MacText(macAddress: MacAddress, upperCase: bool, separator: char): string {
    Tokens.Join(Pairs(macAddress, upperCase), Between(separator))
  }

  method MacAddressToString(macAddress: MacAddress, upperCase: bool, separator: char) returns (ss: string)
    ensures ss == MacText(macAddress, upperCase, separator)
  {
    hide HexPair, Tokens.Join;
    JoinNothing(separator);
    var isFirst := true;
    ss := "";
    for i := 0 to 6
      invariant isFirst == (i == 0)
      invariant ss == Tokens.Join(Pairs(macAddress[..i], upperCase), Between(separator))
    {
      assert macAddress[..i + 1][..i] == macAddress[..i];
      Tokens.JoinAppend(Pairs(macAddress[..i], upperCase), HexPair(macAddress[i], upperCase), Between(separator));
      if isFirst {
        isFirst := false;
      } else {
        if separator != '\0' {
          ss := ss + [separator];
        }
      }
      ss := ss + HexPair(macAddress[i], upperCase);
    }
    assert macAddress[..6] == macAddress;
  }

  // ---- reading ----

  /** `std::remove` and `erase`. */
  function Without(s: string, c: char): string {
    if s == "" then ""
    else if s[0] == c then Without(s[1..], c)
    else [s[0]] + Without(s[1..], c)
  }

  /** Stream extraction of a hexadecimal 64-bit number, which may have a sign and a prefix: what follows
      the digits is ignored. */
  function ReadHexadecimal(s: string): Result<nat> {
    var text := SkipSpaces(s);
    var rest := Unsigned(text);
    var run := LeadingDigits(if "0x" <= rest || "0X" <= rest then rest[2..] else rest, 16);
    if run == "" || NumeralValue(run, 16) > 0xFFFF_FFFF_FFFF_FFFF then InvalidArgument
    else Ok(WithSign(text, NumeralValue(run, 16), 0x1_0000_0000_0000_0000))
  }

  /** The six low octets; what is above them is dropped. */
  function OctetsOf(n: nat): MacAddress {
    [OctetAt(n, 40), OctetAt(n, 32), OctetAt(n, 24), OctetAt(n, 16), OctetAt(n, 8), OctetAt(n, 0)]
  }

  function OctetAt(n: nat, shift: nat): (octet: nat)
    ensures octet < 0x100
  {
    Words.AndBound(Words.Shr(n, shift), 0xFF);
    Words.And(Words.Shr(n, shift), 0xFF)
  }

  function StringToMacAddress(macAddressAsString: string, separator: char): Result<MacAddress> {
    var str := if separator != '\0' then Without(macAddressAsString, separator) else macAddressAsString;
    var macAsInteger :- ReadHexadecimal(str);
    Ok(OctetsOf(macAsInteger))
  }

  // ---- reading undoes writing ----

  /** The characters that writing an octet may use. */
  predicate IsPrinted(c: char, upperCase: bool) {
    '0' <= c <= '9' || if upperCase then 'A' <= c <= 'F' else 'a' <= c <= 'f'
  }

  lemma OctetAtIsDigit(n: nat, shift: nat)
    ensures OctetAt(n, shift) == Words.Shr(n, shift) % 0x100
  {
    Words.Pow2Values();
    Words.AndLowMask(Words.Shr(n, shift), 8);
    Words.ShrIsQuotient(Words.Shr(n, shift), 8);
  }

  lemma {:induction false} DigitAt(n: nat, len: nat, i: nat)
    requires i < len
    ensures Digits.DigitsOf(n, 0x100, len)[i] == Words.Shr(n, 8 * (len - 1 - i)) % 0x100
  {
    hide Words.Shr, Words.Pow2, Words.LowBits;
    Words.ShrByNone(n);
    if i < len - 1 {
      DigitAt(n / 0x100, len - 1, i);
      Words.Pow2Values();
      Words.ShrIsQuotient(n, 8);
      Words.ShrSum(n, 8, 8 * (len - 2 - i));
    }
  }

  lemma OctetsOfIsDigits(n: nat)
    ensures OctetsOf(n) == Digits.DigitsOf(n, 0x100, 6)
  {
    hide OctetAt, Words.Shr, Digits.DigitsOf;
    forall i | 0 <= i < 6
      ensures OctetsOf(n)[i] == Digits.DigitsOf(n, 0x100, 6)[i]
    {
      DigitAt(n, 6, i);
      OctetAtIsDigit(n, 8 * (5 - i));
    }
  }

  lemma {:induction false} WithoutParts(a: string, b: string, c: char)
    ensures Without(a + b, c) == Without(a, c) + Without(b, c)
  {
    if a == "" {
      assert a + b == b;
    } else {
      assert (a + b)[1..] == a[1..] + b;
      WithoutParts(a[1..], b, c);
    }
  }

  lemma {:induction false} WithoutAbsent(s: string, c: char)
    requires c !in s
    ensures Without(s, c) == s
  {
    if s != "" {
      WithoutAbsent(s[1..], c);
    }
  }

  lemma {:induction false} WithoutAll(s: string, c: char)
    requires forall i :: 0 <= i < |s| ==> s[i] == c
    ensures Without(s, c) == ""
  {
    if s != "" {
      WithoutAll(s[1..], c);
    }
  }

  /** Erasing the separator leaves the octets side by side. */
  lemma {:induction false} WithoutJoin(pieces: seq<string>, c: char)
    requires forall i :: 0 <= i < |pieces| ==> c !in pieces[i]
    ensures Without(Tokens.Join(pieces, [c]), c) == Tokens.Join(pieces, "")
  {
    if pieces != [] {
      WithoutAbsent(pieces[0], c);
      if |pieces| > 1 {
        WithoutParts(pieces[0] + [c], Tokens.Join(pieces[1..], [c]), c);
        WithoutParts(pieces[0], [c], c);
        WithoutJoin(pieces[1..], c);
        assert pieces[0] + [] == pieces[0];
      }
    }
  }

  lemma {:induction false} PairsArePrinted(octets: seq<nat>, upperCase: bool, c: char)
    requires Digits.InBase(octets, 0x100) && !IsPrinted(c, upperCase)
    ensures forall i :: 0 <= i < |Pairs(octets, upperCase)| ==> c !in Pairs(octets, upperCase)[i]
  {
    if octets != [] {
      PairsArePrinted(octets[..|octets| - 1], upperCase, c);
    }
  }

  lemma PairValue(octet: nat, upperCase: bool)
    requires octet < 0x100
    ensures var pair := HexPair(octet, upperCase);
      DigitValue(pair[0]) < 16 && DigitValue(pair[1]) < 16 && DigitValue(pair[0]) * 16 + DigitValue(pair[1]) == octet
  {
  }

  /** The octets side by side are a numeral for the number that they make up. */
  lemma {:induction false} PairsAreNumeral(octets: seq<nat>, upperCase: bool)
    requires Digits.InBase(octets, 0x100)
    ensures var text := Tokens.Join(Pairs(octets, upperCase), "");
      |text| == 2 * |octets| && AllDigits(text, 16) && NumeralValue(text, 16) == Digits.Value(octets, 0x100)
  {
    hide DigitValue, HexPair, NumeralValue, Tokens.Join;
    var text := Tokens.Join(Pairs(octets, upperCase), "");
    if octets == [] {
      assert text == "" by { JoinNothing('\0'); }
      NumeralValueStep(text, 16);
    } else {
      var n := |octets| - 1;
      var front := Tokens.Join(Pairs(octets[..n], upperCase), "");
      PairsAreNumeral(octets[..n], upperCase);
      Tokens.JoinAppend(Pairs(octets[..n], upperCase), HexPair(octets[n], upperCase), "");
      JoinOne(front, octets[n], upperCase);
      assert text == front + HexPair(octets[n], upperCase);
    }
  }

  lemma JoinNothing(separator: char)
    ensures Tokens.Join([], "") == Tokens.Join([], Between(separator)) == ""
  {
  }

  lemma JoinOne(front: string, octet: nat, upperCase: bool)
    requires octet < 0x100 && AllDigits(front, 16)
    ensures var text := front + HexPair(octet, upperCase);
      |text| == |front| + 2 && AllDigits(text, 16) && NumeralValue(text, 16) == NumeralValue(front, 16) * 0x100 + octet
  {
    hide NumeralValue, DigitValue;
    var pair := HexPair(octet, upperCase);
    var text := front + pair;
    PairValue(octet, upperCase);
    NumeralValueStep(text, 16);
    NumeralValueStep(front + [pair[0]], 16);
    assert text[..|text| - 1] == front + [pair[0]];
    assert (front + [pair[0]])[..|front|] == front;
  }

  lemma ReadNumeral(s: string)
    requires |s| >= 2 && AllDigits(s, 16) && NumeralValue(s, 16) <= 0xFFFF_FFFF_FFFF_FFFF
    ensures ReadHexadecimal(s) == Ok(NumeralValue(s, 16))
  {
    hide NumeralValue, LeadingDigits, AllDigits;
    LeadingDigitsOfNumeral(s, 16);
    PlainStart(s);
  }

  lemma PlainStart(s: string)
    requires |s| >= 2 && AllDigits(s, 16)
    ensures SkipSpaces(s) == s && Unsigned(s) == s && s[0] != '-' && !("0x" <= s) && !("0X" <= s)
  {
    assert DigitValue(s[0]) < 16 && DigitValue(s[1]) < 16;
  }

  lemma MacValueBound(macAddress: MacAddress)
    ensures Digits.Value(macAddress, 0x100) <= 0xFFFF_FFFF_FFFF
  {
    Digits.ValueBound(macAddress, 0x100);
    assert Digits.Power(0x100, 3) == 0x100_0000;
    assert Digits.Power(0x100, 6) == 0x1_0000_0000_0000;
  }

  /** Text that was written is read back, with any separator that is not one of the digits written. */
  lemma MacRoundTrip(macAddress: MacAddress, upperCase: bool, separator: char)
    requires !IsPrinted(separator, upperCase)
    ensures StringToMacAddress(MacText(macAddress, upperCase, separator), separator) == Ok(macAddress)
  {
    hide ReadHexadecimal, OctetsOf;
    var pairs := Pairs(macAddress, upperCase);
    PairsArePrinted(macAddress, upperCase, separator);
    WithoutJoin(pairs, separator);
    PairsAreNumeral(macAddress, upperCase);
    MacValueBound(macAddress);
    ReadNumeral(Tokens.Join(pairs, ""));
    OctetsOfIsDigits(Digits.Value(macAddress, 0x100));
    Digits.DigitsOfValue(macAddress, 0x100);
  }

  lemma {:induction false} OneCharacter(pieces: seq<string>, c: char)
    requires forall i :: 0 <= i < |pieces| ==> pieces[i] == [c, c]
    ensures forall i :: 0 <= i < |Tokens.Join(pieces, [c])| ==> Tokens.Join(pieces, [c])[i] == c
  {
    if |pieces| > 1 {
      OneCharacter(pieces[1..], c);
    }
  }

  lemma {:induction false} SamePairs(octets: seq<nat>, upperCase: bool, octet: nat)
    requires octet < 0x100 && forall i :: 0 <= i < |octets| ==> octets[i] == octet
    ensures forall i :: 0 <= i < |Pairs(octets, upperCase)| ==> Pairs(octets, upperCase)[i] == HexPair(octet, upperCase)
  {
    hide HexPair;
    if octets != [] {
      SamePairs(octets[..|octets| - 1], upperCase, octet);
    }
  }

  /** The separators with which every MAC address survives being written and read are exactly those that
      are not digits of the case written. */
  lemma GoodSeparators(upperCase: bool, separator: char)
    ensures (forall mac: MacAddress ::
              StringToMacAddress(MacText(mac, upperCase, separator), separator) == Ok(mac))
            <==> !IsPrinted(separator, upperCase)
  {
    hide StringToMacAddress, MacText;
    if IsPrinted(separator, upperCase) {
      var octet := DigitValue(separator) * 17;
      var mac: MacAddress := [octet, octet, octet, octet, octet, octet];
      LosesAll(mac, upperCase, separator);
    } else {
      forall mac: MacAddress
        ensures StringToMacAddress(MacText(mac, upperCase, separator), separator) == Ok(mac)
      {
        MacRoundTrip(mac, upperCase, separator);
      }
    }
  }

  lemma LosesAll(mac: MacAddress, upperCase: bool, separator: char)
    requires IsPrinted(separator, upperCase) && forall i :: 0 <= i < 6 ==> mac[i] == DigitValue(separator) * 17
    ensures StringToMacAddress(MacText(mac, upperCase, separator), separator) == InvalidArgument
  {
    hide Tokens.Join, Pairs;
    var octet := DigitValue(separator) * 17;
    assert HexPair(octet, upperCase) == [separator, separator];
    SamePairs(mac, upperCase, octet);
    OneCharacter(Pairs(mac, upperCase), separator);
    WithoutAll(MacText(mac, upperCase, separator), separator);
  }

  // ---- the text, character by character ----

  function Characters(upperCase: bool): (digits: string)
    ensures |digits| == 16
  {
    if upperCase then "0123456789ABCDEF" else "0123456789abcdef"
  }

  lemma PairIs(octet: nat, upperCase: bool)
    requires octet < 0x100
    ensures HexPair(octet, upperCase) == [Characters(upperCase)[octet / 16], Characters(upperCase)[octet % 16]]
  {
    OneCharacterIs(octet / 16, upperCase);
    OneCharacterIs(octet % 16, upperCase);
  }

  lemma OneCharacterIs(d: nat, upperCase: bool)
    requires d < 16
    ensures HexDigit(d, upperCase) == Characters(upperCase)[d]
  {
  }

  lemma {:induction false} ClosePairs(octets: seq<nat>, upperCase: bool, i: nat)
    requires Digits.InBase(octets, 0x100) && i < |octets|
    ensures var text := Tokens.Join(Pairs(octets, upperCase), "");
      |text| == 2 * |octets| && text[2 * i..2 * i + 2] == HexPair(octets[i], upperCase)
  {
    hide HexPair, Tokens.Join;
    var n := |octets| - 1;
    var front := octets[..n];
    Tokens.JoinAppend(Pairs(front, upperCase), HexPair(octets[n], upperCase), "");
    PairLength(octets[n], upperCase);
    if n > 0 {
      ClosePairs(front, upperCase, if i < n then i else 0);
    }
  }

  lemma PairLength(octet: nat, upperCase: bool)
    requires octet < 0x100
    ensures |HexPair(octet, upperCase)| == 2
  {
  }

  lemma {:induction false} ApartPairs(octets: seq<nat>, upperCase: bool, c: char, i: nat)
    requires Digits.InBase(octets, 0x100) && i < |octets|
    ensures var text := Tokens.Join(Pairs(octets, upperCase), [c]);
      |text| == 3 * |octets| - 1 && text[3 * i..3 * i + 2] == HexPair(octets[i], upperCase) &&
      (i < |octets| - 1 ==> text[3 * i + 2] == c)
  {
    hide HexPair, Tokens.Join;
    var n := |octets| - 1;
    var front := octets[..n];
    Tokens.JoinAppend(Pairs(front, upperCase), HexPair(octets[n], upperCase), [c]);
    PairLength(octets[n], upperCase);
    if n > 0 {
      var before, pair := Tokens.Join(Pairs(front, upperCase), [c]), HexPair(octets[n], upperCase);
      ApartPairs(front, upperCase, c, if i < n then i else n - 1);
      OneMorePair(before, c, pair, if i < n then 3 * i else 0);
    }
  }

  lemma OneMorePair(before: string, c: char, pair: string, k: nat)
    requires |pair| == 2 && k + 2 <= |before|
    ensures var text := before + [c] + pair;
      text[k..k + 2] == before[k..k + 2] && text[|before|] == c && text[|before| + 1..|before| + 3] == pair
    ensures k + 2 < |before| ==> (before + [c] + pair)[k + 2] == before[k + 2]
  {
  }

  /** With a separator, the text has two digits for each octet and the separator between any two; with NUL
      it has the digits only. */
  lemma MacTextAt(macAddress: MacAddress, upperCase: bool, separator: char, i: nat)
    requires i < 6
    ensures var text, all := MacText(macAddress, upperCase, separator),
                             if upperCase then "0123456789ABCDEF" else "0123456789abcdef";
      var high, low := all[macAddress[i] / 16], all[macAddress[i] % 16];
      if separator != '\0'
      then |text| == 17 && text[3 * i] == high && text[3 * i + 1] == low && (i < 5 ==> text[3 * i + 2] == separator)
      else |text| == 12 && text[2 * i] == high && text[2 * i + 1] == low
  {
    hide HexPair, Tokens.Join, Pairs;
    PairIs(macAddress[i], upperCase);
    var text := MacText(macAddress, upperCase, separator);
    if separator != '\0' {
      ApartPairs(macAddress, upperCase, separator, i);
      var pair := text[3 * i..3 * i + 2];
      assert text[3 * i] == pair[0] && text[3 * i + 1] == pair[1];
    } else {
      ClosePairs(macAddress, upperCase, i);
      var pair := text[2 * i..2 * i + 2];
      assert text[2 * i] == pair[0] && text[2 * i + 1] == pair[1];
    }
  }

  // ---- reading any text ----

  /** Erasing a character keeps all others. */
  lemma {:induction false} WithoutKeeps(s: string, c: char)
    ensures multiset(Without(s, c)) == multiset(s)[c := 0]
  {
    if s != "" {
      assert s == [s[0]] + s[1..];
      WithoutKeeps(s[1..], c);
    }
  }

  lemma OctetsInNumbers(n: nat)
    ensures Digits.Value(OctetsOf(n), 0x100) == n % 0x1_0000_0000_0000
  {
    OctetsOfIsDigits(n);
    assert Digits.Power(0x100, 3) == 0x100_0000;
    assert Digits.Power(0x100, 6) == 0x1_0000_0000_0000;
    LowDigits(n, 6);
  }

  lemma {:induction false} LowDigits(n: nat, len: nat)
    ensures Digits.Power(0x100, len) > 0
    ensures Digits.Value(Digits.DigitsOf(n, 0x100, len), 0x100) == n % Digits.Power(0x100, len)
    decreases len
  {
    if len > 0 {
      var d, p := Digits.DigitsOf(n, 0x100, len), Digits.Power(0x100, len - 1);
      LowDigits(n / 0x100, len - 1);
      assert d[..len - 1] == Digits.DigitsOf(n / 0x100, 0x100, len - 1);
      LowPart(n, p);
    }
  }

  lemma LowPart(n: nat, p: nat)
    requires p > 0
    ensures n % (p * 0x100) == n / 0x100 % p * 0x100 + n % 0x100
  {
    var q, r := n / 0x100 / p, n / 0x100 % p;
    assert n / 0x100 == q * p + r;
    assert n == q * (p * 0x100) + (r * 0x100 + n % 0x100);
    Words.QuotientIs(n, p * 0x100, q, r * 0x100 + n % 0x100);
  }

  /** Once the separators are erased: white space, a sign, a prefix and hexadecimal digits are read as a number
      of 64 bits, and what follows is ignored; the octets are its six low ones. It fails without digits and with
      a number that needs more bits. */
  lemma ReadMacText(s: string, separator: char,
                    before: string, sign: string, prefix: string, digits: string, tail: string)
    requires (if separator != '\0' then Without(s, separator) else s) == before + sign + prefix + digits + tail
    requires Conversions.Head(before, sign, prefix + digits, tail) && prefix in {"", "0x", "0X"}
    requires Conversions.Run(digits, "0123456789abcdefABCDEF", tail)
    requires prefix == "" && digits == "0" ==> tail == "" || tail[0] !in "xX"
    ensures var m: int, r := NumeralValue(digits, 16), StringToMacAddress(s, separator);
      if digits == "" || m > 0xFFFF_FFFF_FFFF_FFFF then r == InvalidArgument
      else r.Ok? && Digits.Value(r.value, 0x100) == (if sign == "-" then -m else m) % 0x1_0000_0000_0000
  {
    hide NumeralValue, LeadingDigits, SkipSpaces, OctetsOf, Digits.Value, Conversions.Head, Without, Unsigned;
    hide Conversions.Run;
    var m: int, text := NumeralValue(digits, 16), sign + (prefix + digits + tail);
    assert before + sign + prefix + digits + tail == before + text;
    MacHead(before, sign, prefix, digits, tail);
    if digits != "" && m <= 0xFFFF_FFFF_FFFF_FFFF {
      OctetsInNumbers(WithSign(text, m, 0x1_0000_0000_0000_0000));
      LowBytes(m);
      LowBytes(-m);
    }
  }

  lemma LowBytes(m: int)
    ensures m % 0x1_0000_0000_0000_0000 % 0x1_0000_0000_0000 == m % 0x1_0000_0000_0000
  {
    var q, r := m / 0x1_0000_0000_0000_0000, m % 0x1_0000_0000_0000_0000;
    Words.QuotientIs(m, 0x1_0000_0000_0000, q * 0x1_0000 + r / 0x1_0000_0000_0000, r % 0x1_0000_0000_0000);
  }

  lemma MacHead(before: string, sign: string, prefix: string, digits: string, tail: string)
    requires Conversions.Head(before, sign, prefix + digits, tail) && prefix in {"", "0x", "0X"}
    requires Conversions.Run(digits, "0123456789abcdefABCDEF", tail)
    requires prefix == "" && digits == "0" ==> tail == "" || tail[0] !in "xX"
    ensures var text := sign + (prefix + digits + tail);
      SkipSpaces(before + text) == text && Unsigned(text) == prefix + digits + tail &&
      (text != "" && text[0] == '-' <==> sign == "-")
    ensures var rest := prefix + digits + tail;
      LeadingDigits(if "0x" <= rest || "0X" <= rest then rest[2..] else rest, 16) == digits
  {
    hide SkipSpaces, Unsigned, LeadingDigits, CString, AllDigits;
    Conversions.DigitsOnly(digits, tail, 16);
    MacPrefix(prefix, digits, tail);
    MacBody(prefix, digits, tail);
    hide Conversions.Run;
    Conversions.SignedText(before, sign, prefix + digits + tail);
  }

  lemma MacBody(prefix: string, digits: string, tail: string)
    requires Conversions.Run(digits, "0123456789abcdefABCDEF", tail) && prefix in {"", "0x", "0X"}
    ensures var body := prefix + digits + tail;
      prefix + digits != "" ==> body[0] !in {' ', '\t', '\n', '\U{0B}', '\U{0C}', '\r', '+', '-'}
  {
    var body := prefix + digits + tail;
    if prefix != "" {
      assert body[0] == '0';
    } else if digits != "" {
      assert body[0] == digits[0];
      Conversions.OnlyTheseAreDigits(digits[0]);
    }
  }

  lemma MacPrefix(prefix: string, digits: string, tail: string)
    requires prefix in {"", "0x", "0X"}
    requires prefix == "" && digits == "0" ==> tail == "" || tail[0] !in "xX"
    requires Conversions.Run(digits, "0123456789abcdefABCDEF", tail)
    ensures var rest := prefix + digits + tail;
      (if "0x" <= rest || "0X" <= rest then rest[2..] else rest) == digits + tail
  {
    var rest := prefix + digits + tail;
    if prefix == "" {
      assert rest == digits + tail;
      NoMacPrefix(digits, tail);
    } else {
      hide Conversions.Run;
      assert rest[0] == prefix[0] && rest[1] == prefix[1] && rest[2..] == digits + tail;
    }
  }

  lemma NoMacPrefix(digits: string, tail: string)
    requires Conversions.Run(digits, "0123456789abcdefABCDEF", tail)
    requires digits == "0" ==> tail == "" || tail[0] !in "xX"
    ensures !("0x" <= digits + tail) && !("0X" <= digits + tail)
  {
    var rest := digits + tail;
    if |rest| >= 2 && rest[0] == '0' {
      assert '0' in "0123456789abcdefABCDEF" by { assert "0123456789abcdefABCDEF"[0] == '0'; }
      assert digits != "" && digits[0] == '0';
      if |digits| == 1 {
        assert digits == "0" && rest[1] == tail[0];
        assert 'x' in "xX" && 'X' in "xX" by { assert "xX"[0] == 'x' && "xX"[1] == 'X'; }
      } else {
        assert rest[1] == digits[1];
      }
    }
  }
}
