/** Which accepted texts are forms of RFC 4291, for texts whose tokens are plain numerals. */
module PlainTexts {
  import opened Common
  import opened Addresses
  import opened Tokens
  import opened Packing
  import opened Parser
  import opened TextForms
  import opened Acceptance
  import Conversions
  import Digits
  import Numerals

  // ---- plain tokens ----

  /** One to four hexadecimal digits. */
  predicate PlainGroup(token: string) {
    1 <= |token| <= 4 && Numerals.AllDigits(token, 16)
  }

  /** Four decimal numerals. */
  ghost predicate PlainQuad(token: string) {
    exists texts :: PlainDecimals(texts) && token == Join(texts, ".")
  }

  predicate PlainDecimals(texts: seq<string>) {
    |texts| == 4 && forall i :: 0 <= i < 4 ==> texts[i] != "" && Numerals.AllDigits(texts[i], 10)
  }

  /** Every token is plain or empty. */
  ghost predicate PlainTokens(tokens: seq<string>) {
    forall i :: 0 <= i < |tokens| ==> tokens[i] == "" || PlainGroup(tokens[i]) || PlainQuad(tokens[i])
  }

  lemma PlainGroupItem(token: string)
    requires PlainGroup(token)
    ensures var group := Numerals.NumeralValue(token, 16);
      Numerals.IsNumeral(token, 16, group) && group < 0x1_0000 &&
      !LooksLikeV4(token) && ItemOf(token) == Item(1, Ok([group]))
  {
    hide Numerals.ConvertFromString;
    var group := Numerals.NumeralValue(token, 16);
    NumeralBound(token);
    HexToken(token, group);
  }

  /** Any token without a dot is one group: the hexadecimal digits that it begins with. It fails without
      digits, and with a number that needs more than 16 bits. */
  lemma GroupToken(digits: string, tail: string)
    requires Conversions.Run(digits, "0123456789abcdefABCDEF", tail) && '.' !in tail
    ensures var group := Numerals.NumeralValue(digits, 16);
      ItemOf(digits + tail) == Item(1, if digits == "" || group > 0xFFFF then InvalidArgument else Ok([group]))
  {
    hide Numerals.NumeralValue, Numerals.ConvertFromString;
    Conversions.ConvertHexadecimalText("0x", digits, tail);
    assert "0x" + digits + tail == "0x" + (digits + tail);
  }

  lemma NumeralBound(token: string)
    requires PlainGroup(token)
    ensures Numerals.NumeralValue(token, 16) < 0x1_0000
  {
    var digits := Numerals.DigitValues(token);
    Digits.ValueBound(digits, 16);
    assert Digits.Power(16, 2) == 0x100 by { assert Digits.Power(16, 1) == 16; }
    assert Digits.Power(16, 3) == 0x1000 && Digits.Power(16, 4) == 0x1_0000;
    assert Digits.Power(16, 1) == 16;
  }

  /** A plain decimal numeral converts to its number if this fits in 16 bits. */
  lemma ConvertPlain(s: string)
    requires s != "" && Numerals.AllDigits(s, 10)
    ensures var n := Numerals.NumeralValue(s, 10);
      Numerals.ConvertFromString(s) == if n <= 0xFFFF then Ok(n) else InvalidArgument
  {
    hide Numerals.NumeralValue;
    Numerals.CStringOfNumeral(s);
    Numerals.LeadingDigitsOfNumeral(s, 10);
    assert Numerals.DigitValue(s[0]) < 10;
    assert |s| > 1 ==> Numerals.DigitValue(s[1]) < 10;
  }

  /** What four numbers say when they are read. */
  lemma {:induction false} OctetsRead(tokens: seq<string>)
    ensures OctetsOf(tokens).Ok? ==> |OctetsOf(tokens).value| == |tokens|
    ensures OctetsOf(tokens).Ok? ==> forall i :: 0 <= i < |tokens| ==>
      Numerals.ConvertFromString(tokens[i]) == Ok(OctetsOf(tokens).value[i])
  {
    hide Numerals.ConvertFromString;
    if tokens != [] {
      OctetsRead(tokens[..|tokens| - 1]);
    }
  }

  lemma PlainDecimalsRead(texts: seq<string>, octets: Octets)
    requires PlainDecimals(texts) && OctetsOf(texts) == Ok(octets)
    ensures DecimalOctets(texts, octets)
  {
    hide Numerals.ConvertFromString, Numerals.NumeralValue;
    OctetsRead(texts);
    forall i | 0 <= i < 4
      ensures Numerals.IsNumeral(texts[i], 10, octets[i])
    {
      ConvertPlain(texts[i]);
    }
  }

  lemma PlainDecimalTokens(texts: seq<string>)
    requires PlainDecimals(texts)
    ensures NonEmpty(Split(Join(texts, "."), '.')) == texts
    ensures '.' in Join(texts, ".") && ':' !in Join(texts, ".") && Join(texts, ".") != ""
  {
    hide Split;
    forall i | 0 <= i < 4
      ensures '.' !in texts[i] && ':' !in texts[i]
    {
      assert forall k :: 0 <= k < |texts[i]| ==> Numerals.DigitValue(texts[i][k]) < 10;
    }
    SplitOfJoin(texts, '.');
    NonEmptyOfWords(texts);
    NotIn(':', texts, ".");
    assert Join(texts, ".") == texts[0] + "." + Join(texts[1..], ".");
  }

  lemma PlainQuadItem(token: string)
    requires PlainQuad(token)
    ensures LooksLikeV4(token) && ItemOf(token).width == 2
    ensures ItemOf(token).groups.Ok? ==> QuadText(token, ItemOf(token).groups.value)
  {
    hide OctetsOf, Join, Split;
    var texts :| PlainDecimals(texts) && token == Join(texts, ".");
    PlainDecimalTokens(texts);
    if ParseV4(token).Ok? {
      PlainDecimalsRead(texts, ParseV4(token).value);
    }
  }

  // ---- plain tokens that were read write what was read ----

  lemma {:induction false} PlainHexTokens(texts: seq<string>, groups: seq<nat>)
    requires Tokenized(texts, groups) && PlainTokens(texts)
    requires forall i :: 0 <= i < |texts| ==> !LooksLikeV4(texts[i])
    ensures HexGroups(texts, groups) && ShortGroups(texts)
  {
    hide ItemOf, PlainGroup, PlainQuad, LooksLikeV4;
    if texts != [] {
      var n := |texts| - 1;
      assert Items(texts)[..n] == Items(texts[..n]);
      OnePlainGroup(texts[n]);
      var front := Gather(Items(texts[..n])).value;
      PlainHexTokens(texts[..n], front);
      assert groups == front + [Numerals.NumeralValue(texts[n], 16)];
    }
  }

  lemma OnePlainGroup(token: string)
    requires token != "" && (PlainGroup(token) || PlainQuad(token)) && !LooksLikeV4(token)
    ensures PlainGroup(token) && |token| <= 4
    ensures var group := Numerals.NumeralValue(token, 16);
      Numerals.IsNumeral(token, 16, group) && group < 0x1_0000 && ItemOf(token) == Item(1, Ok([group]))
  {
    hide ItemOf, PlainQuad;
    if PlainQuad(token) {
      PlainQuadItem(token);
    }
    PlainGroupItem(token);
  }

  lemma PlainWritten(texts: seq<string>, groups: seq<nat>)
    requires Tokenized(texts, groups) && PlainTokens(texts)
    ensures Writes(texts, groups) && ShortGroups(texts)
  {
    hide ItemOf, PlainGroup, PlainQuad, QuadText;
    var n := |texts| - 1;
    if texts == [] || !LooksLikeV4(texts[n]) {
      PlainHexTokens(texts, groups);
    } else {
      var front := Gather(Items(texts)[..n]).value;
      assert Items(texts)[..n] == Items(texts[..n]);
      PlainHexTokens(texts[..n], front);
      OnePlainQuad(texts[n]);
      assert groups[..n] == front && groups[n..] == ItemOf(texts[n]).groups.value;
      assert EndsInQuad(texts, groups);
    }
  }

  lemma OnePlainQuad(token: string)
    requires (PlainGroup(token) || PlainQuad(token)) && LooksLikeV4(token)
    ensures ItemOf(token).width == 2
    ensures ItemOf(token).groups.Ok? ==>
      |ItemOf(token).groups.value| == 2 && QuadText(token, ItemOf(token).groups.value)
  {
    hide PlainQuad;
    if PlainGroup(token) {
      PlainGroupItem(token);
    }
    PlainQuadItem(token);
  }

  // ---- colons at the ends ----

  /** The text begins or ends in a colon that is not part of a `::`. */
  predicate LoneColon(text: string) {
    (":" <= text && !("::" <= text)) ||
    (text != "" && text[|text| - 1] == ':' && (|text| == 1 || text[|text| - 2] != ':'))
  }

  lemma {:induction false} EndsOfJoin(texts: seq<string>)
    requires texts != [] && Solid(texts)
    ensures var text := Join(texts, ":"); text != "" && text[0] != ':' && text[|text| - 1] != ':'
  {
    if |texts| > 1 {
      EndsOfJoin(texts[1..]);
    }
  }

  lemma NoLoneColon(left: seq<string>, right: seq<string>)
    requires Solid(left) && Solid(right)
    ensures !LoneColon(Join(left, ":") + "::" + Join(right, ":"))
  {
    hide Join;
    var text := Join(left, ":") + "::" + Join(right, ":");
    if left == [] {
      EmptyJoin();
      assert text[0] == ':' && text[1] == ':';
    } else {
      EndsOfJoin(left);
      assert text[0] == Join(left, ":")[0];
    }
    if right == [] {
      EmptyJoin();
      assert text[|text| - 1] == ':' && text[|text| - 2] == ':';
    } else {
      EndsOfJoin(right);
      assert text[|text| - 1] == Join(right, ":")[|Join(right, ":")| - 1];
    }
  }

  lemma EdgeIsLone(text: string, left: seq<string>, right: seq<string>)
    requires Solid(left) && Solid(right) && GapText(text, left, right)
    requires text != Join(left, ":") + "::" + Join(right, ":")
    ensures LoneColon(text)
  {
    hide Join;
    if left == [] {
      EndsOfJoin(right);
      assert text[1] == Join(right, ":")[0];
    } else {
      EndsOfJoin(left);
      assert text[|text| - 2] == Join(left, ":")[|Join(left, ":")| - 1];
    }
  }

  // ---- counting groups ----

  /** The number of groups that are written in a text; a dotted quad writes two. */
  function GroupsWritten(text: string): nat {
    Width(Items(NonEmpty(Split(text, ':'))))
  }

  lemma {:induction false} WidthInParts(a: seq<Item>, b: seq<Item>)
    ensures Width(a + b) == Width(a) + Width(b)
  {
    if b == [] {
      assert a + b == a;
    } else {
      assert (a + b)[..|a + b| - 1] == a + b[..|b| - 1];
      WidthInParts(a, b[..|b| - 1]);
    }
  }

  lemma {:induction false} NonEmptyInParts(a: seq<string>, b: seq<string>)
    ensures NonEmpty(a + b) == NonEmpty(a) + NonEmpty(b)
  {
    if a == [] {
      assert a + b == b;
    } else {
      assert (a + b)[1..] == a[1..] + b;
      NonEmptyInParts(a[1..], b);
    }
  }

  lemma GroupsAroundDouble(left: seq<string>, right: seq<string>, gl: seq<nat>, gr: seq<nat>)
    requires Tokenized(left, gl) && Tokenized(right, gr)
    ensures GroupsWritten(Join(left, ":") + "::" + Join(right, ":")) == |gl| + |gr|
  {
    hide ItemOf, Split, Join, Gather, NonEmpty;
    CompressedTokens(left, right);
    SolidAround(left, right);
    assert Items(left + right) == Items(left) + Items(right);
    WidthInParts(Items(left), Items(right));
    ItemsAreValid(left);
    ItemsAreValid(right);
    GatherInRange(Items(left));
    GatherInRange(Items(right));
  }

  lemma SolidAround(left: seq<string>, right: seq<string>)
    requires Solid(left) && Solid(right)
    ensures NonEmpty(AroundDouble(left, right)) == left + right
  {
    hide NonEmpty;
    NoEmpty();
    var l, r := if left == [] then [""] else left, if right == [] then [""] else right;
    NonEmptyInParts(l, [""] + r);
    NonEmptyInParts([""], r);
    NonEmptyOfWords(left);
    NonEmptyOfWords(right);
  }

  lemma NoEmpty()
    ensures NonEmpty([""]) == [] && NonEmpty([]) == []
  {
  }

  // ---- which accepted texts are forms of RFC 4291 ----

  /** The text has neither a lone colon at an end, nor a `::` beside more than seven groups. */
  predicate WellFormed(text: string) {
    !LoneColon(text) && ("" in Split(text, ':') ==> GroupsWritten(text) <= 7)
  }

  /** No form of RFC 4291 begins or ends in a lone colon, or has `::` beside more than seven groups. */
  lemma RfcIsWellFormed(text: string, groups: Groups)
    requires RfcTextOfV6(text, groups)
    ensures WellFormed(text)
  {
    hide Writes, LoneColon, GroupsWritten, Split, Join, HexGroups, ShortGroups;
    if RfcFullForm(text, groups) {
      var texts :| Writes(texts, groups) && ShortGroups(texts) && text == Join(texts, ":");
      WrittenTokens(texts, groups);
      FullIsWellFormed(texts, groups);
    } else {
      var gl, gr, left, right :|
        Compresses(text, groups, gl, gr, left, right) && |gl| + |gr| <= 7 && ShortGroups(left) && ShortGroups(right);
      HexTokens(left, gl);
      WrittenTokens(right, gr);
      NoLoneColon(left, right);
      GroupsAroundDouble(left, right, gl, gr);
    }
  }

  lemma FullIsWellFormed(texts: seq<string>, groups: Groups)
    requires Tokenized(texts, groups)
    ensures WellFormed(Join(texts, ":")) && Split(Join(texts, ":"), ':') == texts
  {
    hide ItemOf, Split, Join, GroupsWritten, Gather;
    WidthOfItems(texts);
    ItemsAreValid(texts);
    GatherInRange(Items(texts));
    EndsOfJoin(texts);
    SplitOfJoin(texts, ':');
  }

  /** Of the texts that are accepted and whose tokens are plain numerals, exactly the well-formed ones are
      forms of RFC 4291. */
  lemma AcceptedRfcExactly(text: string, groups: Groups)
    requires text != ":" && ParseText(text) == Ok(V6(groups)) && PlainTokens(Split(text, ':'))
    ensures RfcTextOfV6(text, groups) <==> WellFormed(text)
  {
    hide ParseText, RfcTextOfV6, WellFormed, Split, Around, Tokenized, PlainTokens;
    AcceptedExactly(text, groups);
    if RfcTextOfV6(text, groups) {
      RfcIsWellFormed(text, groups);
    }
    if WellFormed(text) {
      if EightGroups(text, groups) {
        var texts :| Tokenized(texts, groups) && text == Join(texts, ":");
        FullIsWellFormed(texts, groups);
        PlainEight(texts, groups);
      } else {
        var left, right, gl, gr :| Around(text, groups, left, right, gl, gr);
        PlainGap(text, groups, left, right, gl, gr);
      }
    }
  }

  lemma PlainEight(texts: seq<string>, groups: Groups)
    requires Tokenized(texts, groups) && PlainTokens(texts)
    ensures RfcTextOfV6(Join(texts, ":"), groups)
  {
    hide Tokenized, PlainTokens, Writes, ShortGroups, Join;
    PlainWritten(texts, groups);
    assert RfcFullForm(Join(texts, ":"), groups);
  }

  lemma PlainGap(text: string, groups: Groups, left: seq<string>, right: seq<string>, gl: seq<nat>, gr: seq<nat>)
    requires Around(text, groups, left, right, gl, gr) && PlainTokens(Split(text, ':')) && WellFormed(text)
    ensures RfcTextOfV6(text, groups)
  {
    hide Split, Join, LoneColon, GroupsWritten, Gather, ItemOf, Overlay;
    hide PlainGroup, PlainQuad, Writes, HexGroups, ShortGroups;
    if text != Join(left, ":") + "::" + Join(right, ":") {
      EdgeIsLone(text, left, right);
    }
    CompressedTokens(left, right);
    GroupsAroundDouble(left, right, gl, gr);
    var pieces := AroundDouble(left, right);
    assert "" in pieces;
    PlainSides(left, right);
    PlainHexTokens(left, gl);
    PlainWritten(right, gr);
    PlaceIsConcatenation(gl, gr);
    assert Compresses(text, groups, gl, gr, left, right);
    assert RfcCompressedForm(text, groups);
  }

  lemma PlainSides(left: seq<string>, right: seq<string>)
    requires PlainTokens(AroundDouble(left, right))
    ensures PlainTokens(left) && PlainTokens(right)
  {
    hide PlainGroup, PlainQuad;
    var pieces := AroundDouble(left, right);
    assert forall i :: 0 <= i < |left| ==> left[i] == pieces[i];
    assert forall i :: 0 <= i < |right| ==> right[i] == pieces[|pieces| - |right| + i];
  }

  // ---- V4 ----

  /** The pieces between dots, the empty ones left out, are four numbers. */
  ghost predicate DottedNumbers(text: string, octets: Octets) {
    exists pieces :: FourNumbers(pieces, octets) && text == Join(pieces, ".")
  }

  ghost predicate FourNumbers(pieces: seq<string>, octets: Octets) {
    pieces != [] && (forall i :: 0 <= i < |pieces| ==> '.' !in pieces[i] && ':' !in pieces[i]) &&
    var tokens := NonEmpty(pieces);
    |tokens| == 4 && forall i :: 0 <= i < 4 ==> Numerals.ConvertFromString(tokens[i]) == Ok(octets[i])
  }

  lemma {:induction false} OneToken(s: string, separator: char)
    ensures |Split(s, separator)| == 1 <==> separator !in s
  {
    if s != "" {
      OneToken(s[1..], separator);
    }
  }

  lemma {:induction false} PieceIn(pieces: seq<string>, separator: string, i: nat, c: char)
    requires i < |pieces| && c in pieces[i]
    ensures c in Join(pieces, separator)
  {
    if |pieces| > 1 && i > 0 {
      PieceIn(pieces[1..], separator, i - 1, c);
    }
  }

  /** For every text but a single colon: it is read as a V4 address if and only if the non-empty pieces
      between its dots are four numbers, and then as these. */
  lemma AcceptedV4Exactly(text: string, octets: Octets)
    requires text != ":"
    ensures ParseText(text) == Ok(V4(octets)) <==> DottedNumbers(text, octets)
  {
    hide Split, Join, Numerals.ConvertFromString, ParseV6Tokens, OctetsOf, NonEmpty, FourNumbers;
    OneToken(text, ':');
    if ParseText(text) == Ok(V4(octets)) {
      var pieces := Split(text, '.');
      assert OctetsOf(NonEmpty(pieces)) == Ok(octets);
      ReadNumbers(text, octets);
    }
    if DottedNumbers(text, octets) {
      var pieces :| FourNumbers(pieces, octets) && text == Join(pieces, ".");
      NumbersAreRead(pieces, octets);
    }
  }

  lemma ReadNumbers(text: string, octets: Octets)
    requires ':' !in text && |NonEmpty(Split(text, '.'))| == 4 && OctetsOf(NonEmpty(Split(text, '.'))) == Ok(octets)
    ensures FourNumbers(Split(text, '.'), octets) && text == Join(Split(text, '.'), ".")
  {
    hide Split, Join, Numerals.ConvertFromString, OctetsOf, NonEmpty;
    var pieces := Split(text, '.');
    JoinOfSplit(text, '.');
    OctetsRead(NonEmpty(pieces));
    forall i | 0 <= i < |pieces|
      ensures ':' !in pieces[i] && '.' !in pieces[i]
    {
      assert pieces[i] in pieces;
      if ':' in pieces[i] {
        PieceIn(pieces, ".", i, ':');
      }
    }
  }

  lemma NumbersAreRead(pieces: seq<string>, octets: Octets)
    requires FourNumbers(pieces, octets)
    ensures ':' !in Join(pieces, ".") && ParseV4(Join(pieces, ".")) == Ok(octets)
  {
    hide Split, Join, Numerals.ConvertFromString, NonEmpty;
    SplitOfJoin(pieces, '.');
    NotIn(':', pieces, ".");
    var tokens := NonEmpty(pieces);
    DecimalTokens(tokens, octets, 4);
    assert tokens[..4] == tokens && octets[..4] == octets;
  }

  lemma {:induction false} NonEmptyKeeps(pieces: seq<string>)
    ensures forall i :: 0 <= i < |NonEmpty(pieces)| ==> NonEmpty(pieces)[i] != "" && NonEmpty(pieces)[i] in pieces
  {
    if pieces != [] {
      NonEmptyKeeps(pieces[1..]);
    }
  }

  /** Repeated dots, and dots at the ends, are read like single ones between the numbers. */
  lemma RepeatedDots(pieces: seq<string>)
    requires pieces != [] && forall i :: 0 <= i < |pieces| ==> '.' !in pieces[i] && ':' !in pieces[i]
    ensures var text, single := Join(pieces, "."), Join(NonEmpty(pieces), ".");
      text != ":" && single != ":" && ParseText(text) == ParseText(single)
  {
    hide Split, Join, OctetsOf, NonEmpty, ParseText;
    var tokens := NonEmpty(pieces);
    NonEmptyKeeps(pieces);
    NotIn(':', pieces, ".");
    NotIn(':', tokens, ".");
    SameNumbers(Join(pieces, "."), Join(tokens, "."));
    SplitOfJoin(pieces, '.');
    NonEmptyOfWords(tokens);
    if tokens == [] {
      JoinOfNone();
    } else {
      SplitOfJoin(tokens, '.');
    }
  }

  lemma SameNumbers(a: string, b: string)
    requires ':' !in a && ':' !in b
    ensures NonEmpty(Split(a, '.')) == NonEmpty(Split(b, '.')) ==> ParseText(a) == ParseText(b)
  {
    hide Split, NonEmpty, OctetsOf, ParseV6Tokens;
    OneToken(a, ':');
    OneToken(b, ':');
  }

  lemma JoinOfNone()
    ensures NonEmpty(Split(Join([], "."), '.')) == []
  {
    NoEmpty();
  }

  /** Dots may be repeated, and may stand at the start and at the end: of the texts that are read as a V4
      address and whose pieces are plain numerals, exactly those without an empty piece are dotted decimal. */
  lemma AcceptedDottedExactly(text: string, octets: Octets)
    requires text != ":" && ParseText(text) == Ok(V4(octets))
    requires forall piece :: piece in Split(text, '.') ==> Numerals.AllDigits(piece, 10)
    ensures TextOfV4(text, octets) <==> "" !in Split(text, '.')
  {
    hide Split, Join, Numerals.ConvertFromString, ParseV6Tokens, OctetsOf, NonEmpty;
    hide Numerals.AllDigits, Numerals.NumeralValue;
    var pieces := Split(text, '.');
    if TextOfV4(text, octets) {
      var texts :| DecimalOctets(texts, octets) && text == Join(texts, ".");
      NoDots(texts);
      SplitOfJoin(texts, '.');
    }
    if "" !in pieces {
      OneToken(text, ':');
      assert forall i :: 0 <= i < |pieces| ==> pieces[i] in pieces;
      NonEmptyOfWords(pieces);
      JoinOfSplit(text, '.');
      PlainDecimalsRead(pieces, octets);
    }
  }

  lemma NoDots(texts: seq<string>)
    requires forall i :: 0 <= i < |texts| ==> Numerals.AllDigits(texts[i], 10)
    ensures forall i :: 0 <= i < |texts| ==> '.' !in texts[i]
  {
  }
}
