/** The text forms of section 2.2 of RFC 4291, and that the parser reads every one of them. It also reads
    wider ones, in which groups have any zero padding and `::` may stand for no group at all. */
module TextForms {
  import opened Common
  import opened Addresses
  import opened Tokens
  import opened Packing
  import opened Parser
  import Digits
  import Numerals
  import opened Words

  // ---- the forms ----

  /** Each text is a hexadecimal numeral, in either case and with any padding, of its group. */
  ghost predicate HexGroups(texts: seq<string>, groups: seq<nat>) {
    |texts| == |groups| &&
    forall i :: 0 <= i < |texts| ==> Numerals.IsNumeral(texts[i], 16, groups[i]) && groups[i] < 0x1_0000
  }

  ghost predicate DecimalOctets(texts: seq<string>, octets: Octets) {
    |texts| == 4 && forall i :: 0 <= i < 4 ==> Numerals.IsNumeral(texts[i], 10, octets[i])
  }

  /** Form 3: the last two groups written as a dotted quad. */
  ghost predicate QuadText(text: string, groups: seq<nat>) {
    exists texts, octets: Octets ::
      DecimalOctets(texts, octets) && text == Join(texts, ".") && groups == QuadGroups(octets)
  }

  /** Hexadecimal groups, of which the last two may be written as a dotted quad. */
  ghost predicate Writes(texts: seq<string>, groups: seq<nat>) {
    HexGroups(texts, groups) || EndsInQuad(texts, groups)
  }

  ghost predicate EndsInQuad(texts: seq<string>, groups: seq<nat>) {
    texts != [] && |groups| == |texts| + 1 &&
    HexGroups(texts[..|texts| - 1], groups[..|texts| - 1]) &&
    QuadText(texts[|texts| - 1], groups[|texts| - 1..])
  }

  /** Form 1: all eight groups. */
  ghost predicate FullForm(text: string, groups: Groups) {
    exists texts :: Writes(texts, groups) && text == Join(texts, ":")
  }

  /** Form 2: a run of zero groups written as `::`, at the start, in the middle or at the end. */
  ghost predicate CompressedForm(text: string, groups: Groups) {
    exists left, right, leftTexts, rightTexts ::
      Compresses(text, groups, left, right, leftTexts, rightTexts)
  }

  ghost predicate Compresses(text: string, groups: Groups, left: seq<nat>, right: seq<nat>,
                             leftTexts: seq<string>, rightTexts: seq<string>)
  {
    |left| + |right| <= 8 && groups == left + Zeros(8 - |left| - |right|) + right &&
    HexGroups(leftTexts, left) && Writes(rightTexts, right) &&
    text == Join(leftTexts, ":") + "::" + Join(rightTexts, ":")
  }

  ghost predicate TextOfV6(text: string, groups: Groups) {
    FullForm(text, groups) || CompressedForm(text, groups)
  }

  ghost predicate TextOfV4(text: string, octets: Octets) {
    exists texts :: DecimalOctets(texts, octets) && text == Join(texts, ".")
  }

  // ---- the forms as RFC 4291 has them ----

  /** One to four digits in a group. */
  predicate ShortGroups(texts: seq<string>) {
    forall i :: 0 <= i < |texts| ==> LooksLikeV4(texts[i]) || |texts[i]| <= 4
  }

  ghost predicate RfcFullForm(text: string, groups: Groups) {
    exists texts :: Writes(texts, groups) && ShortGroups(texts) && text == Join(texts, ":")
  }

  /** `::` stands for one or more groups of zeros. */
  ghost predicate RfcCompressedForm(text: string, groups: Groups) {
    exists left, right, leftTexts, rightTexts ::
      Compresses(text, groups, left, right, leftTexts, rightTexts) && |left| + |right| <= 7 &&
      ShortGroups(leftTexts) && ShortGroups(rightTexts)
  }

  ghost predicate RfcTextOfV6(text: string, groups: Groups) {
    RfcFullForm(text, groups) || RfcCompressedForm(text, groups)
  }

  // ---- tokens of these forms ----

  lemma HexToken(text: string, group: nat)
    requires Numerals.IsNumeral(text, 16, group) && group < 0x1_0000
    ensures text != "" && ':' !in text && !LooksLikeV4(text) && ItemOf(text) == Item(1, Ok([group]))
  {
    Numerals.ConvertHexadecimal(text, group);
  }

  lemma {:induction false} DecimalTokens(texts: seq<string>, octets: Octets, n: nat)
    requires |texts| == 4 && n <= 4
    requires forall i :: 0 <= i < 4 ==> Numerals.ConvertFromString(texts[i]) == Ok(octets[i])
    ensures OctetsOf(texts[..n]) == Ok(octets[..n])
  {
    hide Numerals.ConvertFromString;
    if n > 0 {
      DecimalTokens(texts, octets, n - 1);
      assert texts[..n][..n - 1] == texts[..n - 1] && octets[..n] == octets[..n - 1] + [octets[n - 1]];
    }
  }

  lemma ParseOfTokens(texts: seq<string>, octets: Octets)
    requires |texts| == 4 && forall i :: 0 <= i < 4 ==> texts[i] != "" && '.' !in texts[i]
    requires forall i :: 0 <= i < 4 ==> Numerals.ConvertFromString(texts[i]) == Ok(octets[i])
    ensures ParseV4(Join(texts, ".")) == Ok(octets)
  {
    hide Numerals.ConvertFromString, OctetsOf;
    SplitOfJoin(texts, '.');
    NonEmptyOfWords(texts);
    DecimalTokens(texts, octets, 4);
    assert texts[..4] == texts && octets[..4] == octets;
  }

  /** Every V4 address in dotted decimal form, with any zero padding, parses to that address. */
  lemma ParseV4Complete(texts: seq<string>, octets: Octets)
    requires DecimalOctets(texts, octets)
    ensures ParseV4(Join(texts, ".")) == Ok(octets)
  {
    hide Numerals.ConvertFromString;
    forall i | 0 <= i < 4
      ensures texts[i] != "" && '.' !in texts[i] && Numerals.ConvertFromString(texts[i]) == Ok(octets[i])
    {
      Numerals.ConvertDecimal(texts[i], octets[i]);
    }
    ParseOfTokens(texts, octets);
  }

  /** Spaces before and after the numbers are ignored, and the numbers may have signs. */
  lemma SpacesAndSigns(texts: seq<string>, octets: Octets)
    requires |texts| == 4 && forall i :: 0 <= i < 4 ==> Numerals.SpacedNumeral(texts[i], octets[i])
    ensures Join(texts, ".") != ":" && ParseText(Join(texts, ".")) == Ok(V4(octets))
  {
    hide Numerals.ConvertFromString, Numerals.SpacedNumeral, ParseV4;
    forall i | 0 <= i < 4
      ensures texts[i] != "" && '.' !in texts[i] && ':' !in texts[i]
      ensures Numerals.ConvertFromString(texts[i]) == Ok(octets[i])
    {
      Numerals.ConvertSpaced(texts[i], octets[i]);
      SpacedToken(texts[i], octets[i]);
    }
    ParseOfTokens(texts, octets);
    NotIn(':', texts, ".");
    SplitOfPlain(Join(texts, "."), ':');
  }

  lemma SpacedToken(text: string, n: nat)
    requires Numerals.SpacedNumeral(text, n)
    ensures text != "" && '.' !in text && ':' !in text
  {
    var before, sign, numeral, after, magnitude: nat :|
      Numerals.Spaced(text, before, sign, numeral, after) && Numerals.IsNumeral(numeral, 10, magnitude) &&
      magnitude <= 0xFFFF && n == Numerals.WithSign(sign, magnitude, 0x1_0000);
    assert forall i :: 0 <= i < |numeral| ==> numeral[i] != '.' && numeral[i] != ':';
  }

  lemma {:induction false} NotIn(c: char, texts: seq<string>, separator: string)
    requires c !in separator && forall i :: 0 <= i < |texts| ==> c !in texts[i]
    ensures c !in Join(texts, separator)
  {
    if |texts| > 1 {
      NotIn(c, texts[1..], separator);
    }
  }

  lemma QuadToken(text: string, groups: seq<nat>)
    requires QuadText(text, groups)
    ensures text != "" && ':' !in text && LooksLikeV4(text) && ItemOf(text) == Item(2, Ok(groups))
  {
    var texts, octets: Octets :|
      DecimalOctets(texts, octets) && text == Join(texts, ".") && groups == QuadGroups(octets);
    ParseV4Complete(texts, octets);
    NotIn(':', texts, ".");
    assert text == texts[0] + "." + Join(texts[1..], ".");
  }

  /** What the parser needs to know of a list of texts. */
  ghost predicate Tokenized(texts: seq<string>, groups: seq<nat>) {
    Solid(texts) && QuadOnlyLast(texts) && Gather(Items(texts)) == Ok(groups)
  }

  lemma {:induction false} HexTokens(texts: seq<string>, groups: seq<nat>)
    requires HexGroups(texts, groups)
    ensures Tokenized(texts, groups)
    ensures forall i :: 0 <= i < |texts| ==> !LooksLikeV4(texts[i])
  {
    hide ItemOf;
    if texts != [] {
      var n := |texts| - 1;
      HexTokens(texts[..n], groups[..n]);
      HexToken(texts[n], groups[n]);
      assert Items(texts)[..n] == Items(texts[..n]) && groups == groups[..n] + [groups[n]];
      assert forall i :: 0 <= i < n ==> texts[i] == texts[..n][i];
    }
  }

  lemma {:induction false} WrittenTokens(texts: seq<string>, groups: seq<nat>)
    requires Writes(texts, groups)
    ensures Tokenized(texts, groups)
  {
    hide ItemOf;
    if HexGroups(texts, groups) {
      HexTokens(texts, groups);
    } else {
      var n := |texts| - 1;
      HexTokens(texts[..n], groups[..n]);
      QuadToken(texts[n], groups[n..]);
      assert Items(texts)[..n] == Items(texts[..n]) && groups == groups[..n] + groups[n..];
      assert forall i :: 0 <= i < n ==> texts[i] == texts[..n][i];
    }
  }

  // ---- completeness ----

  lemma NotAColon(tokens: seq<string>)
    requires |tokens| > 2 && forall i :: 0 <= i < |tokens| ==> ':' !in tokens[i]
    ensures Split(Join(tokens, ":"), ':') == tokens && Join(tokens, ":") != ":"
  {
    SplitOfJoin(tokens, ':');
    assert Split(":", ':') == ["", ""] by {
      assert ":"[1..] == "";
    }
  }

  lemma FullTokens(texts: seq<string>, groups: Groups)
    requires Tokenized(texts, groups) && |texts| > 2
    ensures ParseV6Tokens(texts) == Ok(groups) && Trimmed(texts) == texts
  {
    hide ItemOf, Overlay;
    var items := Items(texts);
    FirstEmptyIs(texts, |texts|);
    ItemsAreValid(texts);
    GatherInRange(items);
    PlaceIsConcatenation(groups, []);
    assert groups + Zeros(0) + [] == groups;
  }

  /** Form 1 parses to the address it writes. */
  lemma ParseFullForm(texts: seq<string>, groups: Groups)
    requires Writes(texts, groups)
    ensures Join(texts, ":") != ":" && ParseText(Join(texts, ":")) == Ok(V6(groups))
  {
    hide ParseV6Tokens;
    WrittenTokens(texts, groups);
    NotAColon(texts);
    FullTokens(texts, groups);
  }

  /** The pieces of a text with one `::`. */
  function AroundDouble(left: seq<string>, right: seq<string>): seq<string> {
    (if left == [] then [""] else left) + ([""] + (if right == [] then [""] else right))
  }

  /** Texts that can be tokens: not empty, and without a colon. */
  predicate Solid(texts: seq<string>) {
    forall i :: 0 <= i < |texts| ==> texts[i] != "" && ':' !in texts[i]
  }

  lemma CompressedTokens(left: seq<string>, right: seq<string>)
    requires Solid(left) && Solid(right)
    ensures var text := Join(left, ":") + "::" + Join(right, ":");
      text != ":" && Split(text, ':') == AroundDouble(left, right) &&
      |Split(text, ':')| > 2 && Trimmed(Split(text, ':')) == left + [""] + right
  {
    hide Split, Trimmed;
    var l, r := if left == [] then [""] else left, if right == [] then [""] else right;
    var pieces := AroundDouble(left, right);
    JoinAround(l, r);
    assert Join(l, ":") == Join(left, ":") && Join(r, ":") == Join(right, ":");
    assert forall i :: 0 <= i < |pieces| ==> ':' !in pieces[i];
    NotAColon(pieces);
    TrimmedPieces(left, right);
  }

  lemma JoinAround(l: seq<string>, r: seq<string>)
    requires l != [] && r != []
    ensures Join(l + ([""] + r), ":") == Join(l, ":") + "::" + Join(r, ":")
  {
    JoinConcatenation([""], r, ":");
    JoinConcatenation(l, [""] + r, ":");
    assert Join([""] + r, ":") == ":" + Join(r, ":");
    assert Join(l, ":") + ":" + (":" + Join(r, ":")) == Join(l, ":") + "::" + Join(r, ":");
  }

  lemma TrimmedPieces(left: seq<string>, right: seq<string>)
    requires Solid(left) && Solid(right)
    ensures var pieces := AroundDouble(left, right);
      |pieces| > 2 && Trimmed(pieces) == left + [""] + right
  {
    var pieces := AroundDouble(left, right);
    if left == [] {
      assert pieces[0] == "" && pieces[1] == "";
    } else {
      assert pieces[0] == left[0];
    }
    if right == [] {
      assert pieces[|pieces| - 1] == "" && pieces[|pieces| - 2] == "";
    } else {
      assert pieces[|pieces| - 1] == right[|right| - 1];
    }
  }

  lemma AroundEmpty(left: seq<string>, right: seq<string>, gl: seq<nat>, gr: seq<nat>)
    requires Tokenized(left, gl) && Tokenized(right, gr)
    requires forall i :: 0 <= i < |left| ==> !LooksLikeV4(left[i])
    ensures ParseV6Tokens(left + [""] + right).Ok? <==> Place(gl, gr).Ok?
    ensures Place(gl, gr).Ok? ==> ParseV6Tokens(left + [""] + right).value == Place(gl, gr).value
  {
    hide ItemOf, Overlay, Gather, Place;
    var tokens, at := left + [""] + right, |left|;
    assert forall i :: 0 <= i < at ==> tokens[i] == left[i];
    assert forall i :: at < i < |tokens| ==> tokens[i] == right[i - at - 1];
    FirstEmptyIs(tokens, at);
    assert OnlyEmptyAt(tokens, at) && QuadOnlyLast(tokens);
    assert Items(tokens)[..at] == Items(left) && Items(tokens)[at + 1..] == Items(right);
  }

  /** Any text with one `::`: it is accepted exactly when at most eight groups stand on either side,
      and the groups on the right are placed over those on the left. */
  lemma CompressedTextMeaning(left: seq<string>, right: seq<string>, gl: seq<nat>, gr: seq<nat>)
    requires HexGroups(left, gl) && Writes(right, gr)
    ensures var text := Join(left, ":") + "::" + Join(right, ":");
      text != ":" && (ParseText(text).Ok? <==> |gl| <= 8 && |gr| <= 8) &&
      (ParseText(text).Ok? ==> ParseText(text).value.V6? && ParseText(text).value.groups == Overlay(gl, gr, 8 - |gr|))
  {
    hide ParseV6Tokens, Overlay;
    HexTokens(left, gl);
    WrittenTokens(right, gr);
    CompressedTokens(left, right);
    AroundEmpty(left, right, gl, gr);
  }

  /** Form 2, with or without a dotted quad, parses to the address it writes. */
  lemma ParseCompressedForm(left: seq<string>, right: seq<string>, gl: seq<nat>, gr: seq<nat>)
    requires HexGroups(left, gl) && Writes(right, gr) && |gl| + |gr| <= 8
    ensures Digits.InBase(gl + Zeros(8 - |gl| - |gr|) + gr, 0x1_0000)
    ensures var text := Join(left, ":") + "::" + Join(right, ":");
      text != ":" && ParseText(text) == Ok(V6(gl + Zeros(8 - |gl| - |gr|) + gr))
  {
    hide ParseText, Overlay;
    CompressedTextMeaning(left, right, gl, gr);
    PlaceIsConcatenation(gl, gr);
    var groups: Groups := ParseText(Join(left, ":") + "::" + Join(right, ":")).value.groups;
  }

  /** A text with nine groups that is accepted: the fifth slot holds `5 | 6`. */
  lemma NineGroupsMerge()
    ensures var text := Join(["1", "2", "3", "4", "5"], ":") + "::" + Join(["6", "7", "8", "9"], ":");
      text != ":" && ParseText(text) == Ok(V6([1, 2, 3, 4, 7, 7, 8, 9]))
  {
    hide ParseText, Numerals.IsNumeral, Overlay;
    var left, right := ["1", "2", "3", "4", "5"], ["6", "7", "8", "9"];
    NineDigits();
    CompressedTextMeaning(left, right, [1, 2, 3, 4, 5], [6, 7, 8, 9]);
    NineSlots();
  }

  lemma NineDigits()
    ensures HexGroups(["1", "2", "3", "4", "5"], [1, 2, 3, 4, 5]) && HexGroups(["6", "7", "8", "9"], [6, 7, 8, 9])
  {
    hide Numerals.IsNumeral;
    OneDigit('1');
    OneDigit('2');
    OneDigit('3');
    OneDigit('4');
    OneDigit('5');
    OneDigit('6');
    OneDigit('7');
    OneDigit('8');
    OneDigit('9');
  }

  lemma OneDigit(c: char)
    requires '0' <= c <= '9'
    ensures Numerals.IsNumeral([c], 16, (c - '0') as nat)
  {
    hide Numerals.IsNumeral;
    Numerals.SingleDigit([c], 16);
  }

  lemma NineSlots()
    ensures Overlay([1, 2, 3, 4, 5], [6, 7, 8, 9], 4) == [1, 2, 3, 4, 7, 7, 8, 9]
  {
    var slots := Overlay([1, 2, 3, 4, 5], [6, 7, 8, 9], 4);
    assert slots[0] == Or(1, 0) && slots[1] == Or(2, 0) && slots[2] == Or(3, 0) && slots[3] == Or(4, 0);
    assert slots[4] == Or(5, 6) && slots[5] == Or(0, 7) && slots[6] == Or(0, 8) && slots[7] == Or(0, 9);
    assert slots == [slots[0], slots[1], slots[2], slots[3], slots[4], slots[5], slots[6], slots[7]];
  }

  /** Every text form of every V6 address parses to exactly that address. */
  lemma ParserIsComplete(text: string, groups: Groups)
    requires TextOfV6(text, groups)
    ensures text != ":" && ParseText(text) == Ok(V6(groups))
  {
    hide ParseText;
    if FullForm(text, groups) {
      var texts :| Writes(texts, groups) && text == Join(texts, ":");
      ParseFullForm(texts, groups);
    } else {
      var left, right, leftTexts, rightTexts :| Compresses(text, groups, left, right, leftTexts, rightTexts);
      ParseCompressedForm(leftTexts, rightTexts, left, right);
    }
  }

  /** The forms of RFC 4291 in particular. */
  lemma RfcTextIsParsed(text: string, groups: Groups)
    requires RfcTextOfV6(text, groups)
    ensures text != ":" && ParseText(text) == Ok(V6(groups))
  {
    hide ParseText, Compresses, Writes;
    ParserIsComplete(text, groups);
  }

  /** Dotted decimal text parses to its V4 address. */
  lemma ParserIsCompleteV4(text: string, octets: Octets)
    requires TextOfV4(text, octets)
    ensures text != ":" && ParseText(text) == Ok(V4(octets))
  {
    hide ParseV4;
    var texts :| DecimalOctets(texts, octets) && text == Join(texts, ".");
    ParseV4Complete(texts, octets);
    NotIn(':', texts, ".");
    SplitOfPlain(text, ':');
  }
}
