/** Printing and parsing undo each other, and printed text is canonical. */
module RoundTrip {
  import opened Common
  import opened Addresses
  import opened Tokens
  import opened Packing
  import opened Parser
  import opened Printer
  import opened TextForms
  import Digits
  import Numerals

  lemma HexesWrite(groups: seq<nat>)
    requires Digits.InBase(groups, 0x1_0000)
    ensures HexGroups(Hexes(groups), groups)
  {
    forall i | 0 <= i < |groups|
      ensures Numerals.IsNumeral(Hex(groups[i]), 16, groups[i])
    {
      Numerals.NumeralIsNumeral(groups[i], 16);
    }
  }

  lemma DecimalsWrite(o: Octets)
    ensures DecimalOctets(Decimals(o), o)
  {
    forall i | 0 <= i < 4
      ensures Numerals.IsNumeral(Dec(o[i]), 10, o[i])
    {
      Numerals.NumeralIsNumeral(o[i], 10);
    }
  }

  lemma QuadWrites(g: Groups)
    ensures QuadText(Quad(g), g[6..])
  {
    var o: Octets := [g[6] / 0x100, g[6] % 0x100, g[7] / 0x100, g[7] % 0x100];
    DecimalsWrite(o);
    assert QuadGroups(o) == g[6..];
  }

  lemma TailWrites(g: Groups, start: nat, embedded: bool)
    requires start <= 8
    ensures Writes(TailTexts(g, start, embedded), g[start..])
  {
    hide Hexes, Quad;
    if embedded && start <= 6 {
      var texts := TailTexts(g, start, embedded);
      HexesWrite(g[start..6]);
      QuadWrites(g);
      assert texts[..|texts| - 1] == Hexes(g[start..6]) && g[start..][..6 - start] == g[start..6];
      assert g[start..][6 - start..] == g[6..];
      assert |Hexes(g[start..6])| == 6 - start;
      assert EndsInQuad(texts, g[start..]);
    } else {
      HexesWrite(g[start..]);
    }
  }

  lemma AroundRun(g: Groups, run: Run)
    requires IsZeroRun(g, run)
    ensures var end := run.start + run.len; g == g[..run.start] + Zeros(end - run.start) + g[end..]
  {
  }

  lemma HexesAreShort(groups: seq<nat>)
    requires Digits.InBase(groups, 0x1_0000)
    ensures ShortGroups(Hexes(groups)) && forall i :: 0 <= i < |groups| ==> |Hexes(groups)[i]| <= 4
  {
    forall i | 0 <= i < |groups|
      ensures |Hexes(groups)[i]| <= 4
    {
      Powers();
      Numerals.NumeralLength(groups[i], 16, 4);
    }
  }

  lemma TailIsShort(g: Groups, start: nat, embedded: bool)
    requires start <= 8
    ensures ShortGroups(TailTexts(g, start, embedded))
  {
    hide Hexes, Quad;
    HexesAreShort(g[start..]);
    if embedded && start <= 6 {
      HexesAreShort(g[start..6]);
      QuadWrites(g);
      QuadToken(Quad(g), g[6..]);
    }
  }

  /** Printed V6 text is one of the forms of RFC 4291 for the address. */
  lemma PrintedIsText(g: Groups)
    ensures RfcTextOfV6(TextV6(g), g)
  {
    hide Hexes, TailTexts, IsEmbedded, Shortened, Join, Writes, ShortGroups;
    ShortenedIsRight(g);
    match Shortened(g)
    case None =>
      TailWrites(g, 0, IsEmbedded(g));
      TailIsShort(g, 0, IsEmbedded(g));
      assert g[0..] == g;
    case Some(run) =>
      var end := run.start + run.len;
      HexesWrite(g[..run.start]);
      HexesAreShort(g[..run.start]);
      TailWrites(g, end, IsEmbedded(g));
      TailIsShort(g, end, IsEmbedded(g));
      AroundRun(g, run);
      assert Compresses(TextV6(g), g, g[..run.start], g[end..],
                        Hexes(g[..run.start]), TailTexts(g, end, IsEmbedded(g)));
  }

  /** For every V4 and V6 address, parsing the printed text gives the address back. */
  lemma ParseOfText(a: Address)
    requires !a.NoAddress?
    ensures Text(a) != ":" && ParseText(Text(a)) == Ok(a)
  {
    hide TextV6, ParseText;
    match a
    case V4(octets) =>
      DecimalsWrite(octets);
      ParserIsCompleteV4(TextV4(octets), octets);
    case V6(groups) =>
      PrintedIsText(groups);
      RfcTextIsParsed(TextV6(groups), groups);
  }

  /** Different addresses print differently. */
  lemma TextIsInjective(a: Address, b: Address)
    requires !a.NoAddress? && !b.NoAddress?
    ensures Text(a) == Text(b) <==> a == b
  {
    hide Text, ParseText;
    ParseOfText(a);
    ParseOfText(b);
  }

  /** Parsing, printing and parsing again changes nothing: the printed text is a normal form. */
  lemma PrintingNormalizes(text: string)
    requires text != ":" && ParseText(text).Ok?
    ensures var a := ParseText(text).value;
      !a.NoAddress? && Text(a) != ":" && ParseText(Text(a)) == ParseText(text)
  {
    ParseOfText(ParseText(text).value);
  }

  // ---- canonical text ----

  /** Sections 4.1 to 4.3 of RFC 5952, without the dotted quad of its section 5: each group in its shortest
      lower-case form, and `::` for the first longest run of at least two zero groups and no other. */
  ghost predicate IsCanonical(text: string, g: Groups) {
    exists texts, choice ::
      ShortestGroups(texts, g) && IsShortened(g, choice) && text == Assembled(texts, choice)
  }

  ghost predicate ShortestGroups(texts: seq<string>, g: Groups) {
    |texts| == 8 &&
    forall i :: 0 <= i < 8 ==> Numerals.IsNumeral(texts[i], 16, g[i]) && Numerals.IsShortest(texts[i])
  }

  function Assembled(texts: seq<string>, choice: Option<Run>): string
    requires |texts| == 8
    requires choice.Some? ==> choice.value.start + choice.value.len <= 8
  {
    match choice
    case None => Join(texts, ":")
    case Some(run) => Join(texts[..run.start], ":") + "::" + Join(texts[run.start + run.len..], ":")
  }

  /** The canonical text is what the program prints as long as it shows no dotted quad. */
  lemma CanonicalText(text: string, g: Groups)
    ensures IsCanonical(text, g) <==> text == TextWith(g, Shortened(g), false)
  {
    hide Shortened, TextWith;
    ShortenedIsRight(g);
    AssembledIsPrinted(g);
    if IsCanonical(text, g) {
      var texts, choice :|
        ShortestGroups(texts, g) && IsShortened(g, choice) && text == Assembled(texts, choice);
      ShortenedIsUnique(g, choice, Shortened(g));
      OnlyHexes(texts, g);
    }
    if text == TextWith(g, Shortened(g), false) {
      HexesAreShortest(g);
      assert ShortestGroups(Hexes(g), g) && IsShortened(g, Shortened(g)) && text == Assembled(Hexes(g), Shortened(g));
    }
  }

  /** The addresses that are printed with a dotted quad. */
  predicate ShowsQuad(g: Groups) {
    IsMapped(V6(g)) || (IsCompatible(V6(g)) && g[6] != 0)
  }

  /** A text is canonical for an address exactly when it is the one the program prints, for exactly the
      addresses that are not printed with a dotted quad. */
  lemma CanonicalIsPrinted(g: Groups)
    ensures (forall text :: IsCanonical(text, g) <==> text == TextV6(g)) <==> !ShowsQuad(g)
  {
    hide IsCanonical, TextWith, Shortened, IsMapped, IsCompatible;
    ShortenedIsRight(g);
    var canonical := TextWith(g, Shortened(g), false);
    forall text: string
      ensures IsCanonical(text, g) <==> text == canonical
    {
      CanonicalText(text, g);
    }
    SameWithoutQuad(g);
    assert IsCanonical(canonical, g);
  }

  lemma SameWithoutQuad(g: Groups)
    ensures TextWith(g, Shortened(g), false) == TextV6(g) <==> !ShowsQuad(g)
  {
    hide IsMapped, IsCompatible, Quad, Shortened, TextWith;
    if ShowsQuad(g) {
      EmbeddedText(g);
      QuadWrites(g);
      QuadToken(Quad(g), g[6..]);
      NoDot(g);
      assert '.' in TextV6(g);
    } else if IsEmbedded(g) {
      EmbeddedPrefixes(g);
      Prefix(g, 0);
      ShortenedIsRight(g);
      ShortenedIsUnique(g, Shortened(g), Some(Run(0, if g[7] != 0 then 7 else 8)));
      TailAlike(g, if g[7] != 0 then 7 else 8);
    }
  }

  lemma TailAlike(g: Groups, start: nat)
    requires 7 <= start <= 8
    ensures TextWith(g, Some(Run(0, start)), false) == TextWith(g, Some(Run(0, start)), true)
  {
  }

  lemma NoDot(g: Groups)
    ensures '.' !in TextWith(g, Shortened(g), false)
  {
    hide Shortened, Join, Hexes;
    ShortenedIsRight(g);
    HexesHaveNoDot(g[0..]);
    if Shortened(g).Some? {
      var run := Shortened(g).value;
      HexesHaveNoDot(g[..run.start]);
      HexesHaveNoDot(g[run.start + run.len..]);
    }
  }

  lemma HexesHaveNoDot(groups: seq<nat>)
    requires Digits.InBase(groups, 0x1_0000)
    ensures '.' !in Join(Hexes(groups), ":")
  {
    hide Hexes, Join, ItemOf;
    HexesWrite(groups);
    HexTokens(Hexes(groups), groups);
    NotIn('.', Hexes(groups), ":");
  }

  lemma OnlyHexes(texts: seq<string>, g: Groups)
    requires ShortestGroups(texts, g)
    ensures texts == Hexes(g)
  {
    forall i | 0 <= i < 8
      ensures texts[i] == Hexes(g)[i]
    {
      Numerals.ShortestIsUnique(texts[i], g[i], 16);
    }
  }

  lemma HexesAreShortest(g: Groups)
    ensures ShortestGroups(Hexes(g), g)
  {
    forall i | 0 <= i < 8
      ensures Numerals.IsNumeral(Hexes(g)[i], 16, g[i]) && Numerals.IsShortest(Hexes(g)[i])
    {
      Numerals.NumeralIsNumeral(g[i], 16);
    }
  }

  lemma AssembledIsPrinted(g: Groups)
    ensures Assembled(Hexes(g), Shortened(g)) == TextWith(g, Shortened(g), false)
  {
    hide Join, Hex, Shortened;
    ShortenedIsRight(g);
    match Shortened(g)
    case None =>
      assert g[0..] == g;
    case Some(run) =>
      HexesOfSlices(g, run.start);
      HexesOfSlices(g, run.start + run.len);
  }

  lemma HexesOfSlices(g: Groups, k: nat)
    requires k <= 8
    ensures Hexes(g)[..k] == Hexes(g[..k]) && Hexes(g)[k..] == Hexes(g[k..])
  {
  }

  /** Section 5 of RFC 5952: an embedded V4 address is printed as such, unless the zero run runs into
      it, which is so for the first 65536 of the compatible ones. */
  lemma EmbeddedText(g: Groups)
    ensures IsMapped(V6(g)) ==> TextV6(g) == "::ffff:" + Quad(g)
    ensures IsCompatible(V6(g)) ==>
      TextV6(g) == "::" + if g[6] != 0 then Quad(g) else if g[7] != 0 then Hex(g[7]) else ""
  {
    hide IsMapped, IsCompatible, Quad;
    EmbeddedPrefixes(g);
    ShortenedIsRight(g);
    if IsMapped(V6(g)) {
      Prefix(g, 0xFFFF);
      ShortenedIsUnique(g, Shortened(g), Some(Run(0, 5)));
      MappedTail(g);
    } else if IsCompatible(V6(g)) {
      Prefix(g, 0);
      var len := if g[6] != 0 then 6 else if g[7] != 0 then 7 else 8;
      ShortenedIsUnique(g, Shortened(g), Some(Run(0, len)));
      CompatibleTail(g);
    }
  }

  lemma Prefix(g: Groups, marker: nat)
    requires g[..6] == [0, 0, 0, 0, 0, marker]
    ensures g[0] == g[1] == g[2] == g[3] == g[4] == 0 && g[5] == marker
  {
    assert g[..6][0] == g[0] && g[..6][1] == g[1] && g[..6][2] == g[2];
    assert g[..6][3] == g[3] && g[..6][4] == g[4] && g[..6][5] == g[5];
  }

  lemma MappedTail(g: Groups)
    requires g[5] == 0xFFFF
    ensures TextWith(g, Some(Run(0, 5)), true) == "::ffff:" + Quad(g)
  {
    hide Quad;
    assert Hex(0xFFFF) == "ffff" by {
      assert Hex(0xF) == "f" && Hex(0xFF) == "ff" && Hex(0xFFF) == "fff";
    }
    assert g[5..6] == [0xFFFF] && g[..0] == [];
    assert TailTexts(g, 5, true) == ["ffff", Quad(g)];
    assert Join(["ffff", Quad(g)], ":") == "ffff:" + Quad(g) by {
      assert ["ffff", Quad(g)][1..] == [Quad(g)];
    }
    EmptyJoin();
  }

  lemma CompatibleTail(g: Groups)
    ensures TextWith(g, Some(Run(0, 6)), true) == "::" + Quad(g)
    ensures TextWith(g, Some(Run(0, 7)), true) == "::" + Hex(g[7])
    ensures TextWith(g, Some(Run(0, 8)), true) == "::"
  {
    hide Quad, Hex;
    EmptyJoin();
    assert g[..0] == [] && g[6..6] == [] && g[7..] == [g[7]] && g[8..] == [];
    assert TailTexts(g, 6, true) == [Quad(g)];
    assert Hexes([g[7]]) == [Hex(g[7])];
  }

  // ---- the length of printed text ----

  lemma {:induction false} JoinLength(texts: seq<string>, separator: string, most: nat)
    requires forall i :: 0 <= i < |texts| ==> |texts[i]| <= most
    ensures texts != [] ==> |Join(texts, separator)| <= |texts| * most + (|texts| - 1) * |separator|
  {
    if |texts| > 1 {
      JoinLength(texts[1..], separator, most);
    }
  }

  lemma HexesLength(groups: seq<nat>)
    requires Digits.InBase(groups, 0x1_0000)
    ensures |Join(Hexes(groups), ":")| <= if groups == [] then 0 else 5 * |groups| - 1
  {
    HexesAreShort(groups);
    JoinLength(Hexes(groups), ":", 4);
  }

  lemma DottedLength(numbers: seq<nat>)
    requires |numbers| == 4 && Digits.InBase(numbers, 0x100)
    ensures |Join(Decimals(numbers), ".")| <= 15
  {
    assert Digits.Power(10, 3) == 1000 by {
      assert Digits.Power(10, 1) == 10 && Digits.Power(10, 2) == 100;
    }
    forall i | 0 <= i < 4
      ensures |Decimals(numbers)[i]| <= 3
    {
      Numerals.NumeralLength(numbers[i], 10, 3);
    }
    JoinLength(Decimals(numbers), ".", 3);
  }

  /** No address prints to more than 39 characters. */
  lemma TextLength(a: Address)
    ensures |Text(a)| <= 39
  {
    match a
    case NoAddress =>
    case V4(octets) => DottedLength(octets);
    case V6(g) =>
      if IsEmbedded(g) {
        EmbeddedLength(g);
      } else {
        PlainLength(g);
      }
  }

  lemma EmbeddedLength(g: Groups)
    requires IsEmbedded(g)
    ensures |TextV6(g)| <= 39
  {
    hide IsMapped, IsCompatible, TextV6;
    EmbeddedText(g);
    DottedLength([g[6] / 0x100, g[6] % 0x100, g[7] / 0x100, g[7] % 0x100]);
    HexesLength([g[7]]);
    assert Join(Hexes([g[7]]), ":") == Hex(g[7]);
  }

  lemma PlainLength(g: Groups)
    requires !IsEmbedded(g)
    ensures |TextV6(g)| <= 39
  {
    hide IsEmbedded, Shortened, Hexes, Join;
    ShortenedIsRight(g);
    match Shortened(g)
    case None =>
      assert g[0..] == g;
      HexesLength(g);
    case Some(run) =>
      HexesLength(g[..run.start]);
      HexesLength(g[run.start + run.len..]);
  }

  // ---- printed text has no NUL ----

  lemma PlainNumerals(numbers: seq<nat>)
    ensures forall i :: 0 <= i < |numbers| ==> '\0' !in Hexes(numbers)[i] && '\0' !in Decimals(numbers)[i]
  {
    forall i | 0 <= i < |numbers|
      ensures '\0' !in Hexes(numbers)[i] && '\0' !in Decimals(numbers)[i]
    {
      Numerals.NumeralIsNumeral(numbers[i], 16);
      Numerals.NumeralIsNumeral(numbers[i], 10);
    }
  }

  lemma TextHasNoNul(a: Address)
    ensures '\0' !in Text(a)
  {
    match a
    case NoAddress =>
    case V4(octets) =>
      PlainNumerals(octets);
      NotIn('\0', Decimals(octets), ".");
    case V6(g) => V6HasNoNul(g);
  }

  lemma V6HasNoNul(g: Groups)
    ensures '\0' !in TextV6(g)
  {
    hide IsEmbedded, Shortened, Hex, TailTexts, Join;
    ShortenedIsRight(g);
    TailHasNoNul(g, 0, IsEmbedded(g));
    if Shortened(g).Some? {
      var run := Shortened(g).value;
      PlainNumerals(g[..run.start]);
      NotIn('\0', Hexes(g[..run.start]), ":");
      TailHasNoNul(g, run.start + run.len, IsEmbedded(g));
    }
  }

  lemma TailHasNoNul(g: Groups, start: nat, embedded: bool)
    requires start <= 8
    ensures '\0' !in Join(TailTexts(g, start, embedded), ":")
  {
    hide Join;
    var quads := [g[6] / 0x100, g[6] % 0x100, g[7] / 0x100, g[7] % 0x100];
    PlainNumerals(quads);
    NotIn('\0', Decimals(quads), ".");
    PlainNumerals(g[start..]);
    if start <= 6 {
      PlainNumerals(g[start..6]);
    }
    NotIn('\0', TailTexts(g, start, embedded), ":");
  }

  // ---- V4 text, by itself and inside V6 text ----

  /** Four decimal numbers without leading zeros. */
  ghost predicate IsCanonicalV4(text: string, o: Octets) {
    exists texts :: ShortestOctets(texts, o) && text == Join(texts, ".")
  }

  ghost predicate ShortestOctets(texts: seq<string>, o: Octets) {
    |texts| == 4 &&
    forall i :: 0 <= i < 4 ==> Numerals.IsNumeral(texts[i], 10, o[i]) && Numerals.IsShortest(texts[i])
  }

  /** A text is canonical for a V4 address exactly when it is the one the program prints. */
  lemma CanonicalIsPrintedV4(text: string, o: Octets)
    ensures IsCanonicalV4(text, o) <==> text == Text(V4(o))
  {
    hide Join, Numerals.Numeral, Numerals.IsNumeral, Numerals.IsShortest;
    DecimalsAreShortest(o);
    if IsCanonicalV4(text, o) {
      var texts :| ShortestOctets(texts, o) && text == Join(texts, ".");
      forall i | 0 <= i < 4
        ensures texts[i] == Decimals(o)[i]
      {
        Numerals.ShortestIsUnique(texts[i], o[i], 10);
      }
      assert texts == Decimals(o);
    }
  }

  lemma DecimalsAreShortest(o: Octets)
    ensures ShortestOctets(Decimals(o), o)
  {
    forall i | 0 <= i < 4
      ensures Numerals.IsNumeral(Decimals(o)[i], 10, o[i]) && Numerals.IsShortest(Decimals(o)[i])
    {
      Numerals.NumeralIsNumeral(o[i], 10);
    }
  }

  /** The dotted quad of an address is the text of the V4 address that it embeds. */
  lemma QuadIsText(g: Groups)
    ensures Quad(g) == Text(Embedded(g))
  {
    hide Join, Decimals, Hexes, UnpackV4;
    QuadOctets(g);
  }

  lemma QuadOctets(g: Groups)
    ensures UnpackV4(g[6] * 0x1_0000 + g[7]) == [g[6] / 0x100, g[6] % 0x100, g[7] / 0x100, g[7] % 0x100]
  {
    var o: Octets := [g[6] / 0x100, g[6] % 0x100, g[7] / 0x100, g[7] % 0x100];
    ValueOfFour(o, 0x100);
    assert PackV4(o) == g[6] * 0x1_0000 + g[7];
    UnpackOfPackV4(o);
  }

  /** A V4 address is printed inside its mapped address, and inside its compatible one unless it is below
      0.1.0.0. */
  lemma EmbeddedIsPrinted(a: Address)
    requires a.V4?
    ensures Text(ToMapped(a).value) == "::ffff:" + Text(a)
    ensures Number(a) >= 0x1_0000 ==> Text(ToCompatible(a).value) == "::" + Text(a)
  {
    hide Text, Quad, IsMapped, IsCompatible, Embedded, EmbedAt, Number;
    EmbeddingRoundTrip(a);
    EmbeddedNumber(a);
    PrintedInside(ToMapped(a).value.groups);
    PrintedInside(ToCompatible(a).value.groups);
  }

  lemma PrintedInside(g: Groups)
    ensures IsMapped(V6(g)) ==> Text(V6(g)) == "::ffff:" + Text(Embedded(g))
    ensures IsCompatible(V6(g)) && Number(V6(g)) >= 0x1_0000 ==> Text(V6(g)) == "::" + Text(Embedded(g))
  {
    hide Quad, IsMapped, IsCompatible, Embedded, TextV6, TextV4, Number;
    EmbeddedText(g);
    QuadIsText(g);
    if IsCompatible(V6(g)) {
      EmbeddedPrefixes(g);
      Prefix(g, 0);
      NumberOfEmbedded(g);
    }
  }
}
