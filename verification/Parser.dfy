/** Reading an address from text. */
module Parser {
  import opened Common
  import opened Words
  import opened Addresses
  import opened Tokens
  import opened Packing
  import Digits
  import Numerals

  // ---- what a text means ----

  /** Four decimal numbers, all at most 255. */
  function OctetsOf(tokens: seq<string>): Result<seq<nat>> {
    if tokens == [] then Ok([])
    else
      var front :- OctetsOf(tokens[..|tokens| - 1]);
      var octet :- Numerals.ConvertFromString(tokens[|tokens| - 1]);
      if octet > 0xFF then InvalidArgument else Ok(front + [octet])
  }

  function ParseV4(text: string): (r: Result<Octets>)
  {
    var tokens := NonEmpty(Split(text, '.'));
    if |tokens| != 4 then InvalidArgument
    else
      var octets :- OctetsOf(tokens);
      OctetsInRange(tokens);
      Ok(octets)
  }

  lemma {:induction false} OctetsInRange(tokens: seq<string>)
    ensures OctetsOf(tokens).Ok? ==>
      |OctetsOf(tokens).value| == |tokens| && Digits.InBase(OctetsOf(tokens).value, 0x100)
  {
    if tokens != [] {
      OctetsInRange(tokens[..|tokens| - 1]);
    }
  }

  predicate LooksLikeV4(token: string) {
    '.' in token
  }

  /** The one or two groups that a token stands for. */
  function ItemOf(token: string): Item {
    if LooksLikeV4(token) then
      var octets := ParseV4(token);
      Item(2, if octets.Ok? then Ok(QuadGroups(octets.value)) else InvalidArgument)
    else
      var group := Numerals.ConvertFromString("0x" + token);
      Item(1, if group.Ok? then Ok([group.value]) else InvalidArgument)
  }

  function QuadGroups(o: Octets): seq<nat> {
    [o[0] * 0x100 + o[1], o[2] * 0x100 + o[3]]
  }

  function Items(tokens: seq<string>): (items: seq<Item>)
    ensures |items| == |tokens|
  {
    seq(|tokens|, i requires 0 <= i < |tokens| => ItemOf(tokens[i]))
  }

  lemma ItemsAreValid(tokens: seq<string>)
    ensures AllValid(Items(tokens))
  {
  }

  /** The tokens of a V6 text, without the second empty token that `::` leaves at either end. */
  function Trimmed(tokens: seq<string>): seq<string>
    requires |tokens| >= 2 && tokens != ["", ""]
  {
    var front := if tokens[0] == "" && tokens[1] == "" then tokens[1..] else tokens;
    if front[|front| - 1] == "" && front[|front| - 2] == "" then front[..|front| - 1] else front
  }

  /** Dotted quads are allowed in the last place only. */
  predicate QuadOnlyLast(tokens: seq<string>) {
    forall i :: 0 <= i < |tokens| - 1 ==> !LooksLikeV4(tokens[i])
  }

  /** The position of the only empty token. */
  predicate OnlyEmptyAt(tokens: seq<string>, at: nat) {
    at < |tokens| && tokens[at] == "" && forall i :: 0 <= i < |tokens| && i != at ==> tokens[i] != ""
  }

  function FirstEmpty(tokens: seq<string>): (at: nat)
    ensures at <= |tokens| && (at < |tokens| ==> tokens[at] == "")
    ensures forall i :: 0 <= i < at ==> tokens[i] != ""
  {
    if tokens == [] then 0
    else if tokens[0] == "" then 0
    else FirstEmpty(tokens[1..]) + 1
  }

  /** At most one empty token, which stands for the missing groups; without one, eight groups. */
  function ParseV6Tokens(tokens: seq<string>): Result<Groups> {
    var at, items := FirstEmpty(tokens), Items(tokens);
    if !QuadOnlyLast(tokens) then InvalidArgument
    else if at == |tokens| && Width(items) != 8 then InvalidArgument
    else if at < |tokens| && !OnlyEmptyAt(tokens, at) then InvalidArgument
    else
      var slots :- Packed(items, at);
      ItemsAreValid(tokens);
      PackedInRange(items, at);
      Ok(slots)
  }

  lemma OnlyAColon(text: string)
    ensures Split(text, ':') == ["", ""] ==> text == ":"
  {
    JoinOfSplit(text, ':');
    assert Join(["", ""], ":") == ":" by {
      assert ["", ""][1..] == [""];
    }
  }

  /** The address a text denotes. Any text but a single colon is defined: on that one the program
      reads before the start of its token list. */
  function ParseText(text: string): Result<Address>
    requires text != ":"
  {
    var tokens := Split(text, ':');
    if |tokens| >= 2 then
      OnlyAColon(text);
      var groups :- ParseV6Tokens(Trimmed(tokens));
      Ok(V6(groups))
    else
      var octets :- ParseV4(text);
      Ok(V4(octets))
  }

  // ---- the program: V4 ----

  lemma {:induction false} OctetsOfPrefix(tokens: seq<string>, n: nat)
    requires n <= |tokens| && OctetsOf(tokens[..n]).InvalidArgument?
    ensures OctetsOf(tokens).InvalidArgument?
  {
    if n == |tokens| {
      assert tokens[..n] == tokens;
    } else {
      assert tokens[..|tokens| - 1][..n] == tokens[..n];
      OctetsOfPrefix(tokens[..|tokens| - 1], n);
    }
  }

  method ParseIPV4(ipString: string) returns (r: Result<Octets>)
    ensures r == ParseV4(ipString)
  {
    hide Split, NonEmpty, Numerals.ConvertFromString;
    var tokens := TokenizeString(ipString, '.', false);
    if |tokens| != 4 {
      return InvalidArgument;
    }
    var ip: Octets := [0, 0, 0, 0];
    for i := 0 to 4
      invariant OctetsOf(tokens[..i]) == Ok(ip[..i])
    {
      assert tokens[..i + 1][..i] == tokens[..i];
      var tokenValue := Numerals.ConvertFromString(tokens[i]);
      if tokenValue.InvalidArgument? || tokenValue.value > 0xFF {
        OctetsOfPrefix(tokens, i + 1);
        return InvalidArgument;
      }
      assert ip[i := tokenValue.value][..i + 1] == ip[..i] + [tokenValue.value];
      ip := ip[i := tokenValue.value];
    }
    assert tokens[..4] == tokens && ip[..4] == ip;
    r := Ok(ip);
  }

  // ---- the program: writing groups into slots ----

  /** A group shifted to its place in a word is the word with just that group. */
  lemma SlotWord(value: Group, i: nat)
    requires i < 4
    ensures Shl(value, 48 - i * 16, 64) == PackWord([0, 0, 0, 0][i := value])
  {
    hide Pow2, LowBits, Shl, Digits.Value;
    var g := [0, 0, 0, 0][i := value];
    Pow2Values();
    ShlIsScale(value, 16, 48 - i * 16, 64);
    FieldsAreDigits(g);
    ScaleZero(16);
    ScaleSum(value, 16, 16);
    ScaleSum(value, 32, 16);
  }

  lemma OrIntoWord(g: seq<nat>, value: Group, i: nat)
    requires |g| == 4 && Digits.InBase(g, 0x1_0000) && i < 4
    ensures Or(g[i], value) < 0x1_0000
    ensures Or(PackWord(g), Shl(value, 48 - i * 16, 64)) == PackWord(g[i := Or(g[i], value)])
  {
    var h := [0, 0, 0, 0][i := value];
    SlotWord(value, i);
    OrOfWords(g, h);
    assert OrEach(g, h) == g[i := Or(g[i], value)];
  }

  /** `packValue`: or one group into a slot of the packed address. */
  method PackValue(packedIP: PackedV6, value: Group, index: nat, ghost slots: Groups) returns (r: Result<PackedV6>)
    requires packedIP == PackV6(slots)
    ensures index >= 8 ==> r == InvalidArgument
    ensures index < 8 ==> Digits.InBase(WriteAt(slots, index, [value]), 0x1_0000)
    ensures index < 8 ==> r == Ok(PackV6(WriteAt(slots, index, [value])))
  {
    hide PackWord, Or, Shl, LowBits, Scale, Pow2;
    if index >= 8 {
      return InvalidArgument;
    }
    WriteInRange(slots, index, [value]);
    ghost var written := WriteAt(slots, index, [value]);
    if index < 4 {
      OrIntoWord(slots[..4], value, index);
      assert written[..4] == slots[..4][index := Or(slots[index], value)] && written[4..] == slots[4..];
      r := Ok(packedIP.(first := Or(packedIP.first, Shl(value, 48 - index * 16, 64))));
    } else {
      OrIntoWord(slots[4..], value, index - 4);
      assert written[4..] == slots[4..][index - 4 := Or(slots[index], value)] && written[..4] == slots[..4];
      r := Ok(packedIP.(second := Or(packedIP.second, Shl(value, 48 - (index - 4) * 16, 64))));
    }
  }

  /** Convert one token and or its groups in at `position`. */
  method PackToken(ip: PackedV6, token: string, position: nat, isIPv4: bool, ghost slots: Groups)
    returns (r: Result<PackedV6>)
    requires ip == PackV6(slots) && isIPv4 == LooksLikeV4(token)
    requires isIPv4 ==> position == 6
    ensures AfterItem(Pass(slots, position), ItemOf(token)).InvalidArgument? ==> r == InvalidArgument
    ensures ItemOf(token).groups.Ok? && position + ItemOf(token).width <= 8 ==>
      var written := WriteAt(slots, position, ItemOf(token).groups.value);
      Digits.InBase(written, 0x1_0000) && r == Ok(PackV6(written))
  {
    hide ParseV4, Numerals.ConvertFromString, PackV4, PackV6, Shr, And;
    if isIPv4 {
      var octets := ParseIPV4(token);
      if octets.InvalidArgument? {
        return InvalidArgument;
      }
      var ipv4 := PackOctets(octets.value);
      QuadHalves(octets.value);
      var high := PackValue(ip, Shr(ipv4, 16), position, slots);
      ghost var once: Groups := WriteAt(slots, position, [Shr(ipv4, 16)]);
      r := PackValue(high.value, And(ipv4, 0xFFFF), position + 1, once);
      assert WriteAt(once, position + 1, [And(ipv4, 0xFFFF)]) == WriteAt(slots, position, ItemOf(token).groups.value);
    } else {
      var tokenValue := Numerals.ConvertFromString("0x" + token);
      if tokenValue.InvalidArgument? {
        return InvalidArgument;
      }
      r := PackValue(ip, tokenValue.value, position, slots);
    }
  }

  lemma QuadHalves(o: Octets)
    ensures Shr(PackV4(o), 16) == o[0] * 0x100 + o[1] && And(PackV4(o), 0xFFFF) == o[2] * 0x100 + o[3]
  {
    ValueOfFour(o, 0x100);
    ShiftBy8And16(PackV4(o));
    QuotientIs(PackV4(o), 0x1_0000, o[0] * 0x100 + o[1], o[2] * 0x100 + o[3]);
  }

  // ---- the program: V6 ----

  /** What the first pass over the tokens finds out. */
  datatype Scan = Scan(emptyTokenCount: nat, emptyTokens: Option<(nat, Word64)>, isLastTokenIPv4: bool)

  /** One if the text ends in a dotted quad. */
  function Quads(tokens: seq<string>): nat {
    if tokens != [] && LooksLikeV4(tokens[|tokens| - 1]) then 1 else 0
  }

  ghost predicate ScanOf(tokens: seq<string>, i: nat, scan: Scan)
    requires i <= |tokens| && tokens != []
  {
    (scan.emptyTokenCount == 0 <==> scan.emptyTokens.None?) &&
    (scan.emptyTokenCount == 0 ==> forall j :: 0 <= j < i ==> tokens[j] != "") &&
    (scan.emptyTokenCount == 1 ==> EmptyOnlyAt(tokens[..i], scan.emptyTokens)) &&
    (scan.emptyTokenCount > 1 ==> exists j, k :: 0 <= j < k < i && tokens[j] == tokens[k] == "") &&
    (scan.emptyTokens.Some? ==> scan.emptyTokens.value.0 < i && tokens[scan.emptyTokens.value.0] == "") &&
    (forall j :: 0 <= j < i && j < |tokens| - 1 ==> !LooksLikeV4(tokens[j])) &&
    (scan.isLastTokenIPv4 <==> i == |tokens| && LooksLikeV4(tokens[|tokens| - 1]))
  }

  ghost predicate EmptyOnlyAt(tokens: seq<string>, found: Option<(nat, Word64)>) {
    found.Some? && OnlyEmptyAt(tokens, found.value.0)
  }

  /** A dotted quad takes one from the length of the zero run, in a `size_t`. */
  lemma ZeroRuns(n: nat)
    requires n < 0x1_0000_0000
    ensures ZeroRun(n, 0) == (8 - n + 1) % 0x1_0000_0000_0000_0000
    ensures ZeroRun(n, 1) == (ZeroRun(n, 0) - 1) % 0x1_0000_0000_0000_0000
  {
  }

  /** First pass: find the empty tokens and the dotted quad. */
  method ScanTokens(tokensV6: seq<string>) returns (r: Result<Scan>)
    requires tokensV6 != [] && |tokensV6| < 0x1_0000_0000
    ensures r.Ok? <==> QuadOnlyLast(tokensV6)
    ensures r.Ok? ==> ScanOf(tokensV6, |tokensV6|, r.value)
    ensures r.Ok? && r.value.emptyTokens.Some? ==> r.value.emptyTokens.value.1 == ZeroRun(|tokensV6|, Quads(tokensV6))
  {
    hide ZeroRun;
    ZeroRuns(|tokensV6|);
    var scan := Scan(0, None, false);
    var n := |tokensV6|;
    for i := 0 to n
      invariant ScanOf(tokensV6, i, scan)
      invariant scan.emptyTokens.Some? ==>
        scan.emptyTokens.value.1 == ZeroRun(n, if i == n then Quads(tokensV6) else 0)
    {
      var token := tokensV6[i];
      if token == "" {
        scan := scan.(emptyTokenCount := scan.emptyTokenCount + 1,
                      emptyTokens := Some((i, (8 - n + 1) % 0x1_0000_0000_0000_0000)));
      }
      if '.' in token {
        if i == n - 1 {
          scan := scan.(isLastTokenIPv4 := true);
          if scan.emptyTokens.Some? {
            scan := scan.(emptyTokens := Some((scan.emptyTokens.value.0,
                                               (scan.emptyTokens.value.1 - 1) % 0x1_0000_0000_0000_0000)));
          }
        } else {
          return InvalidArgument;
        }
      }
    }
    r := Ok(scan);
  }

  // ---- the second pass ----

  lemma {:induction false} WidthOfItems(tokens: seq<string>)
    requires QuadOnlyLast(tokens)
    ensures Width(Items(tokens)) == |tokens| + Quads(tokens)
  {
    if tokens != [] {
      var front := tokens[..|tokens| - 1];
      assert Items(tokens)[..|tokens| - 1] == Items(front);
      assert QuadOnlyLast(front) && Quads(front) == 0;
      WidthOfItems(front);
    }
  }

  /** The first pass establishes what the second one needs. */
  lemma ScanIsEnough(tokens: seq<string>, at: nat, run: Word64)
    requires QuadOnlyLast(tokens) && |tokens| < 0x1_0000_0000 && at <= |tokens|
    requires if at < |tokens| then OnlyEmptyAt(tokens, at) && run == ZeroRun(|tokens|, Quads(tokens))
             else |tokens| + Quads(tokens) == 8
    ensures Scanned(Items(tokens), at, run)
  {
    ItemsAreValid(tokens);
    if at == |tokens| {
      WidthOfItems(tokens);
    } else {
      var before, after := tokens[..at], tokens[at + 1..];
      assert Items(tokens)[..at] == Items(before) && Items(tokens)[at + 1..] == Items(after);
      assert forall i :: 0 <= i < |after| ==> after[i] == tokens[at + 1 + i];
      assert QuadOnlyLast(before) && QuadOnlyLast(after);
      assert Quads(before) == 0 && Quads(after) == Quads(tokens);
      WidthOfItems(before);
      WidthOfItems(after);
      assert QuadCount(Items(tokens), at, Quads(tokens));
    }
  }

  /** Second pass: convert the tokens and pack their groups. The position ends at eight. */
  method PackTokens(tokensV6: seq<string>, emptyTokens: Option<(nat, Word64)>, isLastTokenIPv4: bool,
                    ghost at: nat, ghost run: Word64)
    returns (r: Result<PackedV6>, packPosition: nat)
    requires tokensV6 != [] && QuadOnlyLast(tokensV6) && Scanned(Items(tokensV6), at, run)
    requires isLastTokenIPv4 <==> LooksLikeV4(tokensV6[|tokensV6| - 1])
    requires emptyTokens == if at < |tokensV6| then Some((at, run)) else None
    requires at < |tokensV6| ==> tokensV6[at] == ""
    ensures r.InvalidArgument? <==> Packed(Items(tokensV6), at).InvalidArgument?
    ensures r.Ok? ==> Digits.InBase(Packed(Items(tokensV6), at).value, 0x1_0000)
    ensures r.Ok? ==> r.value == PackV6(Packed(Items(tokensV6), at).value) && packPosition == 8
  {
    hide ItemOf, PackV6, PassUpTo, Packed, Scanned, WriteAt;
    var n := |tokensV6|;
    ghost var items := Items(tokensV6);
    var ip := PackedV6(0, 0);
    ghost var pass := START;
    packPosition := 0;
    EmptySlots();
    PassStart(items, at, run);
    WholePass(items, at, run);
    for i := 0 to n
      invariant Digits.InBase(pass.slots, 0x1_0000) && ip == PackV6(pass.slots) && packPosition == pass.position
      invariant PassUpTo(items, at, run, i) == Ok(pass)
    {
      PassStep(items, at, run, i, pass);
      ItemShape(tokensV6, i);
      if emptyTokens.Some? && i == emptyTokens.value.0 {
        packPosition := (packPosition + emptyTokens.value.1 % 0x1_0000_0000) % 0x1_0000_0000;
        pass := AfterEmpty(pass, run);
        continue;
      }
      if i == n - 1 && isLastTokenIPv4 {
        QuadPosition(items, at, run);
        assert packPosition == 8 - 2;
      }
      var packed := PackToken(ip, tokensV6[i], packPosition, i == n - 1 && isLastTokenIPv4, pass.slots);
      if packed.InvalidArgument? {
        StaysInvalid(items, at, run, i + 1, n);
        return InvalidArgument, packPosition;
      }
      ip := packed.value;
      pass := AfterItem(pass, items[i]).value;
      packPosition := packPosition + (if i == n - 1 && isLastTokenIPv4 then 2 else 1);
    }
    r := Ok(ip);
  }

  lemma ItemShape(tokens: seq<string>, i: nat)
    requires i < |tokens|
    ensures Items(tokens)[i].Valid() && Items(tokens)[i].width == if LooksLikeV4(tokens[i]) then 2 else 1
  {
  }

  lemma EmptySlots()
    ensures PackV6([0, 0, 0, 0, 0, 0, 0, 0]) == PackedV6(0, 0)
  {
    WordOfGroups([0, 0, 0, 0]);
    assert [0, 0, 0, 0, 0, 0, 0, 0][..4] == [0, 0, 0, 0] && [0, 0, 0, 0, 0, 0, 0, 0][4..] == [0, 0, 0, 0];
  }

  lemma FirstEmptyIs(tokens: seq<string>, at: nat)
    requires at <= |tokens| && (at < |tokens| ==> tokens[at] == "")
    requires forall i :: 0 <= i < at ==> tokens[i] != ""
    ensures FirstEmpty(tokens) == at
  {
  }

  lemma TwoEmptyTokens(tokens: seq<string>, j: nat, k: nat)
    requires j < k < |tokens| && tokens[j] == tokens[k] == ""
    ensures ParseV6Tokens(tokens).InvalidArgument?
  {
    var at := FirstEmpty(tokens);
    assert !OnlyEmptyAt(tokens, at);
  }

  /** The V6 branch of the string constructor, from the trimmed tokens on. */
  method ParseIPV6(tokensV6: seq<string>) returns (r: Result<Groups>)
    requires tokensV6 != [] && |tokensV6| < 0x1_0000_0000
    ensures r == ParseV6Tokens(tokensV6)
  {
    var scanned := ScanTokens(tokensV6);
    if scanned.InvalidArgument? {
      return InvalidArgument;
    }
    var scan := scanned.value;
    assert tokensV6[..|tokensV6|] == tokensV6;
    if scan.emptyTokenCount > 1 {
      ghost var j, k :| 0 <= j < k < |tokensV6| && tokensV6[j] == tokensV6[k] == "";
      TwoEmptyTokens(tokensV6, j, k);
      return InvalidArgument;
    }
    ghost var at := if scan.emptyTokens.Some? then scan.emptyTokens.value.0 else |tokensV6|;
    ghost var run := if scan.emptyTokens.Some? then scan.emptyTokens.value.1 else 0;
    WidthOfItems(tokensV6);
    FirstEmptyIs(tokensV6, at);
    if scan.emptyTokens.None? {
      if !scan.isLastTokenIPv4 && |tokensV6| != 8 {
        return InvalidArgument;
      }
      if scan.isLastTokenIPv4 && |tokensV6| != 8 - 1 {
        return InvalidArgument;
      }
    }
    ScanIsEnough(tokensV6, at, run);
    var ip, packPosition := PackTokens(tokensV6, scan.emptyTokens, scan.isLastTokenIPv4, at, run);
    if ip.InvalidArgument? {
      return InvalidArgument;
    }
    var groups := UnpackGroups(ip.value);
    UnpackOfPackV6(Packed(Items(tokensV6), at).value);
    r := Ok(groups);
  }

  /** The string constructor. Only a single colon is outside its domain. */
  method ParseAddress(ipString: string) returns (r: Result<Address>)
    requires ipString != ":" && |ipString| < 0xFFFF_FFFF
    ensures r == ParseText(ipString)
  {
    hide Split, ParseV6Tokens, ParseV4;
    var tokensV6 := TokenizeString(ipString, ':', true);
    if |tokensV6| >= 2 {
      OnlyAColon(ipString);
      SplitLength(ipString, ':');
      if tokensV6[0] == "" && tokensV6[1] == "" {
        tokensV6 := tokensV6[1..];
      }
      if tokensV6[|tokensV6| - 1] == "" && tokensV6[|tokensV6| - 2] == "" {
        tokensV6 := tokensV6[..|tokensV6| - 1];
      }
      var groups := ParseIPV6(tokensV6);
      if groups.InvalidArgument? {
        return InvalidArgument;
      }
      r := Ok(V6(groups.value));
    } else {
      var octets := ParseIPV4(ipString);
      if octets.InvalidArgument? {
        return InvalidArgument;
      }
      r := Ok(V4(octets.value));
    }
  }

  lemma {:induction false} SplitLength(s: string, separator: char)
    ensures |Split(s, separator)| <= |s| + 1
  {
    if s != [] {
      SplitLength(s[1..], separator);
    }
  }
}
