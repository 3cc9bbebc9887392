/** Writing an address as text. */
module Printer {
  import opened Common
  import opened Words
  import opened Addresses
  import opened Tokens
  import Numerals

  // ---- zero runs ----

  /** A run of `len` zero groups from `start` on. */
  datatype Run = Run(start: nat, len: nat)

  predicate IsZeroRun(g: Groups, run: Run) {
    run.start + run.len <= 8 && forall i :: run.start <= i < run.start + run.len ==> g[i] == 0
  }

  /** Section 4.2 of RFC 5952: the longest run of zero groups, the first of several, and no run of one. */
  ghost predicate IsShortened(g: Groups, choice: Option<Run>) {
    match choice
    case None => forall run :: IsZeroRun(g, run) ==> run.len < 2
    case Some(best) =>
      best.len >= 2 && IsZeroRun(g, best) &&
      forall run :: IsZeroRun(g, run) && run.len >= 1 ==>
        run.len < best.len || (run.len == best.len && best.start <= run.start)
  }

  /** At most one choice is right. */
  lemma ShortenedIsUnique(g: Groups, x: Option<Run>, y: Option<Run>)
    requires IsShortened(g, x) && IsShortened(g, y)
    ensures x == y
  {
    if x.Some? && y.Some? {
      assert IsZeroRun(g, x.value) && IsZeroRun(g, y.value);
    }
  }

  /** The best run among those that begin at `i` or later: the longest, and of several the first. */
  function BestFrom(g: Groups, i: nat): (best: Run)
    requires i <= 8
    ensures i <= best.start && best.start + best.len <= 8 && IsZeroRun(g, best)
    decreases 8 - i
  {
    if i == 8 then Run(8, 0)
    else
      var here, later := Run(i, ZerosAt(g, i)), BestFrom(g, i + 1);
      if here.len > 0 && here.len >= later.len then here else later
  }

  /** How many groups from `i` on are zero. */
  function ZerosAt(g: Groups, i: nat): (n: nat)
    requires i <= 8
    ensures i + n <= 8 && (forall k :: i <= k < i + n ==> g[k] == 0) && (i + n < 8 ==> g[i + n] != 0)
    decreases 8 - i
  {
    if i == 8 || g[i] != 0 then 0 else 1 + ZerosAt(g, i + 1)
  }

  function Shortened(g: Groups): Option<Run> {
    var best := BestFrom(g, 0);
    if best.len < 2 then None else Some(best)
  }

  lemma {:induction false} BestIsBest(g: Groups, i: nat, run: Run)
    requires i <= 8 && i <= run.start && IsZeroRun(g, run) && run.len >= 1
    ensures var best := BestFrom(g, i);
      run.len < best.len || (run.len == best.len && best.start <= run.start)
    decreases 8 - i
  {
    assert i < 8;
    hide ZerosAt, IsZeroRun;
    if i == run.start {
      ZerosAtLeast(g, run);
    } else {
      BestIsBest(g, i + 1, run);
    }
  }

  lemma ZerosAtLeast(g: Groups, run: Run)
    requires IsZeroRun(g, run)
    ensures ZerosAt(g, run.start) >= run.len
  {
  }

  lemma ShortenedIsRight(g: Groups)
    ensures IsShortened(g, Shortened(g))
  {
    forall run | IsZeroRun(g, run) && run.len >= 1
      ensures var best := BestFrom(g, 0);
        run.len < best.len || (run.len == best.len && best.start <= run.start)
    {
      BestIsBest(g, 0, run);
    }
  }

  // ---- the text ----

  function Dec(n: nat): string {
    Numerals.Numeral(n, 10)
  }

  function Hex(n: nat): string {
    Numerals.Numeral(n, 16)
  }

  function Decimals(numbers: seq<nat>): seq<string> {
    seq(|numbers|, i requires 0 <= i < |numbers| => Dec(numbers[i]))
  }

  function Hexes(groups: seq<nat>): seq<string> {
    seq(|groups|, i requires 0 <= i < |groups| => Hex(groups[i]))
  }

  function TextV4(o: Octets): string {
    Join(Decimals(o), ".")
  }

  /** The last two groups as a dotted quad. */
  function Quad(g: Groups): string {
    Join(Decimals([g[6] / 0x100, g[6] % 0x100, g[7] / 0x100, g[7] % 0x100]), ".")
  }

  /** The texts of the groups from `start` on; a V4 address is written as such if both of its groups
      are among them. */
  function TailTexts(g: Groups, start: nat, embedded: bool): seq<string>
    requires start <= 8
  {
    if embedded && start <= 6 then Hexes(g[start..6]) + [Quad(g)] else Hexes(g[start..])
  }

  function TextWith(g: Groups, run: Option<Run>, embedded: bool): string
    requires run.Some? ==> run.value.start + run.value.len <= 8
  {
    match run
    case None => Join(TailTexts(g, 0, embedded), ":")
    case Some(r) => Join(Hexes(g[..r.start]), ":") + "::" + Join(TailTexts(g, r.start + r.len, embedded), ":")
  }

  predicate IsEmbedded(g: Groups) {
    IsCompatible(V6(g)) || IsMapped(V6(g))
  }

  function TextV6(g: Groups): string {
    TextWith(g, Shortened(g), IsEmbedded(g))
  }

  /** What an address is printed as; the text of no address is only ever that of the default one. */
  function Text(a: Address): string {
    match a
    case NoAddress => "Invalid IP"
    case V4(octets) => TextV4(octets)
    case V6(groups) => TextV6(groups)
  }

  // ---- the program ----

  method BuildIPV4String(ipv4: Octets) returns (ip: string)
    ensures ip == TextV4(ipv4)
  {
    ip := "";
    for i := 0 to 4
      invariant ip == Join(Decimals(ipv4[..i]), ".")
      invariant i > 0 ==> ip != ""
    {
      assert Decimals(ipv4[..i + 1]) == Decimals(ipv4[..i]) + [Dec(ipv4[i])];
      JoinAppend(Decimals(ipv4[..i]), Dec(ipv4[i]), ".");
      if ip != "" {
        ip := ip + ".";
      }
      ip := ip + Dec(ipv4[i]);
    }
    assert ipv4[..4] == ipv4;
  }

  /** First pass of the V6 printer: keep the longest run seen, replacing it only by a longer one. */
  method FindLongestZeroRun(ipv6: Groups) returns (longest: Option<Run>)
    ensures longest == Shortened(ipv6)
  {
    hide Shortened, IsShortened, IsZeroRun, OpenRun, BestBefore;
    longest := None;
    var current: Option<Run> := None;
    NoRunYet(ipv6);
    for i := 0 to 8
      invariant current.Some? ==> OpenRun(ipv6, i, current.value)
      invariant current.None? ==> i == 0 || ipv6[i - 1] != 0
      invariant BestBefore(ipv6, if current.Some? then current.value.start else i, longest)
    {
      if ipv6[i] == 0 {
        ContinueRun(ipv6, i, current);
        if current.None? {
          current := Some(Run(i, 0));
        }
        current := Some(current.value.(len := current.value.len + 1));
      } else {
        CloseRun(ipv6, i, current, longest);
        if current.Some? && (longest.None? || current.value.len > longest.value.len) {
          longest := current;
        }
        current := None;
        NothingEndsAt(ipv6, i, longest);
      }
    }
    CloseRun(ipv6, 8, current, longest);
    if current.Some? && (longest.None? || current.value.len > longest.value.len) {
      longest := current;
    }
    BestOfAll(ipv6, longest);
    if longest.Some? && longest.value.len == 1 {
      longest := None;
    }
    ShortenedIsRight(ipv6);
    ShortenedIsUnique(ipv6, longest, Shortened(ipv6));
  }

  /** `run` is the run that ends just before `i`. */
  ghost predicate OpenRun(g: Groups, i: nat, run: Run) {
    run.start + run.len == i <= 8 && run.len >= 1 && IsZeroRun(g, run) && (run.start > 0 ==> g[run.start - 1] != 0)
  }

  /** `longest` is the best of the runs that end at `limit` or before. */
  ghost predicate BestBefore(g: Groups, limit: nat, longest: Option<Run>) {
    (longest.Some? ==>
      longest.value.len >= 1 && IsZeroRun(g, longest.value) && longest.value.start + longest.value.len <= limit) &&
    forall run :: IsZeroRun(g, run) && run.len >= 1 && run.start + run.len <= limit ==>
      longest.Some? && NoBetter(run, longest.value)
  }

  predicate NoBetter(run: Run, best: Run) {
    run.len < best.len || (run.len == best.len && best.start <= run.start)
  }

  lemma NoRunYet(g: Groups)
    ensures BestBefore(g, 0, None)
  {
  }

  lemma ContinueRun(g: Groups, i: nat, current: Option<Run>)
    requires i < 8 && g[i] == 0
    requires current.Some? ==> OpenRun(g, i, current.value)
    requires current.None? ==> i == 0 || g[i - 1] != 0
    ensures OpenRun(g, i + 1, if current.Some? then current.value.(len := current.value.len + 1) else Run(i, 1))
  {
  }

  /** No run ends just behind a group that is not zero. */
  lemma NothingEndsAt(g: Groups, i: nat, longest: Option<Run>)
    requires i < 8 && g[i] != 0 && BestBefore(g, i, longest)
    ensures BestBefore(g, i + 1, longest)
  {
    var here := g[i];
    forall run | IsZeroRun(g, run) && run.len >= 1
      ensures run.start + run.len != i + 1
    {
      assert run.start + run.len == i + 1 ==> here == 0;
    }
  }

  lemma BestOfAll(g: Groups, longest: Option<Run>)
    requires BestBefore(g, 8, longest)
    ensures IsShortened(g, if longest.Some? && longest.value.len == 1 then None else longest)
  {
    hide IsZeroRun;
    assert forall run :: IsZeroRun(g, run) ==> run.start + run.len <= 8 by {
      WithinEight(g);
    }
  }

  lemma WithinEight(g: Groups)
    ensures forall run :: IsZeroRun(g, run) ==> run.start + run.len <= 8
  {
  }

  lemma CloseRun(g: Groups, i: nat, current: Option<Run>, longest: Option<Run>)
    requires i <= 8
    requires current.Some? ==> OpenRun(g, i, current.value)
    requires current.None? ==> i == 0 || g[i - 1] != 0
    requires BestBefore(g, if current.Some? then current.value.start else i, longest)
    ensures BestBefore(g, i,
      if current.Some? && (longest.None? || current.value.len > longest.value.len) then current else longest)
  {
    if current.Some? {
      var open := current.value;
      var before := if open.start > 0 then g[open.start - 1] else 1;
      forall run | IsZeroRun(g, run) && run.len >= 1 && open.start < run.start + run.len <= i
        ensures open.start <= run.start && run.len <= open.len
      {
        assert run.start < open.start ==> before == 0;
      }
    } else {
      var before := if i > 0 then g[i - 1] else 1;
      forall run | IsZeroRun(g, run) && run.len >= 1
        ensures run.start + run.len != i
      {
        assert run.start + run.len == i ==> before == 0;
      }
    }
  }

  /** Second pass: write the groups, with `::` for the chosen run. */
  method WriteGroups(ipv6: Groups, run: Option<Run>, displayAsEmbeddedIPV4: bool) returns (ss: string)
    requires run.Some? ==> run.value.len >= 2 && run.value.start + run.value.len <= 8
    ensures ss == TextWith(ipv6, run, displayAsEmbeddedIPV4)
  {
    var mustAppendColon := false;
    ss := "";
    var i := 0;
    while i < 8
      invariant i <= 8
      invariant Written(ipv6, run, i, ss, mustAppendColon)
      invariant displayAsEmbeddedIPV4 && i > 6 ==> run.Some? && run.value.start <= 6 < run.value.start + run.value.len
    {
      if run.Some? && i == run.value.start {
        BeginRun(ipv6, run.value, ss, mustAppendColon);
        ss := ss + "::";
        i := i + (run.value.len - 1);
        mustAppendColon := false;
        i := i + 1;
        continue;
      }
      ghost var before, colon := ss, mustAppendColon;
      if !mustAppendColon {
        mustAppendColon := true;
      } else {
        ss := ss + ":";
      }
      if displayAsEmbeddedIPV4 && i == 8 - 2 {
        var high, low := Shr(ipv6[6], 8), Shr(ipv6[7], 8);
        QuadParts(ipv6);
        ss := ss + (Dec(high) + "." + Dec(And(ipv6[6], 0xFF)) + "." + Dec(low) + "." + Dec(And(ipv6[7], 0xFF)));
        EndInQuad(ipv6, run, before, colon);
        return;
      }
      WriteGroup(ipv6, run, i, before, colon);
      ss := ss + Hex(ipv6[i]);
      i := i + 1;
    }
    EndInGroup(ipv6, run, displayAsEmbeddedIPV4, ss, mustAppendColon);
  }

  /** The groups before `i` have been written. */
  ghost predicate Written(g: Groups, run: Option<Run>, i: nat, ss: string, mustAppendColon: bool)
    requires run.Some? ==> run.value.start + run.value.len <= 8
    requires i <= 8
  {
    if run.None? || i <= run.value.start
    then ss == Join(Hexes(g[..i]), ":") && (mustAppendColon <==> i > 0)
    else
      var end := run.value.start + run.value.len;
      end <= i && (mustAppendColon <==> i > end) &&
      ss == Join(Hexes(g[..run.value.start]), ":") + "::" + Join(Hexes(g[end..i]), ":")
  }

  lemma HexesAppend(g: Groups, from: nat, i: nat)
    requires from <= i < 8
    ensures Join(Hexes(g[from..i + 1]), ":")
         == if from == i then Hex(g[i]) else Join(Hexes(g[from..i]), ":") + ":" + Hex(g[i])
  {
    assert Hexes(g[from..i + 1]) == Hexes(g[from..i]) + [Hex(g[i])];
    JoinAppend(Hexes(g[from..i]), Hex(g[i]), ":");
  }

  lemma WriteGroup(g: Groups, run: Option<Run>, i: nat, ss: string, colon: bool)
    requires run.Some? ==> run.value.start + run.value.len <= 8 && i != run.value.start
    requires i < 8 && Written(g, run, i, ss, colon)
    ensures Written(g, run, i + 1, (if colon then ss + ":" else ss) + Hex(g[i]), true)
  {
    hide Join;
    if run.None? || i < run.value.start {
      HexesAppend(g, 0, i);
      assert g[0..i] == g[..i] && g[0..i + 1] == g[..i + 1];
      EmptyJoin();
    } else {
      HexesAppend(g, run.value.start + run.value.len, i);
      EmptyJoin();
    }
  }

  lemma EmptyJoin()
    ensures Join(Hexes([]), ":") == ""
  {
  }

  lemma BeginRun(g: Groups, run: Run, ss: string, colon: bool)
    requires run.len >= 1 && run.start + run.len <= 8 && Written(g, Some(run), run.start, ss, colon)
    ensures Written(g, Some(run), run.start + run.len, ss + "::", false)
  {
    var end := run.start + run.len;
    assert g[end..end] == [];
    EmptyJoin();
  }

  lemma EndInQuad(g: Groups, run: Option<Run>, ss: string, colon: bool)
    requires run.Some? ==> run.value.len >= 2 && run.value.start + run.value.len <= 8 && run.value.start != 6
    requires Written(g, run, 6, ss, colon)
    ensures (if colon then ss + ":" else ss) + Quad(g) == TextWith(g, run, true)
  {
    hide Join, Quad;
    EmptyJoin();
    if run.None? {
      JoinAppend(Hexes(g[0..6]), Quad(g), ":");
      assert g[0..6] == g[..6];
    } else {
      JoinAppend(Hexes(g[run.value.start + run.value.len..6]), Quad(g), ":");
    }
  }

  lemma EndInGroup(g: Groups, run: Option<Run>, embedded: bool, ss: string, colon: bool)
    requires run.Some? ==> run.value.len >= 2 && run.value.start + run.value.len <= 8
    requires embedded ==> run.Some? && run.value.start <= 6 < run.value.start + run.value.len
    requires Written(g, run, 8, ss, colon)
    ensures ss == TextWith(g, run, embedded)
  {
    assert g[..8] == g[0..] && (run.Some? ==> var end := run.value.start + run.value.len; g[end..8] == g[end..]);
  }

  lemma QuadParts(g: Groups)
    ensures Shr(g[6], 8) < 0x100 && Shr(g[7], 8) < 0x100
    ensures Quad(g)
         == Dec(Shr(g[6], 8)) + "." + Dec(And(g[6], 0xFF)) + "." + Dec(Shr(g[7], 8)) + "." + Dec(And(g[7], 0xFF))
  {
    ShiftBy8And16(g[6]);
    ShiftBy8And16(g[7]);
    JoinFour(Dec(g[6] / 0x100), Dec(g[6] % 0x100), Dec(g[7] / 0x100), Dec(g[7] % 0x100));
    assert Decimals([g[6] / 0x100, g[6] % 0x100, g[7] / 0x100, g[7] % 0x100])
        == [Dec(g[6] / 0x100), Dec(g[6] % 0x100), Dec(g[7] / 0x100), Dec(g[7] % 0x100)];
  }

  lemma {:induction false} JoinFour(a: string, b: string, c: string, d: string)
    ensures Join([a, b, c, d], ".") == a + "." + b + "." + c + "." + d
  {
    JoinAppend([a, b, c], d, ".");
    JoinAppend([a, b], c, ".");
    JoinAppend([a], b, ".");
    assert [a, b, c, d] == [a, b, c] + [d] && [a, b, c] == [a, b] + [c] && [a, b] == [a] + [b];
  }

  method BuildIPV6String(ipv6: Groups, packedIP: PackedV6, displayAsEmbeddedIPV4: bool) returns (text: string)
    requires packedIP == PackV6(ipv6)
    ensures text == TextWith(ipv6, Shortened(ipv6), displayAsEmbeddedIPV4)
  {
    if packedIP.first == 0 && packedIP.second == 0 {
      ZeroAddress(ipv6, displayAsEmbeddedIPV4);
      return "::";
    }
    if packedIP.first == 0 && packedIP.second == 1 {
      LoopbackAddress(ipv6, displayAsEmbeddedIPV4);
      return "::1";
    }
    var longestZeroSeq := FindLongestZeroRun(ipv6);
    text := WriteGroups(ipv6, longestZeroSeq, displayAsEmbeddedIPV4);
  }

  /** The special case for the unspecified address is what the general algorithm would print. */
  lemma ZeroAddress(g: Groups, embedded: bool)
    requires PackV6(g) == PackedV6(0, 0)
    ensures TextWith(g, Shortened(g), embedded) == "::"
  {
    WordOfGroups(g[..4]);
    WordOfGroups(g[4..]);
    ShortenedIsRight(g);
    ShortenedIsUnique(g, Shortened(g), Some(Run(0, 8)));
    assert g[..0] == [] && g[8..] == [];
    EmptyJoin();
  }

  /** So is the special case for the loopback address. */
  lemma LoopbackAddress(g: Groups, embedded: bool)
    requires PackV6(g) == PackedV6(0, 1)
    ensures TextWith(g, Shortened(g), embedded) == "::1"
  {
    WordOfGroups(g[..4]);
    WordOfGroups(g[4..]);
    ShortenedIsRight(g);
    ShortenedIsUnique(g, Shortened(g), Some(Run(0, 7)));
    assert g[..0] == [] && g[7..] == [1];
    EmptyJoin();
    assert Hex(1) == "1" && Hexes([1]) == ["1"];
  }
}
