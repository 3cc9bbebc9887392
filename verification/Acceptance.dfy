/** Exactly which texts the string constructor accepts, and which of them are forms of RFC 4291. */
module Acceptance {
  import opened Common
  import opened Addresses
  import opened Tokens
  import opened Packing
  import opened Parser
  import opened TextForms

  // ---- V6 ----

  /** Eight groups, of which the last two may be a dotted quad. */
  ghost predicate EightGroups(text: string, groups: Groups) {
    exists texts :: Tokenized(texts, groups) && text == Join(texts, ":")
  }

  /** Groups on both sides of a gap, at most eight on each; where both reach a slot they are or-ed. */
  ghost predicate GroupsAroundGap(text: string, groups: Groups) {
    exists left, right, gl, gr :: Around(text, groups, left, right, gl, gr)
  }

  ghost predicate Around(text: string, groups: Groups, left: seq<string>, right: seq<string>,
                         gl: seq<nat>, gr: seq<nat>)
  {
    Tokenized(left, gl) && Tokenized(right, gr) && (forall i :: 0 <= i < |left| ==> !LooksLikeV4(left[i])) &&
    |gl| <= 8 && |gr| <= 8 && groups == Overlay(gl, gr, 8 - |gr|) && GapText(text, left, right)
  }

  /** The gap is `::`, or a single colon at the start or at the end. */
  predicate GapText(text: string, left: seq<string>, right: seq<string>) {
    text == Join(left, ":") + "::" + Join(right, ":") ||
    (left == [] && right != [] && text == ":" + Join(right, ":")) ||
    (right == [] && left != [] && text == Join(left, ":") + ":")
  }

  // ---- the tokens of a text with a gap ----

  lemma SplitColon()
    ensures Split(":", ':') == ["", ""]
  {
    assert ":"[1..] == "";
  }

  lemma ColonAtEnd(left: seq<string>)
    requires left != [] && Solid(left)
    ensures var text := Join(left, ":") + ":";
      text != ":" && |Split(text, ':')| >= 2 && Split(text, ':') != ["", ""] &&
      Trimmed(Split(text, ':')) == left + [""]
  {
    var pieces := left + [""];
    LastColon(left);
    SplitOfJoin(pieces, ':');
    assert pieces[0] == left[0] && pieces[|pieces| - 2] == left[|left| - 1];
    SplitColon();
  }

  lemma ColonAtStart(right: seq<string>)
    requires right != [] && Solid(right)
    ensures var text := ":" + Join(right, ":");
      text != ":" && |Split(text, ':')| >= 2 && Split(text, ':') != ["", ""] &&
      Trimmed(Split(text, ':')) == [""] + right
  {
    var pieces := [""] + right;
    FirstColon(right);
    SplitOfJoin(pieces, ':');
    assert pieces[1] == right[0] && pieces[|pieces| - 1] == right[|right| - 1];
    SplitColon();
  }

  lemma GapIsTrimmed(text: string, left: seq<string>, right: seq<string>)
    requires Solid(left) && Solid(right) && GapText(text, left, right)
    ensures text != ":" && |Split(text, ':')| >= 2 && Split(text, ':') != ["", ""]
    ensures Trimmed(Split(text, ':')) == left + [""] + right
  {
    hide Split, Trimmed, Join;
    if text == Join(left, ":") + "::" + Join(right, ":") {
      CompressedTokens(left, right);
    } else if left == [] {
      ColonAtStart(right);
    } else {
      ColonAtEnd(left);
    }
    OnlyAColon(text);
  }

  /** A text whose trimmed tokens have one empty one is a text with a gap there. */
  lemma TrimmedIsGap(text: string, at: nat)
    requires |Split(text, ':')| >= 2 && Split(text, ':') != ["", ""]
    requires OnlyEmptyAt(Trimmed(Split(text, ':')), at)
    ensures var t := Trimmed(Split(text, ':'));
      Solid(t[..at]) && Solid(t[at + 1..]) && GapText(text, t[..at], t[at + 1..])
  {
    hide Split, Join, Trimmed, AroundDouble, FirstEmpty;
    var tokens := Split(text, ':');
    var t := Trimmed(tokens);
    var left, right := t[..at], t[at + 1..];
    JoinOfSplit(text, ':');
    TrimmedKeeps(tokens);
    EdgeTokens(tokens, at);
    if tokens == AroundDouble(left, right) {
      DoubleColon(left, right);
    } else if at == 0 && tokens == [""] + right {
      FirstColon(right);
    } else {
      LastColon(left);
    }
  }

  lemma TrimmedKeeps(tokens: seq<string>)
    requires |tokens| >= 2 && tokens != ["", ""]
    ensures var t := Trimmed(tokens);
      (forall i :: 0 <= i < |t| ==> t[i] in tokens) && (t == tokens || "" in t)
  {
    var t := Trimmed(tokens);
    var front := if tokens[0] == "" && tokens[1] == "" then tokens[1..] else tokens;
    assert front != tokens ==> t[0] == "";
    assert front != t ==> t[|t| - 1] == "";
  }

  lemma FirstColon(right: seq<string>)
    requires right != []
    ensures Join([""] + right, ":") == ":" + Join(right, ":")
  {
    JoinConcatenation([""], right, ":");
    SingleJoin("");
  }

  lemma LastColon(left: seq<string>)
    requires left != []
    ensures Join(left + [""], ":") == Join(left, ":") + ":"
  {
    JoinAppend(left, "", ":");
  }

  lemma SingleJoin(piece: string)
    ensures Join([piece], ":") == piece
  {
  }

  lemma DoubleColon(left: seq<string>, right: seq<string>)
    ensures Join(AroundDouble(left, right), ":") == Join(left, ":") + "::" + Join(right, ":")
  {
    JoinAround(if left == [] then [""] else left, if right == [] then [""] else right);
  }

  /** If the tokens are not those of a `::`, the gap is at one end. */
  lemma EdgeTokens(tokens: seq<string>, at: nat)
    requires |tokens| >= 2 && tokens != ["", ""] && OnlyEmptyAt(Trimmed(tokens), at)
    ensures var t := Trimmed(tokens);
      tokens == AroundDouble(t[..at], t[at + 1..])
      || (at == 0 && t[1..] != [] && tokens == [""] + t[1..])
      || (at == |t| - 1 && t[..at] != [] && tokens == t[..at] + [""])
  {
    var t := Trimmed(tokens);
    var left, right := t[..at], t[at + 1..];
    var front := if tokens[0] == "" && tokens[1] == "" then tokens[1..] else tokens;
    assert t == left + [""] + right;
    assert front != tokens ==> t[0] == "" && tokens == [""] + front;
    assert front != t ==> t[|t| - 1] == "" && front == t + [""];
    if front == tokens && front == t {
      if left != [] && right != [] {
        assert tokens == AroundDouble(left, right);
      }
    } else if front != tokens && front == t {
      assert right == [] ==> tokens == ["", ""];
    } else if front == tokens && front != t {
      assert left == [] ==> tokens == ["", ""];
    } else {
      assert |t| == 1 && tokens == ["", "", ""];
    }
  }

  // ---- exactly the accepted texts ----

  lemma NoGap(text: string, groups: Groups)
    requires |Split(text, ':')| >= 2 && Split(text, ':') != ["", ""]
    requires var t := Trimmed(Split(text, ':')); FirstEmpty(t) == |t| && ParseV6Tokens(t) == Ok(groups)
    ensures EightGroups(text, groups)
  {
    hide ItemOf, Split, Overlay, Trimmed;
    var tokens := Split(text, ':');
    var t := Trimmed(tokens);
    JoinOfSplit(text, ':');
    TrimmedKeeps(tokens);
    assert forall i :: 0 <= i < |t| ==> t[i] != "";
    var items := Items(t);
    ItemsAreValid(t);
    GatherInRange(items);
    var all := Gather(items).value;
    PlaceIsConcatenation(all, []);
    assert all + Zeros(0) + [] == all;
    assert Tokenized(t, groups);
  }

  lemma Gap(text: string, groups: Groups)
    requires |Split(text, ':')| >= 2 && Split(text, ':') != ["", ""]
    requires var t := Trimmed(Split(text, ':')); FirstEmpty(t) < |t| && ParseV6Tokens(t) == Ok(groups)
    ensures GroupsAroundGap(text, groups)
  {
    hide ItemOf, Split, Overlay, Trimmed, Gather, GapText;
    var t := Trimmed(Split(text, ':'));
    var at := FirstEmpty(t);
    var left, right := t[..at], t[at + 1..];
    TrimmedIsGap(text, at);
    assert Items(t)[..at] == Items(left) && Items(t)[at + 1..] == Items(right);
    var gl, gr := Gather(Items(left)).value, Gather(Items(right)).value;
    assert forall i :: 0 <= i < |right| ==> right[i] == t[at + 1 + i];
    assert Tokenized(left, gl) && Tokenized(right, gr);
    assert Around(text, groups, left, right, gl, gr);
  }

  lemma EightAreAccepted(text: string, groups: Groups)
    requires EightGroups(text, groups)
    ensures text != ":" && ParseText(text) == Ok(V6(groups))
  {
    hide ItemOf, ParseV6Tokens, Split, Gather;
    var texts :| Tokenized(texts, groups) && text == Join(texts, ":");
    WidthOfItems(texts);
    ItemsAreValid(texts);
    GatherInRange(Items(texts));
    NotAColon(texts);
    FullTokens(texts, groups);
  }

  lemma GapsAreAccepted(text: string, groups: Groups)
    requires GroupsAroundGap(text, groups)
    ensures text != ":" && ParseText(text) == Ok(V6(groups))
  {
    hide ItemOf, ParseV6Tokens, Split, Gather, Trimmed, GapText, Overlay;
    var left, right, gl, gr :| Around(text, groups, left, right, gl, gr);
    GapIsTrimmed(text, left, right);
    AroundEmpty(left, right, gl, gr);
  }

  /** For every text but a single colon: it is read as a V6 address if and only if it is eight groups or
      groups around a gap, and then as the address that these make up. */
  lemma AcceptedExactly(text: string, groups: Groups)
    requires text != ":"
    ensures ParseText(text) == Ok(V6(groups)) <==> EightGroups(text, groups) || GroupsAroundGap(text, groups)
  {
    hide EightGroups, GroupsAroundGap, ParseV6Tokens, Split, Trimmed;
    if ParseText(text) == Ok(V6(groups)) {
      OnlyAColon(text);
      var t := Trimmed(Split(text, ':'));
      if FirstEmpty(t) == |t| {
        NoGap(text, groups);
      } else {
        Gap(text, groups);
      }
    }
    if EightGroups(text, groups) {
      EightAreAccepted(text, groups);
    }
    if GroupsAroundGap(text, groups) {
      GapsAreAccepted(text, groups);
    }
  }

  /** A single colon at either end is read as `::`, whatever the other tokens are. */
  lemma LoneColonIsAccepted(texts: seq<string>)
    requires texts != [] && Solid(texts)
    ensures var text := Join(texts, ":") + ":";
      text != ":" && text + ":" != ":" && ParseText(text) == ParseText(text + ":")
    ensures var text := ":" + Join(texts, ":");
      text != ":" && ":" + text != ":" && ParseText(text) == ParseText(":" + text)
  {
    hide Split, Trimmed, ParseV6Tokens, Join;
    var inner := Join(texts, ":");
    assert Join([], ":") == "" by { EmptyJoin(); }
    assert inner + ":" + ":" == inner + "::" + "" && ":" + (":" + inner) == "" + "::" + inner;
    GapIsTrimmed(inner + ":", texts, []);
    GapIsTrimmed(inner + "::", texts, []);
    GapIsTrimmed(":" + inner, [], texts);
    GapIsTrimmed("::" + inner, [], texts);
  }

  lemma EmptyJoin()
    ensures Join([], ":") == ""
  {
  }

  // ---- dotted quads ----

  /** A token with a dot takes up two groups, and these are those of the V4 address that it is read as, if it is
      read as one. */
  lemma DottedToken(token: string, octets: Octets)
    requires '.' in token && ':' !in token
    ensures token != ":" && ItemOf(token).width == 2
    ensures ParseText(token) == Ok(V4(octets))
      <==> ItemOf(token).groups == Ok([octets[0] * 0x100 + octets[1], octets[2] * 0x100 + octets[3]])
  {
    hide ParseV4, Split;
    SplitOfPlain(token, ':');
    if ParseV4(token).Ok? {
      SameQuad(ParseV4(token).value, octets);
    }
  }

  lemma SameQuad(o: Octets, p: Octets)
    ensures QuadGroups(o) == QuadGroups(p) <==> o == p
  {
    if QuadGroups(o) == QuadGroups(p) {
      assert QuadGroups(o)[0] == QuadGroups(p)[0] && QuadGroups(o)[1] == QuadGroups(p)[1];
      assert o[0] == p[0] && o[1] == p[1] && o[2] == p[2] && o[3] == p[3];
    }
  }

  /** A text with a dot in any token but the last is refused. */
  lemma DotOnlyInLast(text: string, i: nat)
    requires text != ":" && i < |Split(text, ':')| - 1 && '.' in Split(text, ':')[i]
    ensures ParseText(text) == InvalidArgument
  {
    hide Split, Trimmed, ItemOf, Packed;
    OnlyAColon(text);
    DotIsKept(Split(text, ':'), i);
  }

  lemma DotIsKept(tokens: seq<string>, i: nat)
    requires tokens != ["", ""] && i < |tokens| - 1 && '.' in tokens[i]
    ensures !QuadOnlyLast(Trimmed(tokens))
  {
    var front := if tokens[0] == "" && tokens[1] == "" then tokens[1..] else tokens;
    var j := if front == tokens then i else i - 1;
    assert front[j] == tokens[i] && LooksLikeV4(front[j]);
    assert Trimmed(tokens)[j] == front[j];
  }
}
