/** Splitting text at a separator and joining it again, and the tokenizer of the address parser. */
module Tokens {

  /** The pieces of `s` between separators: one more than there are separators. */
  function Split(s: string, separator: char): (pieces: seq<string>)
    ensures |pieces| > 0
  {
    if s == [] then [""]
    else
      var rest := Split(s[1..], separator);
      if s[0] == separator then [""] + rest else [[s[0]] + rest[0]] + rest[1..]
  }

  function Join(pieces: seq<string>, separator: string): string {
    if pieces == [] then ""
    else if |pieces| == 1 then pieces[0]
    else pieces[0] + separator + Join(pieces[1..], separator)
  }

  function NonEmpty(pieces: seq<string>): seq<string> {
    if pieces == [] then []
    else if pieces[0] == "" then NonEmpty(pieces[1..])
    else [pieces[0]] + NonEmpty(pieces[1..])
  }

  // ---- splitting and joining undo each other ----

  lemma {:induction false} JoinOfSplit(s: string, separator: char)
    ensures Join(Split(s, separator), [separator]) == s
    ensures forall piece :: piece in Split(s, separator) ==> separator !in piece
  {
    if s != [] {
      JoinOfSplit(s[1..], separator);
      var rest := Split(s[1..], separator);
      assert s == [s[0]] + s[1..];
      if s[0] == separator {
        assert ([""] + rest)[1..] == rest;
      } else if |rest| > 1 {
        var pieces := [[s[0]] + rest[0]] + rest[1..];
        assert pieces[1..] == rest[1..];
        assert [s[0]] + (rest[0] + [separator] + Join(rest[1..], [separator]))
            == ([s[0]] + rest[0]) + [separator] + Join(rest[1..], [separator]);
      }
    }
  }

  lemma {:induction false} SplitAtFirst(head: string, tail: string, separator: char)
    requires separator !in head
    ensures Split(head + [separator] + tail, separator) == [head] + Split(tail, separator)
  {
    var s := head + [separator] + tail;
    if head == [] {
      assert s[1..] == tail;
    } else {
      assert s[1..] == head[1..] + [separator] + tail;
      SplitAtFirst(head[1..], tail, separator);
      assert [head[0]] + head[1..] == head;
    }
  }

  lemma {:induction false} SplitOfPlain(s: string, separator: char)
    requires separator !in s
    ensures Split(s, separator) == [s]
  {
    if s != [] {
      SplitOfPlain(s[1..], separator);
      assert [s[0]] + s[1..] == s;
    }
  }

  lemma {:induction false} SplitOfJoin(pieces: seq<string>, separator: char)
    requires pieces != []
    requires forall i :: 0 <= i < |pieces| ==> separator !in pieces[i]
    ensures Split(Join(pieces, [separator]), separator) == pieces
  {
    if |pieces| == 1 {
      SplitOfPlain(pieces[0], separator);
    } else {
      SplitAtFirst(pieces[0], Join(pieces[1..], [separator]), separator);
      SplitOfJoin(pieces[1..], separator);
      assert [pieces[0]] + pieces[1..] == pieces;
    }
  }

  lemma {:induction false} JoinAppend(pieces: seq<string>, last: string, separator: string)
    ensures Join(pieces + [last], separator)
         == if pieces == [] then last else Join(pieces, separator) + separator + last
  {
    if |pieces| == 1 {
      assert (pieces + [last])[1..] == [last];
    } else if |pieces| > 1 {
      JoinAppend(pieces[1..], last, separator);
      assert (pieces + [last])[1..] == pieces[1..] + [last];
      assert pieces[0] + separator + (Join(pieces[1..], separator) + separator + last)
          == (pieces[0] + separator + Join(pieces[1..], separator)) + separator + last;
    }
  }

  lemma {:induction false} JoinConcatenation(a: seq<string>, b: seq<string>, separator: string)
    requires a != [] && b != []
    ensures Join(a + b, separator) == Join(a, separator) + separator + Join(b, separator)
  {
    if |a| == 1 {
      assert (a + b)[1..] == b;
    } else {
      JoinConcatenation(a[1..], b, separator);
      assert (a + b)[1..] == a[1..] + b;
      assert a[0] + separator + (Join(a[1..], separator) + separator + Join(b, separator))
          == (a[0] + separator + Join(a[1..], separator)) + separator + Join(b, separator);
    }
  }

  lemma {:induction false} NonEmptyOfWords(pieces: seq<string>)
    requires forall i :: 0 <= i < |pieces| ==> pieces[i] != ""
    ensures NonEmpty(pieces) == pieces
  {
    if pieces != [] {
      NonEmptyOfWords(pieces[1..]);
    }
  }

  // ---- the tokenizer ----

  /** The character at `i` of a C string, whose end reads as NUL. */
  function CharAt(s: string, i: nat): char
    requires i <= |s|
  {
    if i < |s| then s[i] else '\0'
  }

  /** The tokens of the input from `start` on. */
  function TokensFrom(s: string, start: nat, separator: char, emptyIsToken: bool): seq<string>
    requires start <= |s|
  {
    if emptyIsToken then Split(s[start..], separator) else NonEmpty(Split(s[start..], separator))
  }

  /** `tokens` are the tokens that end before `start`. */
  ghost predicate FoundUpTo(s: string, separator: char, emptyIsToken: bool, tokens: seq<string>, start: nat)
    requires start <= |s|
  {
    TokensFrom(s, 0, separator, emptyIsToken) == tokens + TokensFrom(s, start, separator, emptyIsToken)
  }

  /** The tokens are the pieces of the input, without the empty ones unless they are asked for. */
  method TokenizeString(inputString: string, separator: char, emptyIsToken: bool)
    returns (tokensArray: seq<string>)
    requires emptyIsToken || separator != '\0'
    ensures tokensArray
         == if emptyIsToken then Split(inputString, separator) else NonEmpty(Split(inputString, separator))
  {
    var pathLen := |inputString|;
    tokensArray := [];
    var startPos, currentPos := 0, 0;
    while currentPos < pathLen
      invariant 0 <= startPos <= pathLen && startPos <= currentPos <= pathLen + 1
      invariant Plain(inputString, startPos, currentPos, separator)
      invariant FoundUpTo(inputString, separator, emptyIsToken, tokensArray, startPos)
      decreases pathLen + 1 - currentPos
    {
      while CharAt(inputString, currentPos) == separator && currentPos < pathLen
        invariant 0 <= startPos <= currentPos <= pathLen
        invariant Plain(inputString, startPos, currentPos, separator)
        invariant FoundUpTo(inputString, separator, emptyIsToken, tokensArray, startPos)
        decreases pathLen - currentPos
      {
        var foundPos := currentPos;
        currentPos := currentPos + 1;
        if !emptyIsToken {
          currentPos := SkipSeparators(inputString, separator, currentPos);
        }
        var subStr := inputString[startPos..foundPos];
        TokenFound(inputString, separator, emptyIsToken, tokensArray, startPos, foundPos, currentPos);
        if subStr != "" || emptyIsToken {
          tokensArray := tokensArray + [subStr];
        }
        startPos := currentPos;
      }
      currentPos := currentPos + 1;
    }
    var subStr := inputString[startPos..pathLen];
    assert subStr == inputString[startPos..];
    LastToken(inputString, separator, emptyIsToken, startPos);
    if subStr != "" || emptyIsToken {
      tokensArray := tokensArray + [subStr];
    }
  }

  /** The first position at or after `from` that is not a separator. */
  method SkipSeparators(inputString: string, separator: char, from: nat) returns (currentPos: nat)
    requires separator != '\0' && from <= |inputString|
    ensures from <= currentPos <= |inputString| && CharAt(inputString, currentPos) != separator
    ensures forall i :: from <= i < currentPos ==> inputString[i] == separator
    ensures TokensFrom(inputString, from, separator, false) == TokensFrom(inputString, currentPos, separator, false)
  {
    currentPos := from;
    while CharAt(inputString, currentPos) == separator
      invariant from <= currentPos <= |inputString|
      invariant forall i :: from <= i < currentPos ==> inputString[i] == separator
      invariant TokensFrom(inputString, from, separator, false) == TokensFrom(inputString, currentPos, separator, false)
      decreases |inputString| - currentPos
    {
      LeadingSeparator(inputString, currentPos, separator);
      currentPos := currentPos + 1;
    }
  }

  /** No separator between `start` and `current`. */
  ghost predicate Plain(s: string, start: nat, current: nat, separator: char) {
    forall i :: start <= i < current && i < |s| ==> s[i] != separator
  }

  /** A separator at the front only adds an empty piece. */
  lemma LeadingSeparator(s: string, at: nat, separator: char)
    requires at < |s| && s[at] == separator
    ensures TokensFrom(s, at, separator, false) == TokensFrom(s, at + 1, separator, false)
  {
    assert s[at..][1..] == s[at + 1..];
    assert ([""] + Split(s[at + 1..], separator))[1..] == Split(s[at + 1..], separator);
  }

  lemma TokenFound(s: string, separator: char, emptyIsToken: bool, tokens: seq<string>,
                   start: nat, found: nat, next: nat)
    requires start <= found < |s| && s[found] == separator && Plain(s, start, found, separator)
    requires found < next <= |s|
    requires TokensFrom(s, found + 1, separator, emptyIsToken) == TokensFrom(s, next, separator, emptyIsToken)
    requires FoundUpTo(s, separator, emptyIsToken, tokens, start)
    ensures FoundUpTo(s, separator, emptyIsToken,
                      if s[start..found] != "" || emptyIsToken then tokens + [s[start..found]] else tokens, next)
  {
    CutAtSeparator(s, start, found, separator);
    var piece := s[start..found];
    Reassociate(tokens, if piece != "" || emptyIsToken then [piece] else [],
                TokensFrom(s, next, separator, emptyIsToken));
  }

  lemma Reassociate(a: seq<string>, b: seq<string>, c: seq<string>)
    ensures a + (b + c) == (if b == [] then a else a + b) + c
  {
  }

  lemma CutAtSeparator(s: string, start: nat, found: nat, separator: char)
    requires start <= found < |s| && s[found] == separator && Plain(s, start, found, separator)
    ensures Split(s[start..], separator) == [s[start..found]] + Split(s[found + 1..], separator)
    ensures NonEmpty(Split(s[start..], separator))
         == (if s[start..found] == "" then [] else [s[start..found]]) + NonEmpty(Split(s[found + 1..], separator))
  {
    var piece, rest := s[start..found], Split(s[found + 1..], separator);
    assert s[start..] == piece + [separator] + s[found + 1..];
    SplitAtFirst(piece, s[found + 1..], separator);
    assert ([piece] + rest)[1..] == rest;
  }

  lemma LastToken(s: string, separator: char, emptyIsToken: bool, start: nat)
    requires start <= |s| && Plain(s, start, |s|, separator)
    ensures TokensFrom(s, start, separator, emptyIsToken)
         == if s[start..] != "" || emptyIsToken then [s[start..]] else []
    ensures s[0..] == s
  {
    var piece := s[start..];
    SplitOfPlain(piece, separator);
    assert NonEmpty([piece]) == if piece == "" then [] else [piece] by {
      assert [piece][1..] == [];
    }
  }
}
