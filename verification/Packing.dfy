/** Laying the groups of a V6 text into eight slots, around the zero run that `::` stands for. */
module Packing {
  import opened Common
  import opened Words
  import Digits

  /** One token: how many groups it takes up, and those groups unless the token is not a number. */
  datatype Item = Item(width: nat, groups: Result<seq<nat>>) {
    ghost predicate Valid() {
      width >= 1 && (groups.Ok? ==> |groups.value| == width && Digits.InBase(groups.value, 0x1_0000))
    }
  }

  ghost predicate AllValid(items: seq<Item>) {
    forall i :: 0 <= i < |items| ==> items[i].Valid()
  }

  function Width(items: seq<Item>): nat {
    if items == [] then 0 else Width(items[..|items| - 1]) + items[|items| - 1].width
  }

  /** All the groups, if every token is fine. */
  function Gather(items: seq<Item>): Result<seq<nat>> {
    if items == [] then Ok([])
    else
      var front :- Gather(items[..|items| - 1]);
      var last :- items[|items| - 1].groups;
      Ok(front + last)
  }

  type Slots = s: seq<nat> | |s| == 8 witness [0, 0, 0, 0, 0, 0, 0, 0]

  /** Eight slots: `left` from the first on, and from slot `start` on, or-ed over it, `right`. */
  function Overlay(left: seq<nat>, right: seq<nat>, start: nat): Slots {
    seq(8, k requires 0 <= k < 8 =>
      Or(if k < |left| then left[k] else 0,
         if start <= k < start + |right| then right[k - start] else 0))
  }

  /** The groups before the zero run begin at the first slot, those after it end at the last. */
  function Place(left: seq<nat>, right: seq<nat>): Result<Slots> {
    if |left| > 8 || |right| > 8 then InvalidArgument else Ok(Overlay(left, right, 8 - |right|))
  }

  /** The slots for the tokens around the empty one at `at`; without one, `at` is past the end. */
  function Packed(items: seq<Item>, at: nat): Result<Slots> {
    var left :- Gather(if at < |items| then items[..at] else items);
    var right :- Gather(if at < |items| then items[at + 1..] else []);
    Place(left, right)
  }

  // ---- with at most eight groups, placing is concatenation ----

  function Zeros(n: nat): seq<nat> {
    seq(n, i => 0)
  }

  /** With at most eight groups no slot is written twice: the slots are the groups in order with
      zeros in the gap. */
  lemma PlaceIsConcatenation(left: seq<nat>, right: seq<nat>)
    requires |left| + |right| <= 8
    ensures Place(left, right) == Ok(left + Zeros(8 - |left| - |right|) + right)
  {
    var start := 8 - |right|;
    var slots, expected := Overlay(left, right, start), left + Zeros(8 - |left| - |right|) + right;
    forall k | 0 <= k < 8
      ensures slots[k] == expected[k]
    {
      assert slots[k] == Or(if k < |left| then left[k] else 0, if start <= k then right[k - start] else 0);
    }
    assert slots == expected;
  }

  /** With more, groups that meet in a slot are or-ed together: the program accepts such a text and
      the groups cannot be told from the result. */
  lemma PlaceMayMerge()
    ensures Place([1, 2, 3, 4, 5], [6, 7, 8, 9]) == Place([1, 2, 3, 4, 7], [6, 7, 8, 9])
  {
    var x, y := Overlay([1, 2, 3, 4, 5], [6, 7, 8, 9], 4), Overlay([1, 2, 3, 4, 7], [6, 7, 8, 9], 4);
    forall k | 0 <= k < 8
      ensures x[k] == y[k]
    {
      assert Or(5, 6) == 7 && Or(7, 6) == 7;
    }
    assert x == y;
  }

  lemma OverlayInRange(left: seq<nat>, right: seq<nat>, start: nat)
    requires Digits.InBase(left, 0x1_0000) && Digits.InBase(right, 0x1_0000)
    ensures Digits.InBase(Overlay(left, right, start), 0x1_0000)
  {
    hide Or, Pow2;
    Pow2Values();
    forall k | 0 <= k < 8
      ensures Overlay(left, right, start)[k] < 0x1_0000
    {
      OrBound(if k < |left| then left[k] else 0,
              if start <= k < start + |right| then right[k - start] else 0, 16);
    }
  }

  lemma {:induction false} GatherInRange(items: seq<Item>)
    requires AllValid(items)
    ensures Gather(items).Ok? ==>
      |Gather(items).value| == Width(items) && Digits.InBase(Gather(items).value, 0x1_0000)
  {
    if items != [] {
      GatherInRange(items[..|items| - 1]);
    }
  }

  lemma PackedInRange(items: seq<Item>, at: nat)
    requires AllValid(items)
    ensures Packed(items, at).Ok? ==> Digits.InBase(Packed(items, at).value, 0x1_0000)
  {
    hide Overlay, Gather;
    var left := Gather(if at < |items| then items[..at] else items);
    var right := Gather(if at < |items| then items[at + 1..] else []);
    GatherInRange(if at < |items| then items[..at] else items);
    GatherInRange(if at < |items| then items[at + 1..] else []);
    if left.Ok? && right.Ok? && |right.value| <= 8 {
      OverlayInRange(left.value, right.value, 8 - |right.value|);
    }
  }

  // ---- the packing pass ----

  /** `groups` or-ed into the slots from `at` on. */
  function WriteAt(slots: Slots, at: nat, groups: seq<nat>): Slots
    requires at + |groups| <= 8
  {
    seq(8, k requires 0 <= k < 8 =>
      if at <= k < at + |groups| then Or(slots[k], groups[k - at]) else slots[k])
  }

  lemma WriteInRange(slots: Slots, at: nat, groups: seq<nat>)
    requires at + |groups| <= 8 && Digits.InBase(groups, 0x1_0000) && Digits.InBase(slots, 0x1_0000)
    ensures Digits.InBase(WriteAt(slots, at, groups), 0x1_0000)
  {
    hide Or, Pow2;
    Pow2Values();
    forall k | 0 <= k < 8
      ensures WriteAt(slots, at, groups)[k] < 0x1_0000
    {
      OrBound(slots[k], if at <= k < at + |groups| then groups[k - at] else 0, 16);
    }
  }

  /** The state of the pass: the slots, and the position of the next group. */
  datatype Pass = Pass(slots: Slots, position: nat)

  const START: Pass := Pass([0, 0, 0, 0, 0, 0, 0, 0], 0)

  function AfterItem(p: Pass, item: Item): Result<Pass> {
    var groups :- item.groups;
    if p.position + |groups| > 8 then InvalidArgument
    else Ok(Pass(WriteAt(p.slots, p.position, groups), p.position + |groups|))
  }

  /** The empty token moves the position over the zero run, in 32 bits. */
  function AfterEmpty(p: Pass, run: Word64): Pass {
    p.(position := (p.position + run % 0x1_0000_0000) % 0x1_0000_0000)
  }

  /** The state before token `i`. */
  function PassUpTo(items: seq<Item>, at: nat, run: Word64, i: nat): Result<Pass>
    requires i <= |items|
  {
    if i == 0 then Ok(START)
    else
      var p :- PassUpTo(items, at, run, i - 1);
      if i - 1 == at then Ok(AfterEmpty(p, run)) else AfterItem(p, items[i - 1])
  }

  /** The length of the zero run for `n` tokens, of which `quad` are dotted quads, in a `size_t`. */
  function ZeroRun(n: nat, quad: nat): Word64 {
    (9 - n - quad) % 0x1_0000_0000_0000_0000
  }

  /** What the first pass establishes: one token is empty and the others take up one group each,
      but for a dotted quad in the last place; or no token is empty and there are eight groups. */
  ghost predicate Scanned(items: seq<Item>, at: nat, run: Word64) {
    AllValid(items) && |items| < 0x1_0000_0000 && at <= |items| &&
    if at == |items| then Width(items) == 8
    else Width(items[..at]) == at && exists quad :: QuadCount(items, at, quad) && run == ZeroRun(|items|, quad)
  }

  ghost predicate QuadCount(items: seq<Item>, at: nat, quad: nat)
    requires at < |items|
  {
    quad <= 1 && Width(items[at + 1..]) == |items| - 1 - at + quad
  }

  lemma PassStart(items: seq<Item>, at: nat, run: Word64)
    ensures PassUpTo(items, at, run, 0) == Ok(START)
  {
  }

  lemma {:induction false} PassStep(items: seq<Item>, at: nat, run: Word64, i: nat, pass: Pass)
    requires i < |items| && PassUpTo(items, at, run, i) == Ok(pass)
    ensures PassUpTo(items, at, run, i + 1) == if i == at then Ok(AfterEmpty(pass, run)) else AfterItem(pass, items[i])
  {
  }

  lemma {:induction false} StaysInvalid(items: seq<Item>, at: nat, run: Word64, i: nat, j: nat)
    requires i <= j <= |items| && PassUpTo(items, at, run, i).InvalidArgument?
    ensures PassUpTo(items, at, run, j).InvalidArgument?
  {
    if i < j {
      StaysInvalid(items, at, run, i, j - 1);
    }
  }

  lemma GatherStep(items: seq<Item>, k: nat)
    requires k < |items| && AllValid(items)
    ensures Width(items[..k + 1]) == Width(items[..k]) + items[k].width
    ensures Gather(items[..k]).Ok? ==> |Gather(items[..k]).value| == Width(items[..k])
    ensures Gather(items[..k + 1])
         == if Gather(items[..k]).Ok? && items[k].groups.Ok?
            then Ok(Gather(items[..k]).value + items[k].groups.value) else InvalidArgument
  {
    assert items[..k + 1][..k] == items[..k];
    GatherInRange(items[..k]);
  }

  lemma {:induction false} WidthOfPrefix(items: seq<Item>, n: nat)
    requires n <= |items|
    ensures Width(items[..n]) <= Width(items)
  {
    if n == |items| {
      assert items[..n] == items;
    } else {
      assert items[..|items| - 1][..n] == items[..n];
      WidthOfPrefix(items[..|items| - 1], n);
    }
  }

  // ---- writing more groups after the left ones, or after the right ones ----

  lemma WriteExtendsLeft(left: seq<nat>, groups: seq<nat>)
    requires |left| + |groups| <= 8
    ensures WriteAt(Overlay(left, [], 8), |left|, groups) == Overlay(left + groups, [], 8)
  {
    var before, after := Overlay(left, [], 8), Overlay(left + groups, [], 8);
    forall k | 0 <= k < 8
      ensures WriteAt(before, |left|, groups)[k] == after[k]
    {
      assert before[k] == if k < |left| then left[k] else 0;
      assert after[k] == if k < |left + groups| then (left + groups)[k] else 0;
    }
  }

  lemma WriteExtendsRight(left: seq<nat>, right: seq<nat>, start: nat, groups: seq<nat>)
    requires start + |right| + |groups| <= 8
    ensures WriteAt(Overlay(left, right, start), start + |right|, groups) == Overlay(left, right + groups, start)
  {
    var before, after := Overlay(left, right, start), Overlay(left, right + groups, start);
    forall k | 0 <= k < 8
      ensures WriteAt(before, start + |right|, groups)[k] == after[k]
    {
      var l := if k < |left| then left[k] else 0;
      if start <= k < start + |right| {
        assert after[k] == Or(l, (right + groups)[k - start]) == Or(l, right[k - start]);
      } else if start + |right| <= k < start + |right| + |groups| {
        assert before[k] == Or(l, 0) == l;
        assert (right + groups)[k - start] == groups[k - start - |right|];
      }
    }
  }

  lemma OrZero()
    ensures Or(0, 0) == 0
  {
  }

  lemma NoGroups(left: seq<nat>, start: nat)
    ensures Overlay(left, [], 8) == Overlay(left, [], start)
    ensures Overlay([], [], 8) == START.slots && Gather([]) == Ok([])
  {
    hide Or;
    OrZero();
    assert forall k :: 0 <= k < 8 ==> Overlay([], [], 8)[k] == Or(0, 0);
  }

  /** Adding the length of the zero run in 32 bits. */
  lemma RunArithmetic(n: nat, at: nat, quad: nat)
    requires at < n < 0x1_0000_0000 && quad <= 1
    ensures var start := 8 - (n - 1 - at + quad);
      (at + ZeroRun(n, quad) % 0x1_0000_0000) % 0x1_0000_0000 == if start >= 0 then start else start + 0x1_0000_0000
  {
    var run, start := 9 - n - quad, 8 - (n - 1 - at + quad);
    if run >= 0 {
      QuotientIs(run, 0x1_0000_0000_0000_0000, 0, run);
      QuotientIs(run, 0x1_0000_0000, 0, run);
      QuotientIs(start, 0x1_0000_0000, 0, start);
    } else {
      QuotientIs(run, 0x1_0000_0000_0000_0000, -1, run + 0x1_0000_0000_0000_0000);
      QuotientIs(run + 0x1_0000_0000_0000_0000, 0x1_0000_0000, 0xFFFF_FFFF, run + 0x1_0000_0000);
      if start >= 0 {
        QuotientIs(start + 0x1_0000_0000, 0x1_0000_0000, 1, start);
      } else {
        QuotientIs(start + 0x1_0000_0000, 0x1_0000_0000, 0, start + 0x1_0000_0000);
      }
    }
  }

  // ---- what the pass computes ----

  /** Up to the empty token, the pass fills the slots from the first on. */
  lemma {:induction false} LeftPass(items: seq<Item>, at: nat, run: Word64, i: nat)
    requires i <= at <= |items| && AllValid(items)
    ensures var left := Gather(items[..i]);
      PassUpTo(items, at, run, i)
      == if left.Ok? && |left.value| <= 8 then Ok(Pass(Overlay(left.value, [], 8), |left.value|)) else InvalidArgument
  {
    hide Overlay, WriteAt;
    if i == 0 {
      NoGroups([], 8);
    } else {
      LeftPass(items, at, run, i - 1);
      GatherStep(items, i - 1);
      var left, g := Gather(items[..i - 1]), items[i - 1].groups;
      if left.Ok? && g.Ok? && |left.value| + |g.value| <= 8 {
        WriteExtendsLeft(left.value, g.value);
      }
    }
  }

  /** The empty token moves the position to where the groups after it begin; below zero it wraps. */
  lemma {:induction false} EmptyPass(items: seq<Item>, at: nat, run: Word64, left: seq<nat>)
    requires Scanned(items, at, run) && at < |items|
    requires Gather(items[..at]) == Ok(left) && |left| <= 8
    ensures Width(items[at + 1..]) < 0x1_0000_0000
    ensures var start := 8 - Width(items[at + 1..]);
      PassUpTo(items, at, run, at + 1)
      == Ok(Pass(Overlay(left, [], 8), if start >= 0 then start else start + 0x1_0000_0000))
  {
    hide Overlay, Gather, WriteAt;
    LeftPass(items, at, run, at);
    GatherInRange(items[..at]);
    var quad :| QuadCount(items, at, quad) && run == ZeroRun(|items|, quad);
    RunArithmetic(|items|, at, quad);
  }

  /** After the empty token, the pass fills the slots so as to end at the last. */
  lemma {:induction false} RightPass(items: seq<Item>, at: nat, run: Word64, left: seq<nat>, k: nat)
    requires Scanned(items, at, run) && at + 1 + k <= |items|
    requires Gather(items[..at]) == Ok(left) && |left| <= 8 && Width(items[at + 1..]) <= 8
    ensures var right, start := Gather(items[at + 1..][..k]), 8 - Width(items[at + 1..]);
      PassUpTo(items, at, run, at + 1 + k)
      == if right.Ok? then Ok(Pass(Overlay(left, right.value, start), start + |right.value|)) else InvalidArgument
  {
    hide Overlay, WriteAt, PassUpTo, Scanned, Gather, Width;
    var after, start := items[at + 1..], 8 - Width(items[at + 1..]);
    if k == 0 {
      EmptyPass(items, at, run, left);
      assert after[..0] == [];
      NoGroups(left, start);
    } else {
      RightPass(items, at, run, left, k - 1);
      ItemsValid(items, at, run);
      GatherStep(after, k - 1);
      WidthOfPrefix(after, k);
      var right, g := Gather(after[..k - 1]), after[k - 1].groups;
      if right.Ok? {
        PassStep(items, at, run, at + k, Pass(Overlay(left, right.value, start), start + |right.value|));
        if g.Ok? {
          WriteExtendsRight(left, right.value, start, g.value);
        }
      } else {
        StaysInvalid(items, at, run, at + k, at + k + 1);
      }
    }
  }

  lemma ItemsValid(items: seq<Item>, at: nat, run: Word64)
    requires Scanned(items, at, run)
    ensures AllValid(items)
  {
  }

  /** With more than eight groups after the empty token, the first of them finds no slot. */
  lemma {:induction false} WrappedPass(items: seq<Item>, at: nat, run: Word64, left: seq<nat>)
    requires Scanned(items, at, run) && at < |items|
    requires Gather(items[..at]) == Ok(left) && |left| <= 8 && Width(items[at + 1..]) > 8
    ensures at + 2 <= |items| && PassUpTo(items, at, run, at + 2).InvalidArgument?
  {
    EmptyPass(items, at, run, left);
    assert items[at + 1].Valid();
    PassStep(items, at, run, at + 1, PassUpTo(items, at, run, at + 1).value);
  }

  /** The whole pass: the slots are those of the groups placed around the empty token, and the
      position ends at eight. */
  lemma {:induction false} WholePass(items: seq<Item>, at: nat, run: Word64)
    requires Scanned(items, at, run)
    ensures var slots := Packed(items, at);
      PassUpTo(items, at, run, |items|) == if slots.Ok? then Ok(Pass(slots.value, 8)) else InvalidArgument
  {
    if at == |items| {
      LeftPass(items, at, run, at);
      assert items[..at] == items;
      GatherInRange(items);
    } else {
      LeftPass(items, at, run, at);
      var left := Gather(items[..at]);
      if left.InvalidArgument? || |left.value| > 8 {
        StaysInvalid(items, at, run, at, |items|);
      } else {
        WholeRightPass(items, at, run, left.value);
      }
    }
  }

  lemma {:induction false} WholeRightPass(items: seq<Item>, at: nat, run: Word64, left: seq<nat>)
    requires Scanned(items, at, run) && at < |items|
    requires Gather(items[..at]) == Ok(left) && |left| <= 8
    ensures var slots := Packed(items, at);
      PassUpTo(items, at, run, |items|) == if slots.Ok? then Ok(Pass(slots.value, 8)) else InvalidArgument
  {
    hide Overlay;
    var after := items[at + 1..];
    GatherInRange(after);
    if Width(after) > 8 {
      WrappedPass(items, at, run, left);
      StaysInvalid(items, at, run, at + 2, |items|);
    } else {
      assert after[..|after|] == after;
      RightPass(items, at, run, left, |after|);
    }
  }

  /** A dotted quad in the last place always goes into the last two slots. */
  lemma {:induction false} QuadPosition(items: seq<Item>, at: nat, run: Word64)
    requires Scanned(items, at, run) && items != [] && at != |items| - 1 && items[|items| - 1].width == 2
    requires PassUpTo(items, at, run, |items| - 1).Ok?
    ensures PassUpTo(items, at, run, |items| - 1).value.position == 6
  {
    var last := |items| - 1;
    if at > last {
      LeftPass(items, at, run, last);
      assert items[..last + 1] == items;
      GatherStep(items, last);
    } else {
      LeftPass(items, at, run, at);
      if PassUpTo(items, at, run, at).InvalidArgument? {
        StaysInvalid(items, at, run, at, last);
      }
      QuadPositionAfter(items, at, run, Gather(items[..at]).value);
    }
  }

  lemma {:induction false} QuadPositionAfter(items: seq<Item>, at: nat, run: Word64, left: seq<nat>)
    requires Scanned(items, at, run) && at < |items| - 1 && items[|items| - 1].width == 2
    requires Gather(items[..at]) == Ok(left) && |left| <= 8
    requires PassUpTo(items, at, run, |items| - 1).Ok?
    ensures PassUpTo(items, at, run, |items| - 1).value.position == 6
  {
    var last, after := |items| - 1, items[at + 1..];
    var k := |after| - 1;
    assert after[..k + 1] == after && after[k] == items[last];
    GatherStep(after, k);
    assert after[..0] == [];
    if Width(after) > 8 {
      WrappedPass(items, at, run, left);
      StaysInvalid(items, at, run, at + 2, last);
    } else {
      RightPass(items, at, run, left, k);
    }
  }

  // ---- slots in bits ----

  /** A bit of a slot is set if it is set in the group that either side writes there. */
  lemma SlotBits(left: seq<nat>, right: seq<nat>, start: nat, k: nat, i: nat)
    requires k < 8
    ensures Bit(Overlay(left, right, start)[k], i)
      <==> (k < |left| && Bit(left[k], i)) || (start <= k < start + |right| && Bit(right[k - start], i))
  {
    hide Bit, Or;
    OrIsBitwise(if k < |left| then left[k] else 0, if start <= k < start + |right| then right[k - start] else 0, i);
    ZeroHasNoBit(i);
  }
}
