/** Positional numbers, most significant digit first, and their lexicographic order. */
module Digits {
  import Words

  ghost predicate InBase(d: seq<nat>, base: nat) {
    forall i :: 0 <= i < |d| ==> d[i] < base
  }

  function Value(d: seq<nat>, base: nat): nat {
    if d == [] then 0 else Value(d[..|d| - 1], base) * base + d[|d| - 1]
  }

  function Power(base: nat, n: nat): nat {
    if n == 0 then 1 else Power(base, n - 1) * base
  }

  /** The `len` least significant digits of `n`. */
  function DigitsOf(n: nat, base: nat, len: nat): (d: seq<nat>)
    requires base > 0
    ensures |d| == len && InBase(d, base)
    decreases len, n
  {
    if len == 0 then [] else
      QuotientAndRemainder(n, base);
      DigitsOf(n / base, base, len - 1) + [n % base]
  }

  lemma QuotientAndRemainder(n: nat, base: nat)
    requires base > 0
    ensures n / base >= 0 && 0 <= n % base < base && n == n / base * base + n % base
  {
  }

  lemma {:induction false} ValueBound(d: seq<nat>, base: nat)
    requires InBase(d, base)
    ensures Value(d, base) < Power(base, |d|)
  {
    if d != [] {
      ValueBound(d[..|d| - 1], base);
      ProductGrows(Value(d[..|d| - 1], base), Power(base, |d| - 1), base);
    }
  }

  lemma {:induction false} ValueOfDigits(n: nat, base: nat, len: nat)
    requires base > 0 && n < Power(base, len)
    ensures Value(DigitsOf(n, base, len), base) == n
    decreases len
  {
    if len > 0 {
      QuotientAndRemainder(n, base);
      var q := n / base;
      if q >= Power(base, len - 1) {
        MultiplyBoth(Power(base, len - 1), q, base);
        assert false;
      }
      ValueOfDigits(n / base, base, len - 1);
      var d := DigitsOf(n, base, len);
      assert d[..len - 1] == DigitsOf(n / base, base, len - 1);
    }
  }

  lemma {:induction false} ValueOfConcatenation(a: seq<nat>, b: seq<nat>, base: nat)
    ensures Value(a + b, base) == Value(a, base) * Power(base, |b|) + Value(b, base)
  {
    if b == [] {
      assert a + b == a;
    } else {
      var n := |b| - 1;
      ValueOfConcatenation(a, b[..n], base);
      assert (a + b)[..|a + b| - 1] == a + b[..n];
      ShiftOne(Value(a, base), Power(base, n), Value(b[..n], base), base);
    }
  }

  lemma ShiftOne(x: nat, p: nat, y: nat, base: nat)
    ensures (x * p + y) * base == x * (p * base) + y * base
  {
  }

  lemma MultiplyBoth(x: nat, y: nat, base: nat)
    requires x <= y
    ensures x * base <= y * base
  {
  }

  lemma {:induction false} DigitsOfValue(d: seq<nat>, base: nat)
    requires base > 0 && InBase(d, base)
    ensures DigitsOf(Value(d, base), base, |d|) == d
  {
    if d != [] {
      var n := |d| - 1;
      DigitsOfValue(d[..n], base);
      LastDigit(Value(d[..n], base), d[n], base);
      assert d == d[..n] + [d[n]];
    }
  }

  lemma LastDigit(x: nat, d: nat, base: nat)
    requires d < base
    ensures (x * base + d) / base == x && (x * base + d) % base == d
  {
    Words.QuotientIs(x * base + d, base, x, d);
  }

  /** `std::lexicographical_compare`, the order of `std::array`. */
  predicate LexLess(a: seq<nat>, b: seq<nat>) {
    if b == [] then false
    else if a == [] then true
    else if a[0] != b[0] then a[0] < b[0]
    else LexLess(a[1..], b[1..])
  }

  lemma {:induction false} LexLessAtTheEnd(a: seq<nat>, b: seq<nat>)
    requires |a| == |b| > 0
    ensures var n := |a| - 1;
      LexLess(a, b) <==> LexLess(a[..n], b[..n]) || (a[..n] == b[..n] && a[n] < b[n])
  {
    var n := |a| - 1;
    if n > 0 {
      LexLessAtTheEnd(a[1..], b[1..]);
      assert a[1..][..n - 1] == a[..n][1..] && b[1..][..n - 1] == b[..n][1..];
      assert a[..n] == [a[0]] + a[..n][1..] && b[..n] == [b[0]] + b[..n][1..];
    }
  }

  lemma ProductGrows(x: nat, y: nat, base: nat)
    requires x < y
    ensures x * base + base <= y * base
  {
    MultiplyBoth(x + 1, y, base);
  }

  lemma CompareStep(x: nat, y: nat, d: nat, e: nat, base: nat)
    requires d < base && e < base
    ensures x * base + d < y * base + e <==> x < y || (x == y && d < e)
    ensures x * base + d == y * base + e <==> x == y && d == e
  {
    if x < y {
      ProductGrows(x, y, base);
    } else if y < x {
      ProductGrows(y, x, base);
    }
  }

  /** Comparing digit by digit is comparing the numbers, and equal numbers have equal digits. */
  lemma {:induction false} LexLessIsNumeric(a: seq<nat>, b: seq<nat>, base: nat)
    requires |a| == |b| && InBase(a, base) && InBase(b, base)
    ensures LexLess(a, b) <==> Value(a, base) < Value(b, base)
    ensures Value(a, base) == Value(b, base) ==> a == b
  {
    if a != [] {
      var n := |a| - 1;
      LexLessIsNumeric(a[..n], b[..n], base);
      LexLessAtTheEnd(a, b);
      CompareStep(Value(a[..n], base), Value(b[..n], base), a[n], b[n], base);
      assert a == a[..n] + [a[n]] && b == b[..n] + [b[n]];
    }
  }
}
