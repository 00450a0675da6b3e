/** Positional notation: the arithmetic behind every codec of the model. */
module Radix {

  function Pow(b: nat, n: nat): (p: nat)
    ensures b > 0 ==> p > 0
  {
    if n == 0 then 1 else Pow(b, n - 1) * b
  }

  predicate IsDigits(xs: seq<int>, b: nat) {
    forall i :: 0 <= i < |xs| ==> 0 <= xs[i] < b
  }

  /** The number that `xs` spells in base `b`, most significant digit first. */
  function Value(xs: seq<int>, b: nat): int {
    if |xs| == 0 then 0 else Value(xs[..|xs| - 1], b) * b + xs[|xs| - 1]
  }

  /** The number that `xs` spells in base `b`, least significant digit first. */
  function ValueLE(xs: seq<int>, b: nat): int {
    if |xs| == 0 then 0 else ValueLE(xs[..|xs| - 1], b) + xs[|xs| - 1] * Pow(b, |xs| - 1)
  }

  /** The low `n` base-`b` digits of `v`, most significant first. */
  function FixedDigits(v: nat, b: nat, n: nat): (xs: seq<int>)
    requires b > 0
    ensures |xs| == n && IsDigits(xs, b)
    decreases n
  {
    if n == 0 then [] else FixedDigits(v / b, b, n - 1) + [v % b]
  }

  /** The base-`b` representation of `v` without leading zeros; zero is the empty sequence. */
  function Digits(v: nat, b: nat): (xs: seq<int>)
    requires b > 1
    ensures IsDigits(xs, b)
    ensures v > 0 <==> |xs| > 0
    ensures v > 0 ==> xs[0] > 0
    decreases v
  {
    if v == 0 then [] else
      DivShrinks(v, b);
      Digits(v / b, b) + [v % b]
  }

  lemma DivShrinks(v: nat, b: nat)
    requires v > 0 && b > 1
    ensures v / b < v
  {
    var q := v / b;
    assert v == b * q + v % b;
    MulLe(2, b, q, q);
  }

  function Repeat<T>(x: T, n: nat): (xs: seq<T>)
    ensures |xs| == n && forall i :: 0 <= i < n ==> xs[i] == x
  {
    seq(n, i => x)
  }

  function Reverse<T>(xs: seq<T>): (r: seq<T>)
    ensures |r| == |xs| && forall i :: 0 <= i < |xs| ==> r[i] == xs[|xs| - 1 - i]
  {
    seq(|xs|, i requires 0 <= i < |xs| => xs[|xs| - 1 - i])
  }

  lemma DivModUnique(q: int, r: int, b: int)
    requires 0 <= r < b
    ensures (q * b + r) / b == q && (q * b + r) % b == r
  {
    var v := q * b + r;
    var k := v / b - q;
    assert v == b * (v / b) + v % b;
    assert b * k == r - v % b;
    assert k >= 1 ==> b * k >= b;
    assert k <= -1 ==> b * k <= -b;
  }

  lemma {:induction false} PowAdd(b: nat, m: nat, n: nat)
    ensures Pow(b, m + n) == Pow(b, m) * Pow(b, n)
  {
    if n > 0 {
      PowAdd(b, m, n - 1);
      Horner(Pow(b, m), Pow(b, n - 1), 0, b);
    }
  }

  lemma {:induction false} PowMonotone(a: nat, b: nat, m: nat, n: nat)
    requires 0 < a <= b && m <= n
    ensures Pow(a, m) <= Pow(b, n)
  {
    if m > 0 {
      PowMonotone(a, b, m - 1, n - 1);
      assert Pow(a, m - 1) * a <= Pow(b, n - 1) * b by {
        MulLe(Pow(a, m - 1), Pow(b, n - 1), a, b);
      }
    }
  }

  lemma MulLe(x: nat, x': nat, y: nat, y': nat)
    requires x <= x' && y <= y'
    ensures x * y <= x' * y'
  {
    assert x * y <= x' * y;
    assert x' * y <= x' * y';
  }

  /** Digits bound their number on both sides. */
  lemma {:induction false} ValueBounds(xs: seq<int>, b: nat)
    requires IsDigits(xs, b) && b > 0
    ensures 0 <= Value(xs, b) < Pow(b, |xs|)
    ensures |xs| > 0 && xs[0] > 0 ==> Pow(b, |xs| - 1) <= Value(xs, b)
  {
    if |xs| > 0 {
      var p, d := xs[..|xs| - 1], xs[|xs| - 1];
      ValueBounds(p, b);
      ShiftBounds(0, Value(p, b), Pow(b, |p|), d, b);
      if |p| > 0 && xs[0] > 0 {
        assert p[0] == xs[0];
        ShiftBounds(Pow(b, |p| - 1), Value(p, b), Pow(b, |p|), d, b);
      }
    }
  }

  lemma ShiftBounds(low: int, v: int, high: int, d: int, b: int)
    requires low <= v < high && 0 <= d < b
    ensures low * b <= v * b + d < high * b
  {
    MulOrdered(low, v, b);
    MulOrdered(v + 1, high, b);
    Distribute(v, 1, b);
  }

  lemma MulOrdered(x: int, y: int, b: int)
    requires x <= y && 0 <= b
    ensures x * b <= y * b
  {
  }

  lemma Distribute(x: int, y: int, b: int)
    ensures (x + y) * b == x * b + y * b
  {
  }

  lemma {:induction false} ValueAppend(xs: seq<int>, ys: seq<int>, b: nat)
    ensures Value(xs + ys, b) == Value(xs, b) * Pow(b, |ys|) + Value(ys, b)
  {
    if |ys| == 0 {
      assert xs + ys == xs;
    } else {
      var p := ys[..|ys| - 1];
      ValueAppend(xs, p, b);
      assert (xs + ys)[..|xs + ys| - 1] == xs + p;
      Horner(Value(xs, b), Pow(b, |p|), Value(p, b), b);
    }
  }

  lemma Horner(v: int, q: int, w: int, b: int)
    ensures (v * q + w) * b == v * (q * b) + w * b
  {
    assert v * q * b == v * (q * b);
  }

  lemma {:induction false} ValueOfZeros(n: nat, b: nat)
    ensures Value(Repeat(0, n), b) == 0
  {
    if n > 0 {
      ValueOfZeros(n - 1, b);
      assert Repeat(0, n)[..n - 1] == Repeat(0, n - 1);
    }
  }

  /** Leading zeros do not count. */
  lemma ValueSkipZeros(n: nat, xs: seq<int>, b: nat)
    ensures Value(Repeat(0, n) + xs, b) == Value(xs, b)
  {
    ValueAppend(Repeat(0, n), xs, b);
    ValueOfZeros(n, b);
  }

  /** The two digit orders agree. */
  lemma {:induction false} ValueLEIsReverse(xs: seq<int>, b: nat)
    ensures ValueLE(xs, b) == Value(Reverse(xs), b)
  {
    if |xs| > 0 {
      var p, d := xs[..|xs| - 1], xs[|xs| - 1];
      ValueLEIsReverse(p, b);
      assert Reverse(xs) == [d] + Reverse(p);
      ValueAppend([d], Reverse(p), b);
      assert [d][..0] == [];
    }
  }

  /** Fixed-width notation: printing undoes reading. */
  lemma {:induction false} FixedDigitsOfValue(xs: seq<int>, b: nat)
    requires IsDigits(xs, b) && b > 0
    ensures Value(xs, b) >= 0 && FixedDigits(Value(xs, b), b, |xs|) == xs
  {
    ValueBounds(xs, b);
    if |xs| > 0 {
      var p := xs[..|xs| - 1];
      FixedDigitsOfValue(p, b);
      DivModUnique(Value(p, b), xs[|xs| - 1], b);
    }
  }

  /** Fixed-width notation: reading undoes printing, modulo the width. */
  lemma {:induction false} ValueOfFixedDigits(v: nat, b: nat, n: nat)
    requires b > 0
    ensures Value(FixedDigits(v, b, n), b) == v % Pow(b, n)
    decreases n
  {
    if n > 0 {
      ValueOfFixedDigits(v / b, b, n - 1);
      ValueSnoc(FixedDigits(v / b, b, n - 1), v % b, b);
      SplitMod(v, b, Pow(b, n - 1));
    }
  }

  lemma ValueSnoc(xs: seq<int>, d: int, b: nat)
    ensures Value(xs + [d], b) == Value(xs, b) * b + d
  {
    assert (xs + [d])[..|xs|] == xs;
  }

  lemma DivMod(v: int, b: nat)
    requires b > 0
    ensures v == v / b * b + v % b && 0 <= v % b < b
    ensures v >= 0 ==> v / b >= 0
  {
  }

  lemma SplitMod(v: int, b: nat, m: nat)
    requires b > 0 && m > 0
    ensures v % (m * b) == (v / b) % m * b + v % b
  {
    var q, r := v / b, v % b;
    var h, l := q / m, q % m;
    DivMod(v, b);
    DivMod(q, m);
    NestQuotients(v, q, r, h, l, b, m);
    DivModUnique(h, l * b + r, m * b);
  }

  lemma NestQuotients(v: int, q: int, r: int, h: int, l: int, b: int, m: int)
    requires v == q * b + r && q == h * m + l && 0 <= r < b && 0 <= l < m
    ensures v == h * (m * b) + (l * b + r)
    ensures 0 <= l * b + r < m * b
  {
    Horner(h, m, l, b);
    ShiftBounds(0, l, m, r, b);
  }

  /** Shortest notation: reading undoes printing. */
  lemma {:induction false} ValueOfDigits(v: nat, b: nat)
    requires b > 1
    ensures Value(Digits(v, b), b) == v
    decreases v
  {
    if v > 0 {
      DivShrinks(v, b);
      ValueOfDigits(v / b, b);
      ValueSnoc(Digits(v / b, b), v % b, b);
      DivMod(v, b);
    }
  }

  /** Representations without a leading zero are unique. */
  lemma {:induction false} DigitsOfValue(xs: seq<int>, b: nat)
    requires b > 1 && IsDigits(xs, b) && (|xs| > 0 ==> xs[0] > 0)
    ensures Value(xs, b) >= 0 && Digits(Value(xs, b), b) == xs
  {
    ValueBounds(xs, b);
    if |xs| > 0 {
      var p := xs[..|xs| - 1];
      DigitsOfValue(p, b);
      ValueBounds(p, b);
      DivModUnique(Value(p, b), xs[|xs| - 1], b);
      assert Value(xs, b) > 0;
    }
  }

  /** Padding the shortest notation with zeros gives the fixed-width one. */
  lemma {:induction false} PaddedDigits(v: nat, b: nat, n: nat)
    requires b > 1 && v < Pow(b, n)
    ensures |Digits(v, b)| <= n
    ensures Repeat(0, n - |Digits(v, b)|) + Digits(v, b) == FixedDigits(v, b, n)
  {
    var ds := Digits(v, b);
    ValueOfDigits(v, b);
    ValueBounds(ds, b);
    if |ds| > n {
      PowMonotone(b, b, n, |ds| - 1);
    }
    var padded := Repeat(0, n - |ds|) + ds;
    ValueSkipZeros(n - |ds|, ds, b);
    FixedDigitsOfValue(padded, b);
  }

  function CeilDiv(a: nat, b: nat): (q: nat)
    requires b > 0
    ensures (q - 1) * b < a <= q * b
  {
    (a + b - 1) / b
  }
}
