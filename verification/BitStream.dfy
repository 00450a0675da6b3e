/**
 Regrouping a stream of small numbers into numbers of another width, as the base32 and base64
 loops do with an accumulator and a count of pending bits.
 */
module BitStream {
  import opened Common
  import opened Radix

  /** The whole `to`-bit groups of the concatenated `from`-bit numbers; a shorter rest is dropped. */
  function Regroup(xs: seq<int>, from: nat, to: nat): (ys: seq<int>)
    requires to > 0 && IsDigits(xs, Pow(2, from))
    ensures |ys| == |xs| * from / to && IsDigits(ys, Pow(2, to))
  {
    ValueBounds(xs, Pow(2, from));
    var bits := |xs| * from;
    DivMod(bits, to);
    DivMod(Value(xs, Pow(2, from)), Pow(2, bits % to));
    FixedDigits(Value(xs, Pow(2, from)) / Pow(2, bits % to), Pow(2, to), bits / to)
  }

  /** The `to`-bit groups of the concatenated `from`-bit numbers, the last one filled up with zero bits. */
  function RegroupPadded(xs: seq<int>, from: nat, to: nat): (ys: seq<int>)
    requires to > 0 && IsDigits(xs, Pow(2, from))
    ensures |ys| == CeilDiv(|xs| * from, to) && IsDigits(ys, Pow(2, to))
  {
    ValueBounds(xs, Pow(2, from));
    var n := CeilDiv(|xs| * from, to);
    var pad := n * to - |xs| * from;
    FixedDigits(Value(xs, Pow(2, from)) * Pow(2, pad), Pow(2, to), n)
  }

  /**
   What the accumulator loops maintain: the groups already put out, followed by the low `pending`
   bits of the accumulator, are the bits read so far. Higher accumulator bits do not matter.
   */
  ghost predicate Streaming(read: seq<int>, from: nat, out: seq<int>, to: nat, acc: int, pending: nat) {
    && IsDigits(read, Pow(2, from)) && IsDigits(out, Pow(2, to))
    && |out| * to + pending == |read| * from
    && WithLowBits(Value(out, Pow(2, to)), acc, pending) == Value(read, Pow(2, from))
  }

  /** The number whose bits are those of `v` followed by the low `n` bits of `acc`. */
  function WithLowBits(v: int, acc: int, n: nat): int
    decreases n
  {
    if n == 0 then v else 2 * WithLowBits(v, acc / 2, n - 1) + acc % 2
  }

  lemma {:induction false} WithLowBitsIs(v: int, acc: int, n: nat)
    ensures WithLowBits(v, acc, n) == v * Pow(2, n) + acc % Pow(2, n)
    decreases n
  {
    if n > 0 {
      WithLowBitsIs(v, acc / 2, n - 1);
      SplitMod(acc, 2, Pow(2, n - 1));
      Horner(v, Pow(2, n - 1), 0, 2);
    }
  }

  lemma Start(from: nat, to: nat, acc: int)
    ensures Streaming([], from, [], to, acc, 0)
  {
  }

  /** Reading one number: shift it in from the right, keeping only a register's worth of bits. */
  lemma Read(read: seq<int>, from: nat, out: seq<int>, to: nat, acc: int, pending: nat, x: int, acc': int)
    requires Streaming(read, from, out, to, acc, pending) && 0 <= x < Pow(2, from) && pending + from <= 32
    requires (acc * Pow(2, from) + x - acc') % TWO_32 == 0
    ensures Streaming(read + [x], from, out, to, acc', pending + from)
  {
    ValueSnoc(read, x, Pow(2, from));
    ReadBits(Value(out, Pow(2, to)), acc, pending, from, x, acc');
    OneMore(|read|, from);
  }

  lemma ReadBits(v: int, acc: int, pending: nat, from: nat, x: int, acc': int)
    requires 0 <= x < Pow(2, from) && pending + from <= 32
    requires (acc * Pow(2, from) + x - acc') % TWO_32 == 0
    ensures WithLowBits(v, acc', pending + from) == WithLowBits(v, acc, pending) * Pow(2, from) + x
  {
    WithLowBitsIs(v, acc, pending);
    WithLowBitsIs(v, acc', pending + from);
    ReadLow(acc, pending, from, x, acc');
    PowAdd(2, pending, from);
    Horner(v, Pow(2, pending), acc % Pow(2, pending), Pow(2, from));
  }

  lemma OneMore(n: int, w: int)
    ensures (n + 1) * w == n * w + w
  {
  }

  lemma ReadLow(acc: int, pending: nat, from: nat, x: int, acc': int)
    requires 0 <= x < Pow(2, from) && pending + from <= 32
    requires (acc * Pow(2, from) + x - acc') % TWO_32 == 0
    ensures acc' % Pow(2, pending + from) == acc % Pow(2, pending) * Pow(2, from) + x
  {
    PowAdd(2, pending, from);
    PowAdd(2, pending + from, 32 - pending - from);
    Pow32();
    LowBits(acc, x, acc', Pow(2, pending), Pow(2, from), Pow(2, 32 - pending - from));
  }

  lemma Pow32()
    ensures Pow(2, 32) == TWO_32
  {
    assert Pow(2, 8) == 256;
    PowAdd(2, 8, 8);
    PowAdd(2, 16, 16);
  }

  lemma LowBits(acc: int, x: int, acc': int, p: nat, f: nat, rest: nat)
    requires p > 0 && f > 0 && rest > 0 && 0 <= x < f
    requires p * f * rest > 0 && (acc * f + x - acc') % (p * f * rest) == 0
    ensures acc' % (p * f) == acc % p * f + x
  {
    var m := p * f;
    var k := (acc * f + x - acc') / (m * rest);
    var q, low := acc / p, acc % p;
    DivMod(acc, p);
    DivMod(acc * f + x - acc', m * rest);
    ShiftBounds(0, low, p, x, f);
    assert acc * f == q * m + low * f by {
      Horner(q, p, low, f);
    }
    assert k * (m * rest) == k * rest * m;
    assert acc' == (q - k * rest) * m + (low * f + x);
    DivModUnique(q - k * rest, low * f + x, m);
  }

  /** Putting out one group: the top `to` bits of the pending ones. */
  lemma Emit(read: seq<int>, from: nat, out: seq<int>, to: nat, acc: int, pending: nat)
    requires Streaming(read, from, out, to, acc, pending) && to <= pending
    ensures 0 <= acc / Pow(2, pending - to) % Pow(2, to) < Pow(2, to)
    ensures Streaming(read, from, out + [acc / Pow(2, pending - to) % Pow(2, to)], to, acc, pending - to)
  {
    var t, r := Pow(2, to), Pow(2, pending - to);
    var d := acc / r % t;
    WithLowBitsIs(Value(out, t), acc, pending);
    WithLowBitsIs(Value(out + [d], t), acc, pending - to);
    DivMod(acc / r, t);
    PowAdd(2, pending - to, to);
    ValueSnoc(out, d, t);
    SplitGroup(acc, r, t);
    EmitStep(Value(out, t), t, d, r);
    OneMore(|out|, to);
  }

  lemma EmitStep(v: int, t: int, d: int, r: int)
    ensures (v * t + d) * r == v * (r * t) + d * r
  {
    Horner(v, t, d, r);
    assert t * r == r * t;
  }

  lemma SplitGroup(acc: int, r: nat, t: nat)
    requires r > 0 && t > 0
    ensures acc % (r * t) == acc / r % t * r + acc % r
  {
    var q, low := acc / r, acc % r;
    var h, d := q / t, q % t;
    DivMod(acc, r);
    DivMod(q, t);
    ShiftBounds(0, d, t, low, r);
    assert q * r == h * (r * t) + d * r by {
      Horner(h, t, d, r);
      assert t * r == r * t;
    }
    DivModUnique(h, d * r + low, r * t);
  }

  /** Regrouping is division: the number of the whole groups is the number of all the bits without the rest. */
  lemma RegroupValue(xs: seq<int>, from: nat, to: nat)
    requires to > 0 && IsDigits(xs, Pow(2, from))
    ensures Value(Regroup(xs, from, to), Pow(2, to)) == Value(xs, Pow(2, from)) / Pow(2, |xs| * from % to)
  {
    var n, rest := |xs| * from / to, |xs| * from % to;
    var v := Value(xs, Pow(2, from));
    ValueBounds(xs, Pow(2, from));
    DivMod(|xs| * from, to);
    DivMod(v, Pow(2, rest));
    QuotientFits(v, |xs|, from, n, to, rest);
    ValueOfFixedDigits(v / Pow(2, rest), Pow(2, to), n);
    SmallMod(v / Pow(2, rest), Pow(Pow(2, to), n));
  }

  lemma QuotientFits(v: nat, k: nat, from: nat, n: nat, to: nat, rest: nat)
    requires v < Pow(Pow(2, from), k) && k * from == n * to + rest
    ensures 0 <= v / Pow(2, rest) < Pow(Pow(2, to), n)
  {
    Swapped(k, from);
    Swapped(n, to);
    SplitWidth(k, from, from * k, n, to, to * n, rest);
    QuotientBelow(v, Pow(Pow(2, to), n), Pow(2, rest));
  }

  lemma SplitWidth(k: nat, from: nat, all: nat, n: nat, to: nat, whole: nat, rest: nat)
    requires all == from * k && whole == to * n && all == whole + rest
    ensures Pow(Pow(2, from), k) == Pow(Pow(2, to), n) * Pow(2, rest)
  {
    PowPow(2, from, k);
    PowPow(2, to, n);
    PowAdd(2, whole, rest);
  }

  lemma Swapped(x: int, y: int)
    ensures x * y == y * x
  {
  }

  lemma QuotientBelow(v: nat, p: nat, r: nat)
    requires r > 0 && v < p * r
    ensures 0 <= v / r < p
  {
    DivMod(v, r);
    if v / r >= p {
      MulOrdered(p, v / r, r);
    }
  }

  /** When less than a group is pending, the output is the regrouping of the input. */
  lemma Stop(read: seq<int>, from: nat, out: seq<int>, to: nat, acc: int, pending: nat)
    requires Streaming(read, from, out, to, acc, pending) && pending < to
    ensures out == Regroup(read, from, to)
  {
    WithLowBitsIs(Value(out, Pow(2, to)), acc, pending);
    DivModUnique(|out|, pending, to);
    var p := Pow(2, pending);
    DivMod(acc, p);
    DivModUnique(Value(out, Pow(2, to)), acc % p, p);
    FixedDigitsOfValue(out, Pow(2, to));
  }

  /** The encoder's last group: the pending bits, shifted up to fill it. */
  lemma StopPadded(read: seq<int>, from: nat, out: seq<int>, to: nat, acc: int, pending: nat)
    requires Streaming(read, from, out, to, acc, pending) && pending < to
    ensures 0 <= acc % Pow(2, pending) * Pow(2, to - pending) < Pow(2, to)
    ensures RegroupPadded(read, from, to)
         == if pending == 0 then out else out + [acc % Pow(2, pending) * Pow(2, to - pending)]
  {
    DivMod(acc, Pow(2, pending));
    PowAdd(2, pending, to - pending);
    ShiftBounds(0, acc % Pow(2, pending), Pow(2, pending), 0, Pow(2, to - pending));
    CeilDivIs(|out|, pending, to);
    if pending == 0 {
      FixedDigitsOfValue(out, Pow(2, to));
    } else {
      LastGroup(read, from, out, to, acc, pending);
    }
  }

  lemma LastGroup(read: seq<int>, from: nat, out: seq<int>, to: nat, acc: int, pending: nat)
    requires Streaming(read, from, out, to, acc, pending) && 0 < pending < to
    requires CeilDiv(|read| * from, to) == |out| + 1
    requires 0 <= acc % Pow(2, pending) * Pow(2, to - pending) < Pow(2, to)
    ensures RegroupPadded(read, from, to) == out + [acc % Pow(2, pending) * Pow(2, to - pending)]
  {
    var low, s := acc % Pow(2, pending), Pow(2, to - pending);
    WithLowBitsIs(Value(out, Pow(2, to)), acc, pending);
    OneMore(|out|, to);
    ValueSnoc(out, low * s, Pow(2, to));
    Horner(Value(out, Pow(2, to)), Pow(2, pending), low, s);
    PowAdd(2, pending, to - pending);
    FixedDigitsOfValue(out + [low * s], Pow(2, to));
  }

  lemma CeilDivIs(n: nat, rest: nat, b: nat)
    requires rest < b
    ensures CeilDiv(n * b + rest, b) == if rest == 0 then n else n + 1
  {
    if rest == 0 {
      DivModUnique(n, b - 1, b);
    } else {
      DivModUnique(n + 1, rest - 1, b);
    }
  }

  lemma {:induction false} PowPow(b: nat, m: nat, n: nat)
    ensures Pow(Pow(b, m), n) == Pow(b, m * n)
  {
    if n > 0 {
      PowPow(b, m, n - 1);
      PowAdd(b, m * (n - 1), m);
      assert m * (n - 1) + m == m * n;
    }
  }

  /** Regrouping bytes into groups of at most eight bits is undone by regrouping back. */
  lemma RegroupBack(bytes: seq<int>, w: nat)
    requires 0 < w <= 8 && IsDigits(bytes, Pow(2, 8))
    ensures Regroup(RegroupPadded(bytes, 8, w), w, 8) == bytes
  {
    var n := CeilDiv(|bytes| * 8, w);
    var pad := n * w - |bytes| * 8;
    var v := Value(bytes, Pow(2, 8));
    ValueBounds(bytes, Pow(2, 8));
    PadBelow(|bytes| * 8, w);
    PaddedFits(v, |bytes|, pad, n, w);
    ValueOfFixedDigits(v * Pow(2, pad), Pow(2, w), n);
    SmallMod(v * Pow(2, pad), Pow(Pow(2, w), n));
    DivModUnique(|bytes|, pad, 8);
    DivModUnique(v, 0, Pow(2, pad));
    FixedDigitsOfValue(bytes, Pow(2, 8));
  }

  lemma SmallMod(v: nat, m: nat)
    requires v < m
    ensures v % m == v
  {
    DivModUnique(0, v, m);
  }

  lemma PadBelow(bits: nat, w: nat)
    requires w > 0
    ensures 0 <= CeilDiv(bits, w) * w - bits < w
  {
    var n := CeilDiv(bits, w);
    assert (n - 1) * w == n * w - w;
  }

  lemma PaddedFits(v: nat, k: nat, pad: nat, n: nat, w: nat)
    requires v < Pow(Pow(2, 8), k) && n * w == k * 8 + pad
    ensures v * Pow(2, pad) < Pow(Pow(2, w), n)
  {
    PowPow(2, 8, k);
    PowPow(2, w, n);
    PowAdd(2, 8 * k, pad);
    ShiftBounds(0, v, Pow(2, 8 * k), 0, Pow(2, pad));
  }
}
