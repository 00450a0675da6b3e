/** The Base58 codec of the Solana signer (src/security/solana_signer.cpp). */
module Base58 {
  import opened Common
  import opened Radix

  const ALPHABET: string :=
    "123456789" + "ABCDEFGH" + "JKLMN" + "PQRSTUVWXYZ" + "abcdefghijk" + "mnopqrstuvwxyz"

  datatype Error = InvalidCharacter

  /** The digit a character stands for, or -1. */
  function DigitOf(c: char): (d: int)
    ensures -1 <= d < 58
  {
    if '1' <= c <= '9' then c as int - '1' as int
    else if 'A' <= c <= 'H' then c as int - 'A' as int + 9
    else if 'J' <= c <= 'N' then c as int - 'J' as int + 17
    else if 'P' <= c <= 'Z' then c as int - 'P' as int + 22
    else if 'a' <= c <= 'k' then c as int - 'a' as int + 33
    else if 'm' <= c <= 'z' then c as int - 'm' as int + 44
    else -1
  }

  /** The alphabet's characters, run by run. */
  lemma AlphabetRuns(i: int)
    requires 0 <= i < 58
    ensures |ALPHABET| == 58
    ensures ALPHABET[i] ==
            if i < 9 then "123456789"[i]
            else if i < 17 then "ABCDEFGH"[i - 9]
            else if i < 22 then "JKLMN"[i - 17]
            else if i < 33 then "PQRSTUVWXYZ"[i - 22]
            else if i < 44 then "abcdefghijk"[i - 33]
            else "mnopqrstuvwxyz"[i - 44]
  {
  }

  ghost predicate InRun(c: char, i: int) {
    if i < 9 then c as int == '1' as int + i
    else if i < 17 then c as int == 'A' as int + i - 9
    else if i < 22 then c as int == 'J' as int + i - 17
    else if i < 33 then c as int == 'P' as int + i - 22
    else if i < 44 then c as int == 'a' as int + i - 33
    else c as int == 'm' as int + i - 44
  }

  lemma GlyphInRun(i: int)
    requires 0 <= i < 58
    ensures |ALPHABET| == 58 && InRun(ALPHABET[i], i)
  {
    AlphabetRuns(i);
    if i < 9 {
      Run1(i);
    } else if i < 17 {
      Run2(i - 9);
    } else if i < 22 {
      Run3(i - 17);
    } else if i < 33 {
      Run4(i - 22);
    } else if i < 44 {
      Run5(i - 33);
    } else {
      Run6(i - 44);
    }
  }

  lemma Run1(i: nat)
    requires i < 9
    ensures "123456789"[i] as int == '1' as int + i
  {
  }

  lemma Run2(i: nat)
    requires i < 8
    ensures "ABCDEFGH"[i] as int == 'A' as int + i
  {
  }

  lemma Run3(i: nat)
    requires i < 5
    ensures "JKLMN"[i] as int == 'J' as int + i
  {
  }

  lemma Run4(i: nat)
    requires i < 11
    ensures "PQRSTUVWXYZ"[i] as int == 'P' as int + i
  {
  }

  lemma Run5(i: nat)
    requires i < 11
    ensures "abcdefghijk"[i] as int == 'a' as int + i
  {
  }

  lemma Run6(i: nat)
    requires i < 14
    ensures "mnopqrstuvwxyz"[i] as int == 'm' as int + i
  {
  }

  lemma DigitOfGlyph(i: int)
    requires 0 <= i < 58
    ensures |ALPHABET| == 58 && DigitOf(ALPHABET[i]) == i && ALPHABET[i] as int < 256
  {
    GlyphInRun(i);
  }

  lemma DigitOfInjective(c: char, d: char)
    requires DigitOf(c) == DigitOf(d) >= 0
    ensures c == d
  {
  }

  /** The alphabet and `DigitOf` are inverse to each other. */
  lemma GlyphOfDigit(c: char)
    requires DigitOf(c) >= 0
    ensures |ALPHABET| == 58 && ALPHABET[DigitOf(c)] == c
  {
    DigitOfGlyph(DigitOf(c));
    DigitOfInjective(c, ALPHABET[DigitOf(c)]);
  }

  lemma InAlphabet(c: char)
    ensures c in ALPHABET <==> DigitOf(c) >= 0
  {
    if c in ALPHABET {
      AlphabetRuns(0);
      var i :| 0 <= i < |ALPHABET| && ALPHABET[i] == c;
      DigitOfGlyph(i);
    } else if DigitOf(c) >= 0 {
      GlyphOfDigit(c);
    }
  }

  predicate IsBase58(s: string) {
    forall i :: 0 <= i < |s| ==> DigitOf(s[i]) >= 0
  }

  function DigitsOf(s: string): (ds: seq<int>)
    ensures |ds| == |s|
  {
    seq(|s|, i requires 0 <= i < |s| => DigitOf(s[i]))
  }

  function Glyphs(ds: seq<int>): (s: string)
    requires IsDigits(ds, 58)
    ensures |s| == |ds|
  {
    seq(|ds|, i requires 0 <= i < |ds| => Glyph(ds[i]))
  }

  function Glyph(d: int): (c: char)
    requires 0 <= d < 58
    ensures DigitOf(c) == d && c as int < 256
  {
    DigitOfGlyph(d);
    ALPHABET[d]
  }

  lemma GlyphsOfDigits(s: string)
    requires IsBase58(s)
    ensures IsDigits(DigitsOf(s), 58) && Glyphs(DigitsOf(s)) == s
  {
    forall i | 0 <= i < |s| ensures Glyph(DigitsOf(s)[i]) == s[i] {
      GlyphOfDigit(s[i]);
    }
  }

  /** How many elements in front of the first one that differs from `x`. */
  function LeadingRun<T(==)>(xs: seq<T>, x: T): (n: nat)
    ensures n <= |xs| && (forall i :: 0 <= i < n ==> xs[i] == x) && (n < |xs| ==> xs[n] != x)
  {
    RunFrom(xs, x, 0)
  }

  function RunFrom<T(==)>(xs: seq<T>, x: T, from: nat): (n: nat)
    requires from <= |xs|
    ensures from <= n <= |xs| && (forall i :: from <= i < n ==> xs[i] == x) && (n < |xs| ==> xs[n] != x)
    decreases |xs| - from
  {
    if from < |xs| && xs[from] == x then RunFrom(xs, x, from + 1) else from
  }

  lemma LeadingRunUnique<T>(xs: seq<T>, x: T, n: nat)
    requires n <= |xs| && (forall i :: 0 <= i < n ==> xs[i] == x) && (n < |xs| ==> xs[n] != x)
    ensures LeadingRun(xs, x) == n
  {
  }

  // What the two functions compute, on whole numbers.

  function Decoded(s: string): (r: Result<seq<int>, Error>) {
    if !IsBase58(s) then Err(InvalidCharacter) else
      ValueIsNat(DigitsOf(s), 58);
      Ok(Repeat(0, LeadingRun(s, '1')) + Digits(Value(DigitsOf(s), 58), 256))
  }

  function Encoded(bytes: seq<int>): (s: string)
    requires IsDigits(bytes, 256)
  {
    ValueIsNat(bytes, 256);
    Repeat('1', LeadingRun(bytes, 0)) + Glyphs(Digits(Value(bytes, 256), 58))
  }

  lemma ValueIsNat(ds: seq<int>, b: nat)
    requires IsDigits(ds, b) && b > 0
    ensures Value(ds, b) >= 0
  {
    ValueBounds(ds, b);
  }

  // The in-place loops.

  predicate Canonical(ds: seq<int>) {
    |ds| > 0 ==> ds[|ds| - 1] > 0
  }

  /** One pass over the little-endian digits: every digit becomes `digit * factor + carry`, reduced. */
  method CarryPass(ds: seq<int>, base: nat, factor: nat, add: nat) returns (out: seq<int>, carry: nat)
    requires base >= 2 && IsDigits(ds, base) && add < factor
    ensures |out| == |ds| && IsDigits(out, base) && carry < factor
    ensures ValueLE(out, base) + carry * Pow(base, |ds|) == factor * ValueLE(ds, base) + add
    ensures Canonical(ds) && carry == 0 && |ds| > 0 ==> Canonical(out)
    ensures |ds| == 0 ==> carry == add
  {
    out := ds;
    carry := add;
    var j := 0;
    while j < |out|
      invariant 0 <= j <= |out| == |ds|
      invariant IsDigits(out, base) && 0 <= carry < factor
      invariant out[j..] == ds[j..]
      invariant ValueLE(out[..j], base) + carry * Pow(base, j) == factor * ValueLE(ds[..j], base) + add
      invariant j > 0 && ds[j - 1] > 0 && carry == 0 ==> out[j - 1] > 0
      invariant j == 0 ==> carry == add
    {
      var d := out[j];
      assert d == out[j..][0] == ds[j];
      var x := d * factor + carry;
      ghost var before := out[..j];
      DivMod(x, base);
      CarryBound(x / base, x % base, d, factor, carry, base);
      CarryStep(ValueLE(before, base), carry, Pow(base, j), factor, ValueLE(ds[..j], base), add, d, x, base);
      PrefixSnoc(before, x % base, base, out, j);
      ValueLEPrefix(ds, j, base);
      out := out[j := x % base];
      carry := x / base;
      j := j + 1;
    }
    assert out[..j] == out && ds[..j] == ds;
  }

  /** One step of a codec on its little-endian digits: multiply by `factor`, add `add`. */
  method MultiplyAdd(ds: seq<int>, base: nat, factor: nat, add: nat) returns (out: seq<int>)
    requires base >= 2 && IsDigits(ds, base) && add < factor
    ensures IsDigits(out, base)
    ensures ValueLE(out, base) == factor * ValueLE(ds, base) + add
    ensures Canonical(ds) ==> Canonical(out)
    ensures |ds| <= |out|
    ensures factor <= base ==> |out| <= |ds| + 1
    ensures factor <= base * base ==> |out| <= |ds| + 2
  {
    var carry;
    out, carry := CarryPass(ds, base, factor, add);
    ghost var target := factor * ValueLE(ds, base) + add;
    while carry > 0
      invariant IsDigits(out, base) && 0 <= carry && |ds| <= |out|
      invariant ValueLE(out, base) + carry * Pow(base, |out|) == target
      invariant Canonical(ds) && carry == 0 ==> Canonical(out)
      invariant |out| == |ds| ==> carry < factor
      invariant |out| == |ds| + 1 ==> carry * base < factor
      invariant factor <= base ==> |out| <= |ds| + 1 && (|out| == |ds| + 1 ==> carry == 0)
      invariant factor <= base * base ==> |out| <= |ds| + 2 && (|out| == |ds| + 2 ==> carry == 0)
      decreases carry
    {
      DivShrinks(carry, base);
      PushBounds(carry, factor, base);
      ValueLESnoc(out, carry % base, base);
      PushStep(carry, Pow(base, |out|), base);
      out := out + [carry % base];
      carry := carry / base;
    }
  }

  lemma PrefixSnoc(before: seq<int>, d: int, b: nat, out: seq<int>, j: nat)
    requires j < |out| && before == out[..j]
    ensures ValueLE(out[j := d][..j + 1], b) == ValueLE(before, b) + d * Pow(b, j)
    ensures out[j := d][j + 1..] == out[j..][1..]
  {
    assert out[j := d][..j + 1] == before + [d];
    ValueLESnoc(before, d, b);
  }

  lemma ValueLEPrefix(xs: seq<int>, j: nat, b: nat)
    requires j < |xs|
    ensures ValueLE(xs[..j + 1], b) == ValueLE(xs[..j], b) + xs[j] * Pow(b, j)
    ensures xs[j + 1..] == xs[j..][1..]
  {
    assert xs[..j + 1] == xs[..j] + [xs[j]];
    ValueLESnoc(xs[..j], xs[j], b);
  }

  lemma ValueLESnoc(xs: seq<int>, d: int, b: nat)
    ensures ValueLE(xs + [d], b) == ValueLE(xs, b) + d * Pow(b, |xs|)
  {
    assert (xs + [d])[..|xs|] == xs;
  }

  /** The carry stays below the factor, so the carries are at most 57 and 255. */
  lemma CarryBound(q: int, r: int, d: int, factor: int, carry: int, base: int)
    requires 0 <= d < base && 0 <= carry < factor && 0 <= r < base
    requires q * base + r == d * factor + carry
    ensures 0 <= q < factor
    ensures q == 0 && d > 0 ==> r > 0
  {
    ShiftBounds(0, d, base, carry, factor);
    if q >= factor {
      MulOrdered(factor, q, base);
    }
    if q <= -1 {
      MulOrdered(q, -1, base);
    }
    if d > 0 {
      MulOrdered(1, d, factor);
    }
  }

  lemma CarryStep(v: int, carry: int, p: int, factor: int, w: int, add: int, d: int, x: int, base: nat)
    requires base > 0
    requires v + carry * p == factor * w + add && x == d * factor + carry
    ensures v + (x % base) * p + (x / base) * (p * base) == factor * (w + d * p) + add
  {
    DivMod(x, base);
    var q, r := x / base, x % base;
    assert q * (p * base) == q * base * p;
    assert (q * base + r) * p == q * base * p + r * p;
    assert (d * factor + carry) * p == d * factor * p + carry * p;
    assert factor * (w + d * p) == factor * w + factor * (d * p);
    assert factor * (d * p) == d * factor * p;
  }

  lemma PushStep(carry: int, p: int, base: nat)
    requires base > 0
    ensures carry * p == (carry % base) * p + (carry / base) * (p * base)
  {
    DivMod(carry, base);
    var q, r := carry / base, carry % base;
    assert (q * base + r) * p == q * base * p + r * p;
    assert q * (p * base) == q * base * p;
  }

  lemma PushBounds(carry: nat, factor: nat, base: nat)
    requires base >= 2
    ensures carry / base * base <= carry
    ensures carry < base ==> carry / base == 0 && carry % base == carry
    ensures carry * base < factor <= base * base ==> carry < base
  {
    DivMod(carry, base);
    if carry < base {
      DivModUnique(0, carry, base);
    }
    assert carry >= base ==> (carry - base) * base >= 0;
    assert (carry - base) * base == carry * base - base * base;
  }

  // The two codecs.

  /** A table that answers, for every `unsigned char`, what `DigitOf` answers. */
  ghost predicate IsIndex(table: seq<int>) {
    |table| == 256 && forall c: char | c as int < 256 :: table[c as int] == DigitOf(c)
  }

  /** The lookup table: built from the alphabet, it answers exactly as `DigitOf` does. */
  method BuildIndexes() returns (indexes: array<int>)
    ensures fresh(indexes) && IsIndex(indexes[..])
  {
    indexes := new int[256](_ => -1);
    GlyphInRun(0);
    for i := 0 to |ALPHABET|
      invariant |ALPHABET| == 58 && fresh(indexes) && indexes.Length == 256
      invariant forall c: char | c as int < 256 ::
          indexes[c as int] == if DigitOf(c) < i then DigitOf(c) else -1
    {
      DigitOfGlyph(i);
      forall c: char | DigitOf(c) == i ensures c == ALPHABET[i] {
        DigitOfInjective(c, ALPHABET[i]);
      }
      indexes[ALPHABET[i] as int] := i;
    }
  }

  method DecodeBase58(input: ByteString) returns (r: Result<seq<byte>, Error>)
    ensures r == Decoded(input)
    ensures r.Ok? <==> forall c <- input :: c in ALPHABET
    ensures r.Err? ==> r.error == InvalidCharacter
    ensures r.Ok? ==> Value(r.value, 256) == Value(DigitsOf(input), 58)
    ensures r.Ok? ==> LeadingRun(r.value, 0) == LeadingRun(input, '1')
  {
    DecodedMeans(input);
    if |input| == 0 {
      DecodedFromDigits(input, []);
      return Ok([]);
    }
    var valid, bytes := AccumulateBytes(input);
    if !valid {
      return Err(InvalidCharacter);
    }
    var leadingZeros := CountLeading(input, '1');
    r := FinishDecode(input, bytes, leadingZeros);
  }

  /** The loop over the characters; it stops at the first one outside the alphabet. */
  method AccumulateBytes(input: ByteString) returns (valid: bool, bytes: seq<int>)
    ensures valid == IsBase58(input)
    ensures valid ==> IsDigits(bytes, 256) && Canonical(bytes)
    ensures valid ==> ValueLE(bytes, 256) == Value(DigitsOf(input), 58)
  {
    var indexes := BuildIndexes();
    bytes := [];
    for i := 0 to |input|
      invariant IsIndex(indexes[..]) && IsBase58(input[..i])
      invariant IsDigits(bytes, 256) && Canonical(bytes)
      invariant ValueLE(bytes, 256) == Value(DigitsOf(input[..i]), 58)
    {
      var value := indexes[input[i] as int];
      TableAt(indexes[..], input[i]);
      if value < 0 {
        return false, bytes;
      }
      bytes := AccumulateOne(input, i, bytes, value);
    }
    assert input[..|input|] == input;
    valid := true;
  }

  /** The rest of the loop's body for a character of the alphabet. */
  method AccumulateOne(ghost input: string, ghost i: nat, bytes: seq<int>, value: nat) returns (out: seq<int>)
    requires i < |input| && IsBase58(input[..i]) && value == DigitOf(input[i])
    requires IsDigits(bytes, 256) && Canonical(bytes)
    requires ValueLE(bytes, 256) == Value(DigitsOf(input[..i]), 58)
    ensures IsBase58(input[..i + 1]) && IsDigits(out, 256) && Canonical(out)
    ensures ValueLE(out, 256) == Value(DigitsOf(input[..i + 1]), 58)
  {
    DigitsOfSnoc(input, i);
    out := MultiplyAdd(bytes, 256, 58, value);
    assert input[..i + 1] == input[..i] + [input[i]];
  }

  /** The last part of decoding: append the zeros and turn the bytes around. */
  method FinishDecode(input: string, bytes: seq<int>, leadingZeros: nat) returns (r: Result<seq<byte>, Error>)
    requires IsBase58(input) && IsDigits(bytes, 256) && Canonical(bytes)
    requires ValueLE(bytes, 256) == Value(DigitsOf(input), 58)
    requires leadingZeros == LeadingRun(input, '1')
    ensures r == Decoded(input)
  {
    DecodedFromDigits(input, bytes);
    var result: seq<byte> := Reverse(bytes + Repeat(0, leadingZeros));
    r := Ok(result);
  }

  lemma TableAt(table: seq<int>, c: octet)
    requires IsIndex(table)
    ensures table[c as int] == DigitOf(c)
  {
  }

  lemma DigitsOfSnoc(input: string, i: nat)
    requires i < |input|
    ensures Value(DigitsOf(input[..i + 1]), 58) == Value(DigitsOf(input[..i]), 58) * 58 + DigitOf(input[i])
  {
    assert DigitsOf(input[..i + 1]) == DigitsOf(input[..i]) + [DigitOf(input[i])];
    ValueSnoc(DigitsOf(input[..i]), DigitOf(input[i]), 58);
  }

  /** The canonical little-endian bytes of a string's number, with its leading zeros, are its decoding. */
  lemma DecodedFromDigits(input: string, bytes: seq<int>)
    requires IsBase58(input) && IsDigits(bytes, 256) && Canonical(bytes)
    requires ValueLE(bytes, 256) == Value(DigitsOf(input), 58)
    ensures Decoded(input) == Ok(Reverse(bytes + Repeat(0, LeadingRun(input, '1'))))
  {
    CanonicalIsDigits(bytes, 256);
    ReverseAppendZeros(bytes, LeadingRun(input, '1'));
  }

  method EncodeBase58(data: seq<byte>) returns (s: string)
    ensures s == Encoded(data)
  {
    if |data| == 0 {
      return [];
    }
    var leadingZeros := CountLeading(data, 0);
    var digits: seq<int> := [0];
    ghost var tail: seq<int> := data[leadingZeros..];
    ZeroDigit();
    for i := leadingZeros to |data|
      invariant IsDigits(digits, 58)
      invariant ValueLE(digits, 58) == Value(tail[..i - leadingZeros], 256)
    {
      ValuePrefix(tail, i - leadingZeros, 256);
      digits := MultiplyAdd(digits, 58, 256, data[i]);
    }
    assert tail[..|data| - leadingZeros] == tail;
    var nonZero := TrimTop(digits);
    EncodedFromDigits(data, digits[..nonZero]);
    var text := PrintDigits(digits, nonZero);
    s := Repeat('1', leadingZeros) + text;
  }

  lemma ZeroDigit()
    ensures ValueLE([0], 58) == 0
  {
  }

  lemma ValuePrefix(xs: seq<int>, i: nat, b: nat)
    requires i < |xs|
    ensures Value(xs[..i + 1], b) == Value(xs[..i], b) * b + xs[i]
  {
    assert xs[..i + 1] == xs[..i] + [xs[i]];
    ValueSnoc(xs[..i], xs[i], b);
  }

  /** The loop that drops zero digits from the top. */
  method TrimTop(digits: seq<int>) returns (nonZero: nat)
    requires IsDigits(digits, 58)
    ensures nonZero <= |digits| && Canonical(digits[..nonZero])
    ensures ValueLE(digits[..nonZero], 58) == ValueLE(digits, 58)
  {
    nonZero := |digits|;
    assert digits[..nonZero] == digits;
    while nonZero > 0 && digits[nonZero - 1] == 0
      invariant 0 <= nonZero <= |digits|
      invariant ValueLE(digits[..nonZero], 58) == ValueLE(digits, 58)
    {
      ValueLEPrefix(digits, nonZero - 1, 58);
      nonZero := nonZero - 1;
    }
  }

  /** The printing loop: from the top digit down to the lowest. */
  method PrintDigits(digits: seq<int>, nonZero: nat) returns (s: string)
    requires nonZero <= |digits| && IsDigits(digits, 58)
    ensures s == Glyphs(Reverse(digits[..nonZero]))
  {
    s := [];
    var i := nonZero;
    while i > 0
      invariant 0 <= i <= nonZero
      invariant s == Glyphs(Reverse(digits[i..nonZero]))
    {
      DigitOfGlyph(digits[i - 1]);
      assert Reverse(digits[i - 1..nonZero]) == Reverse(digits[i..nonZero]) + [digits[i - 1]];
      s := s + [ALPHABET[digits[i - 1]]];
      i := i - 1;
    }
    assert digits[0..nonZero] == digits[..nonZero];
  }

  /** The canonical little-endian digits of a byte string's number, behind its leading ones, are its encoding. */
  lemma EncodedFromDigits(data: seq<byte>, digits: seq<int>)
    requires IsDigits(digits, 58) && Canonical(digits)
    requires ValueLE(digits, 58) == Value(data[LeadingRun(data, 0)..], 256)
    ensures Encoded(data) == Repeat('1', LeadingRun(data, 0)) + Glyphs(Reverse(digits))
  {
    SplitLeading(data, 256);
    CanonicalIsDigits(digits, 58);
  }

  /** A number does not change when its leading zeros go. */
  lemma SplitLeading(xs: seq<int>, b: nat)
    ensures xs == Repeat(0, LeadingRun(xs, 0)) + xs[LeadingRun(xs, 0)..]
    ensures Value(xs[LeadingRun(xs, 0)..], b) == Value(xs, b)
  {
    var z := LeadingRun(xs, 0);
    assert xs == xs[..z] + xs[z..];
    ValueSkipZeros(z, xs[z..], b);
  }

  /** The scanning loop both codecs run over their input. */
  method CountLeading<T(==)>(xs: seq<T>, x: T) returns (n: nat)
    ensures n == LeadingRun(xs, x)
  {
    n := 0;
    while n < |xs| && xs[n] == x
      invariant n <= |xs| && forall i :: 0 <= i < n ==> xs[i] == x
    {
      n := n + 1;
    }
    LeadingRunUnique(xs, x, n);
  }

  lemma CanonicalIsDigits(ds: seq<int>, b: nat)
    requires b > 1 && IsDigits(ds, b) && Canonical(ds)
    ensures ValueLE(ds, b) >= 0 && Reverse(ds) == Digits(ValueLE(ds, b), b)
  {
    ValueLEIsReverse(ds, b);
    DigitsOfValue(Reverse(ds), b);
  }

  lemma ReverseAppendZeros(xs: seq<int>, n: nat)
    ensures Reverse(xs + Repeat(0, n)) == Repeat(0, n) + Reverse(xs)
  {
  }

  // Main results.

  /**
   What decoding means: exactly the texts over the alphabet have one, and it is the byte string with the text's
   number and as many leading zero bytes as the text has leading ones. No other byte string has both.
   */
  lemma DecodedMeans(s: string)
    ensures Decoded(s).Ok? <==> forall c <- s :: c in ALPHABET
    ensures Decoded(s).Ok? ==>
              && IsDigits(Decoded(s).value, 256)
              && Value(Decoded(s).value, 256) == Value(DigitsOf(s), 58)
              && LeadingRun(Decoded(s).value, 0) == LeadingRun(s, '1')
  {
    forall c: char ensures c in ALPHABET <==> DigitOf(c) >= 0 {
      InAlphabet(c);
    }
    if Decoded(s).Ok? {
      assert IsBase58(s);
      ValueIsNat(DigitsOf(s), 58);
      ZerosAndDigits(LeadingRun(s, '1'), Value(DigitsOf(s), 58), 256);
    }
  }

  lemma ZerosAndDigits(z: nat, v: nat, b: nat)
    requires b > 1
    ensures var xs := Repeat(0, z) + Digits(v, b);
      IsDigits(xs, b) && Value(xs, b) == v && LeadingRun(xs, 0) == z
  {
    ValueSkipZeros(z, Digits(v, b), b);
    ValueOfDigits(v, b);
    LeadingRunUnique(Repeat(0, z) + Digits(v, b), 0, z);
  }

  /** What encoding means: the text over the alphabet with the bytes' number and as many leading ones as zero bytes. */
  lemma EncodedMeans(bytes: seq<byte>)
    ensures forall c <- Encoded(bytes) :: c in ALPHABET
    ensures Value(DigitsOf(Encoded(bytes)), 58) == Value(bytes, 256)
    ensures LeadingRun(Encoded(bytes), '1') == LeadingRun(bytes, 0)
  {
    DecodeUndoesEncode(bytes);
    DecodedMeans(Encoded(bytes));
  }

  /** The leading zeros and the number determine a sequence of digits. */
  lemma ZerosAndNumberDetermine(xs: seq<int>, ys: seq<int>, b: nat)
    requires b > 1 && IsDigits(xs, b) && IsDigits(ys, b)
    requires Value(xs, b) == Value(ys, b) && LeadingRun(xs, 0) == LeadingRun(ys, 0)
    ensures xs == ys
  {
    ShortestForm(xs, b);
    ShortestForm(ys, b);
  }

  /** Every byte string survives encoding and decoding. */
  lemma DecodeUndoesEncode(bytes: seq<byte>)
    ensures Decoded(Encoded(bytes)) == Ok(bytes)
  {
    ShortestForm(bytes, 256);
    DecodedBehindOnes(LeadingRun(bytes, 0), Value(bytes, 256), Encoded(bytes), bytes);
  }

  /** A sequence of digits is its leading zeros and then the shortest form of its number. */
  lemma ShortestForm(xs: seq<int>, b: nat)
    requires b > 1 && IsDigits(xs, b)
    ensures Value(xs, b) >= 0
    ensures xs == Repeat(0, LeadingRun(xs, 0)) + Digits(Value(xs, b), b)
  {
    var z := LeadingRun(xs, 0);
    var tail := xs[z..];
    TailOfDigits(xs, z, tail, b);
    FormOfTail(xs, z, tail, b, Value(xs, b));
  }

  lemma TailOfDigits(xs: seq<int>, z: nat, tail: seq<int>, b: nat)
    requires IsDigits(xs, b) && z == LeadingRun(xs, 0) && tail == xs[z..]
    ensures xs == Repeat(0, z) + tail && Value(tail, b) == Value(xs, b)
    ensures IsDigits(tail, b) && (|tail| > 0 ==> tail[0] > 0)
  {
    SplitLeading(xs, b);
  }

  lemma FormOfTail(xs: seq<int>, z: nat, tail: seq<int>, b: nat, v: int)
    requires xs == Repeat(0, z) + tail && Value(tail, b) == v
    requires b > 1 && IsDigits(tail, b) && (|tail| > 0 ==> tail[0] > 0)
    ensures v >= 0 && xs == Repeat(0, z) + Digits(v, b)
  {
    DigitsOfValue(tail, b);
  }

  /** `z` ones and then the digits of `v` decode to `z` zero bytes and then the bytes of `v`. */
  lemma DecodedBehindOnes(z: nat, v: nat, s: string, bytes: seq<int>)
    requires s == Repeat('1', z) + Glyphs(Digits(v, 58)) && bytes == Repeat(0, z) + Digits(v, 256)
    ensures Decoded(s) == Ok(bytes)
  {
    DigitsBehindZeros(z, Digits(v, 58));
    ValueOfDigits(v, 58);
  }

  /** Reading back `z` ones in front of digits whose first is not zero. */
  lemma DigitsBehindZeros(z: nat, ds: seq<int>)
    requires IsDigits(ds, 58) && (|ds| > 0 ==> ds[0] > 0)
    ensures var s := Repeat('1', z) + Glyphs(ds);
      IsBase58(s) && LeadingRun(s, '1') == z && Value(DigitsOf(s), 58) == Value(ds, 58)
  {
    DigitsOfOnes(z, ds);
    LeadingOnes(z, ds);
    ValueSkipZeros(z, ds, 58);
  }

  lemma DigitsOfOnes(z: nat, ds: seq<int>)
    requires IsDigits(ds, 58)
    ensures IsBase58(Repeat('1', z) + Glyphs(ds))
    ensures DigitsOf(Repeat('1', z) + Glyphs(ds)) == Repeat(0, z) + ds
  {
  }

  lemma LeadingOnes(z: nat, ds: seq<int>)
    requires IsDigits(ds, 58) && (|ds| > 0 ==> ds[0] > 0)
    ensures LeadingRun(Repeat('1', z) + Glyphs(ds), '1') == z
  {
    LeadingRunUnique(Repeat('1', z) + Glyphs(ds), '1', z);
  }

  /** Every string over the alphabet is the encoding of what it decodes to. */
  lemma EncodeUndoesDecode(s: string)
    requires IsBase58(s)
    ensures Decoded(s).Ok? && IsDigits(Decoded(s).value, 256) && Encoded(Decoded(s).value) == s
  {
    var z := LeadingRun(s, '1');
    ValueIsNat(DigitsOf(s), 58);
    EncodedBehindZeros(z, Value(DigitsOf(s), 58));
    GlyphsBehindOnes(s);
  }

  /** `z` zero bytes and then the bytes of `v` encode to `z` ones and then the digits of `v`. */
  lemma EncodedBehindZeros(z: nat, v: nat)
    ensures IsDigits(Repeat(0, z) + Digits(v, 256), 256)
    ensures Encoded(Repeat(0, z) + Digits(v, 256)) == Repeat('1', z) + Glyphs(Digits(v, 58))
  {
    ValueSkipZeros(z, Digits(v, 256), 256);
    LeadingRunUnique(Repeat(0, z) + Digits(v, 256), 0, z);
    ValueOfDigits(v, 256);
  }

  /** A string is its leading ones and then the digits of its number. */
  lemma GlyphsBehindOnes(s: string)
    requires IsBase58(s)
    ensures Value(DigitsOf(s), 58) >= 0
    ensures s == Repeat('1', LeadingRun(s, '1')) + Glyphs(Digits(Value(DigitsOf(s), 58), 58))
  {
    OnesAreZeros(s);
    GlyphsOfDigits(s);
    ShortestForm(DigitsOf(s), 58);
    GlyphsOfZeros(LeadingRun(s, '1'), Digits(Value(DigitsOf(s), 58), 58));
  }

  lemma GlyphsOfZeros(z: nat, ds: seq<int>)
    requires IsDigits(ds, 58)
    ensures IsDigits(Repeat(0, z) + ds, 58)
    ensures Glyphs(Repeat(0, z) + ds) == Repeat('1', z) + Glyphs(ds)
  {
    assert Glyph(0) == '1' by {
      DigitOfInjective(Glyph(0), '1');
    }
  }

  /** The character '1' is the digit zero, and no other character is. */
  lemma OnesAreZeros(s: string)
    ensures LeadingRun(DigitsOf(s), 0) == LeadingRun(s, '1')
  {
    var z := LeadingRun(s, '1');
    assert forall i :: 0 <= i < z ==> s[i] == s[..z][i];
    if z < |s| && DigitOf(s[z]) == 0 {
      DigitOfInjective(s[z], '1');
    }
    LeadingRunUnique(DigitsOf(s), 0, z);
  }

  /** An n-byte input prints in n to ceil(11n/8) characters. */
  lemma EncodedLength(bytes: seq<byte>)
    ensures |bytes| <= |Encoded(bytes)| <= CeilDiv(11 * |bytes|, 8)
  {
    SplitLeading(bytes, 256);
    var tail := bytes[LeadingRun(bytes, 0)..];
    ValueBounds(tail, 256);
    ValueOfDigits(Value(tail, 256), 58);
    WidthOfDigits(Digits(Value(tail, 256), 58), Value(tail, 256), |tail|);
  }

  /** How many base-58 digits a number of `m` significant bytes has. */
  lemma WidthOfDigits(ds: seq<int>, v: nat, m: nat)
    requires IsDigits(ds, 58) && (|ds| > 0 ==> ds[0] > 0) && Value(ds, 58) == v
    requires v < Pow(256, m) && (m > 0 ==> Pow(256, m - 1) <= v)
    ensures m <= |ds| <= CeilDiv(11 * m, 8)
  {
    ValueBounds(ds, 58);
    WidthBound(m);
    if |ds| < m {
      PowMonotone(58, 256, |ds|, m - 1);
    }
    if |ds| > CeilDiv(11 * m, 8) {
      PowMonotone(58, 58, CeilDiv(11 * m, 8), |ds| - 1);
    }
  }

  /** 58^11 exceeds 256^8, so eleven digits always hold eight bytes. */
  lemma {:induction false} WidthBound(m: nat)
    ensures Pow(256, m) <= Pow(58, CeilDiv(11 * m, 8))
  {
    Powers();
    if m >= 8 {
      WidthBound(m - 8);
      var c := CeilDiv(11 * (m - 8), 8);
      PowAdd(58, c, 11);
      PowAdd(256, m - 8, 8);
      MulLe(Pow(256, m - 8), Pow(58, c), Pow(256, 8), Pow(58, 11));
      assert CeilDiv(11 * m, 8) == c + 11;
    } else {
      assert m == 0 || m == 1 || m == 2 || m == 3 || m == 4 || m == 5 || m == 6 || m == 7;
    }
  }

  lemma Powers()
    ensures Pow(256, 0) == 1 && Pow(256, 1) == 256 && Pow(256, 2) == 65536 && Pow(256, 3) == 16777216
    ensures Pow(256, 4) == 4294967296 && Pow(256, 5) == 1099511627776
    ensures Pow(256, 6) == 281474976710656 && Pow(256, 7) == 72057594037927936
    ensures Pow(256, 8) == 18446744073709551616
    ensures Pow(58, 0) == 1 && Pow(58, 2) == 3364 && Pow(58, 3) == 195112 && Pow(58, 5) == 656356768
    ensures Pow(58, 6) == 38068692544 && Pow(58, 7) == 2207984167552
    ensures Pow(58, 9) == 7427658739644928 && Pow(58, 10) == 430804206899405824
    ensures Pow(58, 11) == 24986644000165537792
  {
  }

  /** A 32-byte public key prints in 32 to 44 characters. */
  lemma PublicKeyLength(key: seq<byte>)
    requires |key| == 32
    ensures 32 <= |Encoded(key)| <= 44
  {
    EncodedLength(key);
  }
}
