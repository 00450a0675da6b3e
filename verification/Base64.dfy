/** The base64 codec of the secret store (src/security/secret_store.cpp). */
module Base64 {
  import opened Common
  import opened Radix
  import opened BitStream
  import opened Text

  const ALPHABET: string :=
    "ABCDEFGHIJKLMNOPQRSTUVWXYZ" + "abcdefghijklmnopqrstuvwxyz" + "0123456789" + "+/"

  datatype Error = InvalidCharacter

  /** The sextet a character stands for, or -1. */
  function SextetOf(c: char): (d: int)
    ensures -1 <= d < 64
  {
    if 'A' <= c <= 'Z' then c as int - 'A' as int
    else if 'a' <= c <= 'z' then c as int - 'a' as int + 26
    else if '0' <= c <= '9' then c as int - '0' as int + 52
    else if c == '+' then 62
    else if c == '/' then 63
    else -1
  }

  lemma AlphabetRuns(i: int)
    requires 0 <= i < 64
    ensures |ALPHABET| == 64
    ensures ALPHABET[i] ==
            if i < 26 then "ABCDEFGHIJKLMNOPQRSTUVWXYZ"[i]
            else if i < 52 then "abcdefghijklmnopqrstuvwxyz"[i - 26]
            else if i < 62 then "0123456789"[i - 52]
            else "+/"[i - 62]
  {
  }

  ghost predicate InRun(c: char, i: int) {
    if i < 26 then c as int == 'A' as int + i
    else if i < 52 then c as int == 'a' as int + i - 26
    else if i < 62 then c as int == '0' as int + i - 52
    else c == if i == 62 then '+' else '/'
  }

  lemma GlyphInRun(i: int)
    requires 0 <= i < 64
    ensures |ALPHABET| == 64 && InRun(ALPHABET[i], i)
  {
    AlphabetRuns(i);
    if i < 26 {
      UpperRun(i);
    } else if i < 52 {
      LowerRun(i - 26);
    } else if i < 62 {
      DigitRun(i - 52);
    } else {
      assert "+/"[0] == '+' && "+/"[1] == '/';
    }
  }

  /** The alphabet and `SextetOf` are inverse to each other. */
  lemma SextetOfGlyph(i: int)
    requires 0 <= i < 64
    ensures |ALPHABET| == 64 && SextetOf(ALPHABET[i]) == i && ALPHABET[i] as int < 256
  {
    GlyphInRun(i);
  }

  lemma SextetOfInjective(c: char, d: char)
    requires SextetOf(c) == SextetOf(d) >= 0
    ensures c == d
  {
  }

  function Glyph(d: int): (c: char)
    requires 0 <= d < 64
    ensures SextetOf(c) == d && c as int < 256
  {
    SextetOfGlyph(d);
    ALPHABET[d]
  }

  function Glyphs(ds: seq<int>): (s: string)
    requires IsDigits(ds, 64)
    ensures |s| == |ds|
  {
    seq(|ds|, i requires 0 <= i < |ds| => Glyph(ds[i]))
  }

  function SextetsOf(s: string): (ds: seq<int>)
    ensures |ds| == |s|
  {
    seq(|s|, i requires 0 <= i < |s| => SextetOf(s[i]))
  }

  predicate InAlphabet(s: string) {
    forall i :: 0 <= i < |s| ==> SextetOf(s[i]) >= 0
  }

  /** The encoding of section 4 of RFC 4648, three bytes at a time. */
  function Encoded(bytes: seq<int>): (s: string)
    requires IsDigits(bytes, 256)
  {
    if |bytes| == 0 then
      ""
    else if |bytes| == 1 then
      Glyphs([bytes[0] / 4, bytes[0] % 4 * 16]) + "=="
    else if |bytes| == 2 then
      Glyphs([bytes[0] / 4, bytes[0] % 4 * 16 + bytes[1] / 16, bytes[1] % 16 * 4]) + "="
    else
      Glyphs(Group(bytes[0], bytes[1], bytes[2])) + Encoded(bytes[3..])
  }

  /** Three bytes as four sextets. */
  function Group(x: int, y: int, z: int): (ds: seq<int>)
    requires 0 <= x < 256 && 0 <= y < 256 && 0 <= z < 256
    ensures |ds| == 4 && IsDigits(ds, 64)
  {
    [x / 4, x % 4 * 16 + y / 16, y % 16 * 4 + z / 64, z % 64]
  }

  /** The meaning of an encoded text: the whole bytes spelled by the characters before the first '='. */
  function Decoded(s: string): (r: Result<seq<int>, Error>)
    ensures r.Ok? ==> IsDigits(r.value, 256)
  {
    var body := Before(s, '=');
    if !InAlphabet(body) then Err(InvalidCharacter) else
      WidthConstants();
      Ok(Regroup(SextetsOf(body), 6, 8))
  }

  lemma WidthConstants()
    ensures Pow(2, 5) == 32 && Pow(2, 6) == 64 && Pow(2, 8) == 256
    ensures Pow(2, 0) == 1 && Pow(2, 1) == 2 && Pow(2, 2) == 4 && Pow(2, 3) == 8 && Pow(2, 4) == 16
  {
  }

  // The accumulator loops.

  /** `val` is an `unsigned int` that is never masked; the shift right is division by a power of two. */
  method EncodeBase64(input: seq<byte>) returns (encoded: ByteString)
    ensures encoded == Encoded(input)
  {
    var val, bits := 0, -6;
    var output := "";
    ghost var groups: seq<int> := [];
    Start(8, 6, 0);
    assert input[..0] == [];
    for i := 0 to |input|
      invariant -6 <= bits < 0 && 0 <= val < TWO_32 && IsDigits(groups, 64)
      invariant Streaming(input[..i], 8, groups, 6, val, bits + 6)
      invariant output == Glyphs(groups)
    {
      ReadByte(input, i, groups, val, bits);
      val := WrapUnsigned(WrapUnsigned(val * 256) + input[i]);
      bits := bits + 8;
      output, bits, groups := EmitGroups(input[..i + 1], val, bits, output, groups);
    }
    assert input[..|input|] == input;
    output := FinishEncode(input, groups, val, bits, output);
    EncodedIsBytes(input);
    encoded := output;
  }

  lemma EncodedIsBytes(bytes: seq<int>)
    requires IsDigits(bytes, 256)
    ensures forall i :: 0 <= i < |Encoded(bytes)| ==> Encoded(bytes)[i] as int < 256
  {
    EncodedShape(bytes);
    OnlyOctets(Encoded(bytes));
  }

  lemma OnlyOctets(s: string)
    requires forall i :: 0 <= i < |s| ==> SextetOf(s[i]) >= 0 || s[i] == '='
    ensures forall i :: 0 <= i < |s| ==> s[i] as int < 256
  {
  }

  /** The inner loop: put out sextets while six bits are pending. */
  method EmitGroups(ghost read: seq<int>, val: nat, bits0: int, output0: string, ghost groups0: seq<int>)
    returns (output: string, bits: int, ghost groups: seq<int>)
    requires 0 <= bits0 + 6 && IsDigits(groups0, 64) && output0 == Glyphs(groups0)
    requires Streaming(read, 8, groups0, 6, val, bits0 + 6)
    ensures -6 <= bits < 0 && IsDigits(groups, 64) && output == Glyphs(groups)
    ensures Streaming(read, 8, groups, 6, val, bits + 6)
  {
    output, bits, groups := output0, bits0, groups0;
    WidthConstants();
    while bits >= 0
      invariant -6 <= bits && IsDigits(groups, 64) && output == Glyphs(groups)
      invariant Streaming(read, 8, groups, 6, val, bits + 6)
    {
      Emit(read, 8, groups, 6, val, bits + 6);
      var sextet := val / Pow(2, bits) % 64;
      SextetOfGlyph(sextet);
      GlyphsSnoc(groups, sextet);
      groups := groups + [sextet];
      output := output + [ALPHABET[sextet]];
      bits := bits - 6;
    }
  }

  lemma GlyphsSnoc(ds: seq<int>, d: int)
    requires IsDigits(ds, 64) && 0 <= d < 64
    ensures IsDigits(ds + [d], 64) && Glyphs(ds + [d]) == Glyphs(ds) + [Glyph(d)]
  {
  }

  lemma GlyphsAppend(a: seq<int>, b: seq<int>)
    requires IsDigits(a, 64) && IsDigits(b, 64)
    ensures IsDigits(a + b, 64) && Glyphs(a + b) == Glyphs(a) + Glyphs(b)
  {
  }

  lemma ReadByte(input: seq<byte>, i: nat, groups: seq<int>, val: nat, bits: int)
    requires i < |input| && -6 <= bits < 0
    requires Streaming(input[..i], 8, groups, 6, val, bits + 6)
    ensures Streaming(input[..i + 1], 8, groups, 6,
                      WrapUnsigned(WrapUnsigned(val * 256) + input[i]), bits + 14)
  {
    WidthConstants();
    WrapTwice(val, input[i]);
    Read(input[..i], 8, groups, 6, val, bits + 6, input[i], WrapUnsigned(WrapUnsigned(val * 256) + input[i]));
    assert input[..i + 1] == input[..i] + [input[i]];
  }

  lemma WrapTwice(val: int, c: int)
    ensures (val * 256 + c - WrapUnsigned(WrapUnsigned(val * 256) + c)) % TWO_32 == 0
  {
  }

  /** The last partial group and the padding. */
  method FinishEncode(input: seq<byte>, ghost groups: seq<int>, val: nat, bits: int, start: string)
    returns (output: string)
    requires -6 <= bits < 0 && IsDigits(groups, 64) && val < TWO_32
    requires Streaming(input, 8, groups, 6, val, bits + 6)
    requires start == Glyphs(groups)
    ensures output == Encoded(input)
  {
    EncodedIsPadded(input);
    output := start;
    LastSextet(input, groups, val, bits);
    if bits > -6 {
      var last := WrapUnsigned(val * 256) / Pow(2, bits + 8) % 64;
      SextetOfGlyph(last);
      GlyphsSnoc(groups, last);
      output := output + [ALPHABET[last]];
    }
    output := Pad(output);
  }

  lemma LastSextet(input: seq<byte>, groups: seq<int>, val: nat, bits: int)
    requires -6 <= bits < 0 && IsDigits(groups, 64) && val < TWO_32
    requires Streaming(input, 8, groups, 6, val, bits + 6)
    ensures Pow(2, 8) == 256 && Pow(2, 6) == 64
    ensures RegroupPadded(input, 8, 6)
         == if bits == -6 then groups else groups + [WrapUnsigned(val * 256) / Pow(2, bits + 8) % 64]
  {
    WidthConstants();
    StopPadded(input, 8, groups, 6, val, bits + 6);
    if bits > -6 {
      LastShift(|input|, |groups|, val, bits);
    }
  }

  /** The loop that appends '=' until the length is a multiple of four. */
  method Pad(body: string) returns (output: string)
    ensures output == body + Repeat('=', Padding(|body|))
  {
    output := body;
    ghost var pad, want := 0, Padding(|body|);
    while |output| % 4 != 0
      invariant 0 <= pad <= want && output == body + Repeat('=', pad)
      decreases want - pad
    {
      pad := pad + 1;
      output := output + ['='];
    }
  }

  /** How many '=' fill the last four-character group. */
  function Padding(n: nat): (p: nat)
    ensures p < 4 && (n + p) % 4 == 0
  {
    (4 - n % 4) % 4
  }

  lemma LastShift(n: nat, k: nat, val: nat, bits: int)
    requires -6 < bits < 0 && k * 6 + bits + 6 == n * 8 && val < TWO_32
    ensures WrapUnsigned(val * 256) / Pow(2, bits + 8) % 64 == val % Pow(2, bits + 6) * Pow(2, -bits)
  {
    WidthConstants();
    if bits == -4 {
      TwoBitsLeft(val);
    } else {
      FourBitsLeft(val);
    }
  }

  /** Shifting up by eight bits and down by fewer keeps the low bits, moved up. */
  lemma TwoBitsLeft(val: nat)
    ensures WrapUnsigned(val * 256) / 16 % 64 == val % 4 * 16
  {
    var q, m := val / 0x100_0000, val % 0x100_0000;
    var h, l := m / 4, m % 4;
    DivModUnique(q, m * 256, TWO_32);
    DivModUnique(m * 16, 0, 16);
    DivModUnique(h, l * 16, 64);
    DivModUnique(q * 0x40_0000 + h, l, 4);
  }

  lemma FourBitsLeft(val: nat)
    ensures WrapUnsigned(val * 256) / 64 % 64 == val % 16 * 4
  {
    var q, m := val / 0x100_0000, val % 0x100_0000;
    var h, l := m / 16, m % 16;
    DivModUnique(q, m * 256, TWO_32);
    DivModUnique(m * 4, 0, 64);
    DivModUnique(h, l * 4, 64);
    DivModUnique(q * 0x10_0000 + h, l, 16);
  }

  // The standard's grouping is the zero-filled regrouping of the bits.

  ghost function Sextets(bytes: seq<int>): (ds: seq<int>)
    requires IsDigits(bytes, 256)
    ensures IsDigits(ds, 64)
  {
    if |bytes| == 0 then
      []
    else if |bytes| == 1 then
      [bytes[0] / 4, bytes[0] % 4 * 16]
    else if |bytes| == 2 then
      [bytes[0] / 4, bytes[0] % 4 * 16 + bytes[1] / 16, bytes[1] % 16 * 4]
    else
      Group(bytes[0], bytes[1], bytes[2]) + Sextets(bytes[3..])
  }

  lemma {:induction false} EncodedIsSextets(bytes: seq<int>)
    requires IsDigits(bytes, 256)
    ensures Encoded(bytes) == Glyphs(Sextets(bytes)) + Repeat('=', Padding(|Sextets(bytes)|))
  {
    if |bytes| >= 3 {
      EncodedIsSextets(bytes[3..]);
      Regrouped(Group(bytes[0], bytes[1], bytes[2]), Sextets(bytes[3..]), Encoded(bytes[3..]));
    } else {
      EncodedShort(bytes);
    }
  }

  lemma Regrouped(group: seq<int>, rest: seq<int>, text: string)
    requires |group| == 4 && IsDigits(group, 64) && IsDigits(rest, 64)
    requires text == Glyphs(rest) + Repeat('=', Padding(|rest|))
    ensures IsDigits(group + rest, 64)
    ensures Glyphs(group) + text == Glyphs(group + rest) + Repeat('=', Padding(|group + rest|))
  {
    GlyphsAppend(group, rest);
    assert Padding(|group + rest|) == Padding(|rest|);
  }

  lemma EncodedShort(bytes: seq<int>)
    requires IsDigits(bytes, 256) && |bytes| < 3
    ensures Encoded(bytes) == Glyphs(Sextets(bytes)) + Repeat('=', Padding(|Sextets(bytes)|))
  {
  }

  lemma ShortValues(a: int, b: int, c: int, d: int, base: nat)
    ensures Value([], base) == 0
    ensures Value([a], base) == a
    ensures Value([a, b], base) == a * base + b
    ensures Value([a, b, c], base) == (a * base + b) * base + c
    ensures Value([a, b, c, d], base) == ((a * base + b) * base + c) * base + d
  {
    assert [] + [a] == [a];
    ValueSnoc([], a, base);
    ValueSnoc([a], b, base);
    assert [a] + [b] == [a, b];
    ValueSnoc([a, b], c, base);
    assert [a, b] + [c] == [a, b, c];
    ValueSnoc([a, b, c], d, base);
    assert [a, b, c] + [d] == [a, b, c, d];
  }

  lemma OneByte(bytes: seq<int>, x: int)
    requires bytes == [x] && 0 <= x < 256
    ensures Value(Sextets(bytes), 64) == Value(bytes, 256) * 16
  {
    ShortValues(x, 0, 0, 0, 256);
    ShortValues(x / 4, x % 4 * 16, 0, 0, 64);
  }

  lemma TwoBytes(bytes: seq<int>, x: int, y: int)
    requires bytes == [x, y] && 0 <= x < 256 && 0 <= y < 256
    ensures Value(Sextets(bytes), 64) == Value(bytes, 256) * 4
  {
    ShortValues(x, y, 0, 0, 256);
    ShortValues(x / 4, x % 4 * 16 + y / 16, y % 16 * 4, 0, 64);
  }

  lemma ThreeBytes(x: int, y: int, z: int)
    requires 0 <= x < 256 && 0 <= y < 256 && 0 <= z < 256
    ensures Value(Group(x, y, z), 64) == Value([x, y, z], 256)
  {
    FourDigits(Group(x, y, z), 64);
    ShortValues(x, y, z, 0, 256);
    SameNumber(x, y, z);
  }

  lemma FourDigits(ds: seq<int>, base: nat)
    requires |ds| == 4
    ensures Value(ds, base) == ((ds[0] * base + ds[1]) * base + ds[2]) * base + ds[3]
  {
    ShortValues(ds[0], ds[1], ds[2], ds[3], base);
    assert ds == [ds[0], ds[1], ds[2], ds[3]];
  }

  lemma SameNumber(x: int, y: int, z: int)
    ensures ((x / 4 * 64 + (x % 4 * 16 + y / 16)) * 64 + (y % 16 * 4 + z / 64)) * 64 + z % 64
         == (x * 256 + y) * 256 + z
  {
  }

  lemma {:induction false} SextetsValue(bytes: seq<int>, pad: int)
    requires IsDigits(bytes, 256) && pad == |Sextets(bytes)| * 6 - |bytes| * 8
    ensures 0 <= pad < 6
    ensures Value(Sextets(bytes), 64) == Value(bytes, 256) * Pow(2, pad)
  {
    WidthConstants();
    if |bytes| >= 3 {
      var head, rest := [bytes[0], bytes[1], bytes[2]], bytes[3..];
      SextetsValue(rest, pad);
      ThreeBytes(bytes[0], bytes[1], bytes[2]);
      assert bytes == head + rest;
      ValueAppend(head, rest, 256);
      ValueAppend(Group(bytes[0], bytes[1], bytes[2]), Sextets(rest), 64);
      WidthsMatch(|Sextets(rest)|, |rest|, pad);
      Horner(Value(head, 256), Pow(256, |rest|), Value(rest, 256), Pow(2, pad));
    } else if |bytes| == 2 {
      TwoBytes(bytes, bytes[0], bytes[1]);
    } else if |bytes| == 1 {
      OneByte(bytes, bytes[0]);
    }
  }

  lemma WidthsMatch(m: nat, n: nat, pad: nat)
    requires m * 6 == n * 8 + pad
    ensures Pow(64, m) == Pow(256, n) * Pow(2, pad)
  {
    WidthConstants();
    PowPow(2, 6, m);
    PowPow(2, 8, n);
    PowAdd(2, 8 * n, pad);
  }

  lemma EncodedIsPadded(bytes: seq<int>)
    requires IsDigits(bytes, 256)
    ensures Pow(2, 8) == 256 && Pow(2, 6) == 64
    ensures Encoded(bytes)
         == Glyphs(RegroupPadded(bytes, 8, 6)) + Repeat('=', Padding(CeilDiv(|bytes| * 8, 6)))
  {
    WidthConstants();
    EncodedIsSextets(bytes);
    SextetsArePadded(bytes);
  }

  lemma SextetsArePadded(bytes: seq<int>)
    requires IsDigits(bytes, 256) && Pow(2, 8) == 256 && Pow(2, 6) == 64
    ensures RegroupPadded(bytes, 8, 6) == Sextets(bytes)
  {
    var ds := Sextets(bytes);
    var pad := |ds| * 6 - |bytes| * 8;
    SextetsValue(bytes, pad);
    assert CeilDiv(|bytes| * 8, 6) == |ds|;
    FixedDigitsOfValue(ds, 64);
  }

  /** A table that answers, for every `unsigned char`, what `SextetOf` answers. */
  ghost predicate IsTable(table: seq<int>) {
    |table| == 256 && forall c: char | c as int < 256 :: table[c as int] == SextetOf(c)
  }

  method BuildTable() returns (t: array<int>)
    ensures fresh(t) && IsTable(t[..])
  {
    t := new int[256](_ => -1);
    GlyphInRun(0);
    for i := 0 to 64
      invariant |ALPHABET| == 64 && fresh(t) && t.Length == 256
      invariant forall c: char | c as int < 256 :: t[c as int] == if SextetOf(c) < i then SextetOf(c) else -1
    {
      SextetOfGlyph(i);
      forall c: char | SextetOf(c) == i ensures c == ALPHABET[i] {
        SextetOfInjective(c, ALPHABET[i]);
      }
      t[ALPHABET[i] as int] := i;
    }
  }

  /** `val` is an `int` that is never masked; only its low `bits + 8` bits are ever read. */
  method DecodeBase64(input: ByteString) returns (r: Result<seq<byte>, Error>)
    ensures r == Decoded(input)
    ensures r.Ok? <==> forall c <- Before(input, '=') :: c in ALPHABET
    ensures r.Ok? ==> |r.value| == |Before(input, '=')| * 6 / 8
  {
    DecodedMeans(input);
    var valid, output := DecodeLoop(input);
    if !valid {
      return Err(InvalidCharacter);
    }
    var bytes: seq<byte> := output;
    r := Ok(bytes);
  }

  method DecodeLoop(input: ByteString) returns (valid: bool, output: seq<int>)
    ensures Decoded(input) == if valid then Ok(output) else Err(InvalidCharacter)
  {
    var t := BuildTable();
    var val, bits := 0, -8;
    output := [];
    var i := 0;
    Start(6, 8, 0);
    assert input[..0] == [];
    while i < |input|
      invariant IsTable(t[..]) && i <= Find(input, '=')
      invariant -8 <= bits < 0 && InAlphabet(input[..i])
      invariant Streaming(SextetsOf(input[..i]), 6, output, 8, val, bits + 8)
    {
      var c := input[i];
      TableAt(t[..], c);
      if t[c as int] == -1 {
        if c == '=' {
          break;
        }
        BadCharacter(input, i);
        return false, output;
      }
      output, val, bits := Consume(input, i, output, val, bits, t[c as int]);
      i := i + 1;
    }
    StopDecode(input, i, output, val, bits);
    valid := true;
  }

  /** The rest of the loop's body for a character of the alphabet. */
  method Consume(ghost input: string, ghost i: nat, output0: seq<int>, val0: int, bits0: int, sextet: int)
    returns (output: seq<int>, val: int, bits: int)
    requires i < |input| && sextet == SextetOf(input[i]) >= 0 && -8 <= bits0 < 0 && InAlphabet(input[..i])
    requires Streaming(SextetsOf(input[..i]), 6, output0, 8, val0, bits0 + 8)
    ensures -8 <= bits < 0 && InAlphabet(input[..i + 1])
    ensures Streaming(SextetsOf(input[..i + 1]), 6, output, 8, val, bits + 8)
  {
    OneMoreCharacter(input, i);
    ReadSextet(input, i, output0, val0, bits0);
    val := WrapSigned(WrapSigned(val0 * 64) + sextet);
    output, bits := EmitIfWhole(SextetsOf(input[..i + 1]), output0, val, bits0 + 6);
  }

  /** The body of the loop's last `if`. */
  method EmitIfWhole(ghost read: seq<int>, output0: seq<int>, val: int, bits0: int)
    returns (output: seq<int>, bits: int)
    requires -8 <= bits0 < 8 && Streaming(read, 6, output0, 8, val, bits0 + 8)
    ensures -8 <= bits < 0 && Streaming(read, 6, output, 8, val, bits + 8)
  {
    output, bits := output0, bits0;
    if bits >= 0 {
      EmitByte(read, output, val, bits);
      output := output + [val / Pow(2, bits) % 256];
      bits := bits - 8;
    }
  }

  lemma TableAt(table: seq<int>, c: octet)
    requires IsTable(table)
    ensures table[c as int] == SextetOf(c)
  {
  }

  lemma OneMoreCharacter(input: string, i: nat)
    requires i < |input|
    ensures SextetsOf(input[..i + 1]) == SextetsOf(input[..i]) + [SextetOf(input[i])]
    ensures InAlphabet(input[..i + 1]) == (InAlphabet(input[..i]) && SextetOf(input[i]) >= 0)
  {
    assert input[..i + 1][i] == input[i];
    assert forall k :: 0 <= k < i ==> input[..i + 1][k] == input[..i][k];
  }

  lemma BadCharacter(input: string, i: nat)
    requires i < |input| && i <= Find(input, '=') && input[i] != '=' && SextetOf(input[i]) < 0
    ensures Decoded(input) == Err(InvalidCharacter)
  {
    assert input[..Find(input, '=')][i] == input[i];
  }

  lemma ReadSextet(input: string, i: nat, output: seq<int>, val: int, bits: int)
    requires i < |input| && -8 <= bits < 0 && SextetOf(input[i]) >= 0
    requires Streaming(SextetsOf(input[..i]), 6, output, 8, val, bits + 8)
    ensures Streaming(SextetsOf(input[..i + 1]), 6, output, 8,
                      WrapSigned(WrapSigned(val * 64) + SextetOf(input[i])), bits + 14)
  {
    WidthConstants();
    var d := SextetOf(input[i]);
    WrapSignedTwice(val, d);
    Read(SextetsOf(input[..i]), 6, output, 8, val, bits + 8, d, WrapSigned(WrapSigned(val * 64) + d));
    OneMoreCharacter(input, i);
  }

  lemma WrapSignedTwice(val: int, d: int)
    ensures (val * 64 + d - WrapSigned(WrapSigned(val * 64) + d)) % TWO_32 == 0
  {
  }

  lemma EmitByte(read: seq<int>, output: seq<int>, val: int, bits: nat)
    requires Streaming(read, 6, output, 8, val, bits + 8)
    ensures 0 <= val / Pow(2, bits) % 256 < 256
    ensures Streaming(read, 6, output + [val / Pow(2, bits) % 256], 8, val, bits)
  {
    WidthConstants();
    Emit(read, 6, output, 8, val, bits + 8);
  }

  lemma StopDecode(input: string, i: nat, output: seq<int>, val: int, bits: int)
    requires i == Find(input, '=') && -8 <= bits < 0 && InAlphabet(input[..i])
    requires Streaming(SextetsOf(input[..i]), 6, output, 8, val, bits + 8)
    ensures IsDigits(output, 256) && Decoded(input) == Ok(output)
  {
    WidthConstants();
    Stop(SextetsOf(input[..i]), 6, output, 8, val, bits + 8);
  }

  // Main results.

  lemma InAlphabetIs(c: char)
    ensures c in ALPHABET <==> SextetOf(c) >= 0
  {
    GlyphInRun(0);
    if c in ALPHABET {
      var i :| 0 <= i < |ALPHABET| && ALPHABET[i] == c;
      SextetOfGlyph(i);
    } else if SextetOf(c) >= 0 {
      SextetOfGlyph(SextetOf(c));
      SextetOfInjective(c, ALPHABET[SextetOf(c)]);
    }
  }

  /**
   What decoding means: with only characters of the alphabet before the first '=', the whole bytes of their
   bits, that is, their number without the bits left over; an error otherwise.
   */
  lemma DecodedMeans(s: string)
    ensures Decoded(s).Ok? <==> forall c <- Before(s, '=') :: c in ALPHABET
    ensures Decoded(s).Ok? ==>
              var ds, bytes := SextetsOf(Before(s, '=')), Decoded(s).value;
              && |bytes| == |ds| * 6 / 8
              && Value(bytes, 256) == Value(ds, 64) / Pow(2, |ds| * 6 % 8)
  {
    forall c: char ensures c in ALPHABET <==> SextetOf(c) >= 0 {
      InAlphabetIs(c);
    }
    WidthConstants();
    if Decoded(s).Ok? {
      assert InAlphabet(Before(s, '='));
      RegroupValue(SextetsOf(Before(s, '=')), 6, 8);
    }
  }

  /** Decoding undoes encoding, for every byte string. */
  lemma DecodeUndoesEncode(bytes: seq<byte>)
    ensures Decoded(Encoded(bytes)) == Ok(bytes)
  {
    WidthConstants();
    EncodedIsPadded(bytes);
    var ds := RegroupPadded(bytes, 8, 6);
    BodyOfPadded(ds, Padding(|ds|));
    RegroupBack(bytes, 6);
  }

  lemma BodyOfPadded(ds: seq<int>, pad: nat)
    requires IsDigits(ds, 64)
    ensures var s := Glyphs(ds) + Repeat('=', pad);
      Before(s, '=') == Glyphs(ds) && InAlphabet(Glyphs(ds)) && SextetsOf(Glyphs(ds)) == ds
  {
    var s := Glyphs(ds) + Repeat('=', pad);
    assert forall k :: 0 <= k < |ds| ==> s[k] == Glyph(ds[k]) && SextetOf(s[k]) == ds[k];
    FindIs(s, '=', |ds|);
  }

  /** The encoding has four characters for every three bytes begun, all of them in the alphabet or '='. */
  lemma {:induction false} EncodedShape(bytes: seq<int>)
    requires IsDigits(bytes, 256)
    ensures |Encoded(bytes)| == 4 * CeilDiv(|bytes|, 3)
    ensures forall i :: 0 <= i < |Encoded(bytes)| ==> SextetOf(Encoded(bytes)[i]) >= 0 || Encoded(bytes)[i] == '='
  {
    if |bytes| >= 3 {
      EncodedShape(bytes[3..]);
    }
  }
}
