/** The time-based one-time password validator (src/security/totp.cpp). */
module Totp {
  import opened Common
  import opened Decimals
  import opened Radix
  import Base32

  const STEP_SECONDS := 30
  const MIN_DIGITS := 6
  const MAX_DIGITS := 8

  /** HMAC-SHA1, given a key and a message; all that is known of it is the length of its result. */
  type Hmac = (seq<byte>, seq<byte>) -> seq<byte>

  ghost predicate TwentyBytes(hmac: Hmac) {
    forall key, message :: |hmac(key, message)| == 20
  }

  /** The 64-bit counter as the eight bytes the HMAC reads, written from the last one to the first. */
  method CounterBytes(counter: nat) returns (bytes: array<byte>)
    requires counter < TWO_64
    ensures fresh(bytes) && bytes[..] == FixedDigits(counter, 256, 8)
  {
    bytes := new byte[8](_ => 0);
    var movingCounter := counter;
    var i := 7;
    while i >= 0
      invariant -1 <= i <= 7 && fresh(bytes) && bytes.Length == 8 && movingCounter >= 0
      invariant FixedDigits(counter, 256, 8) == FixedDigits(movingCounter, 256, i + 1) + bytes[i + 1..]
    {
      ghost var low := bytes[i + 1..];
      bytes[i] := movingCounter % 256;
      assert bytes[i..] == [movingCounter % 256] + low;
      movingCounter := movingCounter / 256;
      i := i - 1;
    }
    assert bytes[0..] == bytes[..];
  }

  /** The counter survives: its eight bytes, read as a big-endian number, are the counter. */
  lemma CounterBytesExact(counter: nat)
    requires counter < TWO_64
    ensures Value(FixedDigits(counter, 256, 8), 256) == counter
  {
    ValueOfFixedDigits(counter, 256, 8);
    Pow256To8();
    DivModUnique(0, counter, TWO_64);
  }

  lemma Pow256To8()
    ensures Pow(256, 8) == TWO_64
  {
    assert Pow(256, 4) == 0x1_0000_0000;
    PowAdd(256, 4, 4);
  }

  /** Dynamic truncation, section 5.3 of RFC 4226: four bytes at the offset in the last nibble, without the top bit. */
  function Truncated(hash: seq<byte>): (v: nat)
    requires |hash| == 20
    ensures v < 0x8000_0000
  {
    var offset := hash[19] % 16;
    Value(hash[offset..offset + 4], 256) % 0x8000_0000
  }

  /** The password for a counter: the truncated HMAC of its eight bytes, reduced to the wanted number of digits. */
  function Password(hmac: Hmac, secret: seq<byte>, counter: nat, digits: nat): (v: nat)
    requires TwentyBytes(hmac)
    ensures v < Pow(10, digits)
  {
    Truncated(hmac(secret, FixedDigits(counter, 256, 8))) % Pow(10, digits)
  }

  /**
   The password written out: four bytes of the HMAC from the place that the low nibble of its last byte names,
   the first of them without its top bit, as one number, reduced to the wanted number of digits.
   */
  lemma PasswordIs(hmac: Hmac, secret: seq<byte>, counter: nat, digits: nat)
    requires TwentyBytes(hmac)
    ensures var h: seq<int> := hmac(secret, FixedDigits(counter, 256, 8));
      var k := h[|h| - 1] % 16;
      Password(hmac, secret, counter, digits)
      == (((h[k] % 128 * 256 + h[k + 1]) * 256 + h[k + 2]) * 256 + h[k + 3]) % Pow(10, digits)
  {
    var h := hmac(secret, FixedDigits(counter, 256, 8));
    TruncatedIs(h, h[|h| - 1] % 16);
  }

  lemma TruncatedIs(h: seq<int>, k: nat)
    requires |h| == 20 && IsDigits(h, 256) && k == h[|h| - 1] % 16
    ensures Truncated(h) == ((h[k] % 128 * 256 + h[k + 1]) * 256 + h[k + 2]) * 256 + h[k + 3]
  {
    FourBytes(h[k..k + 4], h[k], h[k + 1], h[k + 2], h[k + 3]);
  }

  /** The example of section 5.4 of RFC 4226. */
  lemma StandardExample()
    ensures var h: seq<byte> := [0x1f, 0x86, 0x98, 0x69, 0x0e, 0x02, 0xca, 0x16, 0x61, 0x85,
                                 0x50, 0xef, 0x7f, 0x19, 0xda, 0x8e, 0x94, 0x5b, 0x55, 0x5a];
      Truncated(h) % Pow(10, 6) == 872921
  {
    var h: seq<byte> := [0x1f, 0x86, 0x98, 0x69, 0x0e, 0x02, 0xca, 0x16, 0x61, 0x85,
                         0x50, 0xef, 0x7f, 0x19, 0xda, 0x8e, 0x94, 0x5b, 0x55, 0x5a];
    ExampleNumber(h);
    SixDigits();
    DivModUnique(1357, 872921, 1_000_000);
  }

  lemma ExampleNumber(h: seq<int>)
    requires |h| == 20 && IsDigits(h, 256) && h[19] == 0x5a
    requires h[10] == 0x50 && h[11] == 0xef && h[12] == 0x7f && h[13] == 0x19
    ensures Truncated(h) == 0x50ef7f19 == 1357 * 1_000_000 + 872921
  {
    TruncatedIs(h, 10);
  }

  lemma SixDigits()
    ensures Pow(10, 6) == 1_000_000
  {
  }

  method GenerateTotp(hmac: Hmac, secret: seq<byte>, counter: nat, digits: nat) returns (v: nat)
    requires TwentyBytes(hmac) && counter < TWO_64 && digits < 10
    ensures v == Password(hmac, secret, counter, digits)
    ensures var h: seq<int> := hmac(secret, FixedDigits(counter, 256, 8));
      var k := h[|h| - 1] % 16;
      v == (((h[k] % 128 * 256 + h[k + 1]) * 256 + h[k + 2]) * 256 + h[k + 3]) % Pow(10, digits)
  {
    var counterBytes := CounterBytes(counter);
    var hash := hmac(secret, counterBytes[..]);
    var offset := hash[|hash| - 1] % 16;
    var a: int, b: int, c: int, d: int := hash[offset], hash[offset + 1], hash[offset + 2], hash[offset + 3];
    var binary := a % 128 * 0x100_0000 + b * 0x1_0000 + c * 0x100 + d;
    FourBytes(hash[offset..offset + 4], a, b, c, d);
    var mod := 1;
    SmallPowers(digits);
    for i := 0 to digits
      invariant mod == Pow(10, i)
    {
      SmallPowers(i + 1);
      mod := WrapUnsigned(mod * 10);
    }
    v := binary % mod;
    PasswordIs(hmac, secret, counter, digits);
  }

  lemma FourBytes(bytes: seq<int>, a: int, b: int, c: int, d: int)
    requires bytes == [a, b, c, d] && IsDigits(bytes, 256)
    ensures Value(bytes, 256) % 0x8000_0000 == (a % 128) * 0x100_0000 + b * 0x1_0000 + c * 0x100 + d
  {
    ValueOfFour(a, b, c, d);
    assert 0 <= bytes[0] < 256 && 0 <= bytes[1] < 256 && 0 <= bytes[2] < 256 && 0 <= bytes[3] < 256;
    DivModUnique(a / 128, (a % 128) * 0x100_0000 + b * 0x1_0000 + c * 0x100 + d, 0x8000_0000);
  }

  lemma ValueOfFour(a: int, b: int, c: int, d: int)
    ensures Value([a, b, c, d], 256) == ((a * 256 + b) * 256 + c) * 256 + d
  {
    ValueSnoc([a, b, c], d, 256);
    assert [a, b, c] + [d] == [a, b, c, d];
    ValueSnoc([a, b], c, 256);
    assert [a, b] + [c] == [a, b, c];
    ValueSnoc([a], b, 256);
    assert [a] + [b] == [a, b];
    assert [a][..0] == [];
  }

  lemma SmallPowers(n: nat)
    requires n < 10
    ensures 1 <= Pow(10, n) <= 1_000_000_000
  {
    PowMonotone(10, 10, n, 9);
    assert Pow(10, 9) == 1_000_000_000;
  }

  /** At fixed width, zero-padding inverts decimal reading. */
  lemma PadInvertsReading(v: nat, code: string)
    requires 0 < |code| && IsDecimal(code) && v < Pow(10, |code|)
    ensures ZeroPad(v, |code|) == code <==> CodeValue(code) == v
  {
    ZeroPadIsFixed(v, |code|);
    PrintedReads(v, |code|);
    ReadPrints(code);
  }

  lemma PrintedReads(v: nat, width: nat)
    requires v < Pow(10, width)
    ensures CodeValue(DecimalGlyphs(FixedDigits(v, 10, width))) == v
  {
    DigitsOfGlyphs(FixedDigits(v, 10, width));
    ValueOfFixedDigits(v, 10, width);
    DivModUnique(0, v, Pow(10, width));
  }

  lemma ReadPrints(code: string)
    requires IsDecimal(code)
    ensures DecimalGlyphs(FixedDigits(CodeValue(code), 10, |code|)) == code
  {
    FixedDigitsOfValue(DecimalDigits(code), 10);
    GlyphsOfDigits(code);
  }

  // Validation.

  predicate WellFormedCode(code: string) {
    MIN_DIGITS <= |code| <= MAX_DIGITS && IsDecimal(code)
  }

  /** The time step: the source divides by an unsigned constant, so a negative time wraps around first. */
  function StepOf(epochSeconds: int): (c: nat)
    ensures c <= TWO_64 / STEP_SECONDS
  {
    epochSeconds % TWO_64 / STEP_SECONDS
  }

  /** The password for the counter is the number the code spells. */
  ghost predicate Matches(hmac: Hmac, secret: seq<byte>, code: string, counter: nat)
    requires TwentyBytes(hmac) && IsDecimal(code)
  {
    Password(hmac, secret, counter, |code|) == CodeValue(code)
  }

  /** Some non-negative counter within the drift window gives the code. */
  ghost predicate InWindow(hmac: Hmac, secret: seq<byte>, code: string, drift: int, step: nat)
    requires TwentyBytes(hmac) && IsDecimal(code)
  {
    exists c: nat :: step - drift <= c <= step + drift && Matches(hmac, secret, code, c)
  }

  /**
   The excluded values of `allowedDrift` are the two at which the source's `int` loop variable overflows.
   */
  method Validate(hmac: Hmac, base32Secret: ByteString, code: ByteString, allowedDrift: int, epochSeconds: int)
    returns (r: Result<bool, Base32.Error>)
    requires TwentyBytes(hmac)
    requires -0x8000_0000 < allowedDrift < 0x7fff_ffff
    requires -0x8000_0000_0000_0000 <= epochSeconds < 0x8000_0000_0000_0000
    ensures !WellFormedCode(code) ==> r == Ok(false)
    ensures WellFormedCode(code) ==>
      match Base32.Decoded(base32Secret)
      case Err(e) => r == Err(e)
      case Ok(secret) =>
        r == Ok(|secret| > 0 && InWindow(hmac, secret, code, allowedDrift, StepOf(epochSeconds)))
  {
    if |code| < MIN_DIGITS || |code| > MAX_DIGITS || exists i :: 0 <= i < |code| && !('0' <= code[i] <= '9') {
      return Ok(false);
    }
    var decoded := Base32.DecodeBase32(base32Secret);
    if decoded.Err? {
      return Err(decoded.error);
    }
    var secret := decoded.value;
    if |secret| == 0 {
      return Ok(false);
    }
    var found := SearchWindow(hmac, secret, code, allowedDrift, StepOf(epochSeconds));
    return Ok(found);
  }

  /** A code is looked at when it has six to eight characters, all of them digits. */
  lemma WellFormedIs(code: string)
    ensures WellFormedCode(code) <==> 6 <= |code| <= 8 && forall c <- code :: '0' <= c <= '9'
  {
    assert forall i :: 0 <= i < |code| ==> code[i] in code;
  }

  /** The window written out. */
  lemma WindowIs(hmac: Hmac, secret: seq<byte>, code: string, drift: int, step: nat)
    requires TwentyBytes(hmac) && IsDecimal(code)
    ensures InWindow(hmac, secret, code, drift, step)
       <==> exists c: nat :: step - drift <= c <= step + drift
                             && Password(hmac, secret, c, |code|) == CodeValue(code)
  {
    if InWindow(hmac, secret, code, drift, step) {
      var c: nat :| step - drift <= c <= step + drift && Matches(hmac, secret, code, c);
      assert Password(hmac, secret, c, |code|) == CodeValue(code);
    }
    if c: nat :| step - drift <= c <= step + drift && Password(hmac, secret, c, |code|) == CodeValue(code) {
      assert Matches(hmac, secret, code, c);
    }
  }

  /** The drift search. */
  method SearchWindow(hmac: Hmac, secret: seq<byte>, code: string, allowedDrift: int, counter: nat)
    returns (found: bool)
    requires TwentyBytes(hmac) && WellFormedCode(code)
    requires allowedDrift < 0x7fff_ffff && counter <= TWO_64 / STEP_SECONDS
    ensures found == InWindow(hmac, secret, code, allowedDrift, counter)
  {
    var offset := -allowedDrift;
    while offset <= allowedDrift
      invariant -allowedDrift <= offset
      invariant NoneBetween(hmac, secret, code, counter - allowedDrift, counter + offset)
      decreases allowedDrift - offset
    {
      var candidate := counter + offset;
      if candidate >= 0 {
        var matches := TryCandidate(hmac, secret, code, candidate);
        if matches {
          return true;
        }
      }
      OneMoreTried(hmac, secret, code, counter - allowedDrift, candidate);
      offset := offset + 1;
    }
    return false;
  }

  ghost predicate NoneBetween(hmac: Hmac, secret: seq<byte>, code: string, low: int, high: int)
    requires TwentyBytes(hmac) && IsDecimal(code)
  {
    forall c: nat :: low <= c < high ==> !Matches(hmac, secret, code, c)
  }

  lemma OneMoreTried(hmac: Hmac, secret: seq<byte>, code: string, low: int, high: int)
    requires TwentyBytes(hmac) && IsDecimal(code)
    requires NoneBetween(hmac, secret, code, low, high)
    requires high >= 0 ==> !Matches(hmac, secret, code, high)
    ensures NoneBetween(hmac, secret, code, low, high + 1)
  {
    forall c: nat | low <= c < high + 1 ensures !Matches(hmac, secret, code, c) {
      if c == high {
      } else {
        assert low <= c < high;
      }
    }
  }

  method TryCandidate(hmac: Hmac, secret: seq<byte>, code: string, candidate: nat) returns (matches: bool)
    requires TwentyBytes(hmac) && WellFormedCode(code) && candidate < TWO_64
    ensures matches == Matches(hmac, secret, code, candidate)
  {
    var generated := GenerateTotp(hmac, secret, candidate, |code|);
    PadInvertsReading(generated, code);
    matches := ZeroPad(generated, |code|) == code;
  }

  /** The time step is the number of whole 30-second steps since the epoch exactly for times not before it. */
  lemma StepIsFloor(epochSeconds: int)
    requires -0x8000_0000_0000_0000 <= epochSeconds < 0x8000_0000_0000_0000
    ensures StepOf(epochSeconds) == epochSeconds / STEP_SECONDS <==> epochSeconds >= 0
  {
    if epochSeconds >= 0 {
      DivModUnique(0, epochSeconds, TWO_64);
    } else {
      assert epochSeconds / STEP_SECONDS < 0;
    }
  }

  /** One second before the epoch the counter is not -1 but a number of eighteen digits. */
  lemma StepBeforeEpoch()
    ensures StepOf(-1) == 614891469123651720
  {
    DivModUnique(-1, TWO_64 - 1, TWO_64);
  }
}
