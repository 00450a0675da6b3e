/** Decoding of base32 secrets (src/security/totp.cpp). */
module Base32 {
  import opened Common
  import opened Radix
  import opened BitStream
  import opened Text

  datatype Error = InvalidCharacter

  /** The alphabet of section 6 of RFC 4648. */
  const ALPHABET: string := "ABCDEFGHIJKLMNOPQRSTUVWXYZ" + "234567"

  /** What the C locale counts as white space: blank, tab, line feed, vertical tab, form feed, carriage return. */
  const SPACES: string := [' ', 9 as char, 10 as char, 11 as char, 12 as char, 13 as char]

  /** `char_to_base32`: the 5-bit value of a character, or -1. */
  function QuintetOf(c: char): (d: int)
    ensures -1 <= d < 32
  {
    if 'A' <= c <= 'Z' then c as int - 'A' as int
    else if '2' <= c <= '7' then 26 + (c as int - '2' as int)
    else if 'a' <= c <= 'z' then c as int - 'a' as int
    else -1
  }

  /** `isspace` in the default locale: tab to carriage return, and the space. */
  predicate IsSpace(c: char) {
    c == ' ' || 9 <= c as int <= 13
  }

  predicate Acceptable(s: string) {
    forall i :: 0 <= i < |s| ==> QuintetOf(s[i]) >= 0 || IsSpace(s[i])
  }

  /** The values of the characters of `s` that have one, in order. */
  function QuintetsOf(s: string): (ds: seq<int>)
    ensures IsDigits(ds, 32)
  {
    if |s| == 0 then [] else
      var n := |s| - 1;
      QuintetsOf(s[..n]) + Quintets(s[n])
  }

  function Quintets(c: char): (ds: seq<int>)
    ensures IsDigits(ds, 32)
  {
    if QuintetOf(c) >= 0 then [QuintetOf(c)] else []
  }

  /** The whole bytes spelled by the characters before the first '='. */
  function Decoded(s: string): (r: Result<seq<int>, Error>)
    ensures r.Ok? ==> IsDigits(r.value, 256) && |r.value| == |QuintetsOf(Before(s, '='))| * 5 / 8
  {
    var body := Before(s, '=');
    if !Acceptable(body) then Err(InvalidCharacter) else
      WidthConstants();
      Ok(Regroup(QuintetsOf(body), 5, 8))
  }

  lemma WidthConstants()
    ensures Pow(2, 5) == 32 && Pow(2, 8) == 256
  {
  }

  /** `buffer` is an `int` that is never masked; only its low pending bits are ever read. */
  method DecodeBase32(input: ByteString) returns (r: Result<seq<byte>, Error>)
    ensures r == Decoded(input)
    ensures r.Ok? <==> forall c <- Before(input, '=') :: Upper(c) in ALPHABET || c in SPACES
    ensures r.Ok? ==> |r.value| == |QuintetsOf(Before(input, '='))| * 5 / 8
  {
    DecodedMeans(input);
    var valid, output := DecodeLoop(input);
    if !valid {
      return Err(InvalidCharacter);
    }
    var bytes: seq<byte> := output;
    r := Ok(bytes);
  }

  method DecodeLoop(input: ByteString) returns (valid: bool, output: seq<int>)
    ensures Decoded(input) == if valid then Ok(output) else Err(InvalidCharacter)
  {
    var buffer, bitsLeft := 0, 0;
    output := [];
    var i := 0;
    Start(5, 8, 0);
    assert QuintetsOf(input[..0]) == [];
    while i < |input|
      invariant i <= Find(input, '=') && Acceptable(input[..i])
      invariant 0 <= bitsLeft < 8
      invariant Streaming(QuintetsOf(input[..i]), 5, output, 8, buffer, bitsLeft)
    {
      var c := input[i];
      if c == '=' {
        break;
      }
      var value := QuintetOf(c);
      if value < 0 {
        if !IsSpace(c) {
          BadCharacter(input, i);
          return false, output;
        }
        SkipSpace(input, i);
      } else {
        output, buffer, bitsLeft := Consume(input, i, output, buffer, bitsLeft, value);
      }
      i := i + 1;
    }
    StopDecode(input, i, output, buffer, bitsLeft);
    valid := true;
  }

  /** The rest of the loop's body for a character with a value. */
  method Consume(ghost input: string, ghost i: nat, output0: seq<int>, buffer0: int, bits0: nat, value: int)
    returns (output: seq<int>, buffer: int, bitsLeft: nat)
    requires i < |input| && value == QuintetOf(input[i]) >= 0 && bits0 < 8 && Acceptable(input[..i])
    requires Streaming(QuintetsOf(input[..i]), 5, output0, 8, buffer0, bits0)
    ensures bitsLeft < 8 && Acceptable(input[..i + 1])
    ensures Streaming(QuintetsOf(input[..i + 1]), 5, output, 8, buffer, bitsLeft)
  {
    ReadQuintet(input, i, output0, buffer0, bits0);
    buffer := WrapSigned(buffer0 * 32) + value;
    output, bitsLeft := EmitIfWhole(QuintetsOf(input[..i + 1]), output0, buffer, bits0 + 5);
  }

  /** The body of the loop's last `if`. */
  method EmitIfWhole(ghost read: seq<int>, output0: seq<int>, buffer: int, bits0: nat)
    returns (output: seq<int>, bitsLeft: nat)
    requires bits0 < 13 && Streaming(read, 5, output0, 8, buffer, bits0)
    ensures bitsLeft < 8 && Streaming(read, 5, output, 8, buffer, bitsLeft)
  {
    output, bitsLeft := output0, bits0;
    if bitsLeft >= 8 {
      WidthConstants();
      Emit(read, 5, output, 8, buffer, bitsLeft);
      bitsLeft := bitsLeft - 8;
      output := output + [buffer / Pow(2, bitsLeft) % 256];
    }
  }

  lemma ReadQuintet(input: string, i: nat, output: seq<int>, buffer: int, bitsLeft: nat)
    requires i < |input| && QuintetOf(input[i]) >= 0 && bitsLeft < 8 && Acceptable(input[..i])
    requires Streaming(QuintetsOf(input[..i]), 5, output, 8, buffer, bitsLeft)
    ensures Acceptable(input[..i + 1])
    ensures Streaming(QuintetsOf(input[..i + 1]), 5, output, 8,
                      WrapSigned(buffer * 32) + QuintetOf(input[i]), bitsLeft + 5)
  {
    WidthConstants();
    var d := QuintetOf(input[i]);
    OneMoreCharacter(input, i);
    Read(QuintetsOf(input[..i]), 5, output, 8, buffer, bitsLeft, d, WrapSigned(buffer * 32) + d);
  }

  lemma OneMoreCharacter(input: string, i: nat)
    requires i < |input|
    ensures QuintetsOf(input[..i + 1]) == QuintetsOf(input[..i]) + Quintets(input[i])
    ensures Acceptable(input[..i + 1]) == (Acceptable(input[..i]) && (QuintetOf(input[i]) >= 0 || IsSpace(input[i])))
  {
    assert input[..i + 1] == input[..i] + [input[i]];
    QuintetsSnoc(input[..i], input[i]);
    AcceptableSnoc(input[..i], input[i]);
  }

  lemma SkipSpace(input: string, i: nat)
    requires i < |input| && IsSpace(input[i]) && QuintetOf(input[i]) < 0 && Acceptable(input[..i])
    ensures Acceptable(input[..i + 1]) && QuintetsOf(input[..i + 1]) == QuintetsOf(input[..i])
  {
    OneMoreCharacter(input, i);
  }

  lemma BadCharacter(input: string, i: nat)
    requires i < |input| && i <= Find(input, '=') && input[i] != '='
    requires QuintetOf(input[i]) < 0 && !IsSpace(input[i])
    ensures Decoded(input) == Err(InvalidCharacter)
  {
    assert input[..Find(input, '=')][i] == input[i];
  }

  lemma StopDecode(input: string, i: nat, output: seq<int>, buffer: int, bitsLeft: nat)
    requires i == Find(input, '=') && bitsLeft < 8 && Acceptable(input[..i])
    requires Streaming(QuintetsOf(input[..i]), 5, output, 8, buffer, bitsLeft)
    ensures IsDigits(output, 256) && Decoded(input) == Ok(output)
  {
    WidthConstants();
    Stop(QuintetsOf(input[..i]), 5, output, 8, buffer, bitsLeft);
  }

  // Main results.

  /** Every letter and digit of the alphabet stands for its place, and so does the letter's lower case. */
  lemma QuintetOfAlphabet(i: nat)
    requires i < 32
    ensures |ALPHABET| == 32 && QuintetOf(ALPHABET[i]) == i
    ensures i < 26 ==> QuintetOf(ALPHABET[i] + 32 as char) == i
  {
    AlphabetRuns(i);
    if i < 26 {
      UpperRun(i);
    } else {
      LastRun(i - 26);
    }
  }

  lemma AlphabetRuns(i: nat)
    requires i < 32
    ensures |ALPHABET| == 32
    ensures ALPHABET[i] == if i < 26 then "ABCDEFGHIJKLMNOPQRSTUVWXYZ"[i] else "234567"[i - 26]
  {
  }

  lemma LastRun(i: nat)
    requires i < 6
    ensures "234567"[i] as int == '2' as int + i
  {
  }

  /** Exactly the alphabet's characters, letters in either case, have a value. */
  lemma HasQuintet(c: char)
    ensures QuintetOf(c) >= 0 <==> Upper(c) in ALPHABET
    ensures QuintetOf(c) >= 0 ==> |ALPHABET| == 32 && Upper(c) == ALPHABET[QuintetOf(c)]
  {
    AlphabetRuns(0);
    UpperKeeps(c);
    if QuintetOf(c) >= 0 {
      QuintetOfAlphabet(QuintetOf(c));
      SameGlyph(Upper(c), ALPHABET[QuintetOf(c)]);
    } else if Upper(c) in ALPHABET {
      var i :| 0 <= i < |ALPHABET| && ALPHABET[i] == Upper(c);
      QuintetOfAlphabet(i);
    }
  }

  lemma SameGlyph(c: char, d: char)
    requires QuintetOf(c) == QuintetOf(d) >= 0 && !('a' <= c <= 'z') && !('a' <= d <= 'z')
    ensures c == d
  {
  }

  lemma AcceptableIs(s: string)
    ensures Acceptable(s) <==> forall c <- s :: Upper(c) in ALPHABET || c in SPACES
  {
    forall i | 0 <= i < |s| ensures QuintetOf(s[i]) >= 0 <==> Upper(s[i]) in ALPHABET {
      HasQuintet(s[i]);
    }
    forall i | 0 <= i < |s| ensures IsSpace(s[i]) <==> s[i] in SPACES {
      SpacesAre(s[i]);
    }
  }

  lemma SpacesAre(c: char)
    ensures IsSpace(c) <==> c in SPACES
  {
    assert SPACES[0] == ' ' && SPACES[1] == 9 as char && SPACES[2] == 10 as char;
    assert SPACES[3] == 11 as char && SPACES[4] == 12 as char && SPACES[5] == 13 as char;
  }

  /**
   What decoding means: with only characters of the alphabet, in either case, and white space before the first
   '=', the whole bytes of the characters' bits, that is, their number without the bits left over; an error
   otherwise.
   */
  lemma DecodedMeans(s: string)
    ensures Decoded(s).Ok? <==> forall c <- Before(s, '=') :: Upper(c) in ALPHABET || c in SPACES
    ensures Decoded(s).Ok? ==>
              var ds, bytes := QuintetsOf(Before(s, '=')), Decoded(s).value;
              && |bytes| == |ds| * 5 / 8
              && Value(bytes, 256) == Value(ds, 32) / Pow(2, |ds| * 5 % 8)
  {
    AcceptableIs(Before(s, '='));
    WidthConstants();
    if Decoded(s).Ok? {
      RegroupValue(QuintetsOf(Before(s, '=')), 5, 8);
    }
  }

  function Glyph(d: int): (c: char)
    requires 0 <= d < 32
    ensures QuintetOf(c) == d
  {
    if d < 26 then 'A' + d as char else '2' + (d - 26) as char
  }

  function Glyphs(ds: seq<int>): (s: string)
    requires IsDigits(ds, 32)
    ensures |s| == |ds|
  {
    seq(|ds|, i requires 0 <= i < |ds| => Glyph(ds[i]))
  }

  /** The encoding of section 6 of RFC 4648: zero-filled quintets, '=' up to a multiple of eight. */
  function Encoded(bytes: seq<int>): (s: string)
    requires IsDigits(bytes, 256)
  {
    WidthConstants();
    var ds := RegroupPadded(bytes, 8, 5);
    Glyphs(ds) + Repeat('=', Padding(|ds|))
  }

  /** How many '=' fill the last eight-character group. */
  function Padding(n: nat): (p: nat)
    ensures p < 8 && (n + p) % 8 == 0
  {
    (8 - n % 8) % 8
  }

  /** Decoding undoes the standard's encoding, for every byte string. */
  lemma DecodeUndoesEncode(bytes: seq<byte>)
    ensures Decoded(Encoded(bytes)) == Ok(bytes)
  {
    WidthConstants();
    var ds := RegroupPadded(bytes, 8, 5);
    BodyOfPadded(ds, Padding(|ds|));
    QuintetsOfGlyphs(ds);
    RegroupBack(bytes, 5);
  }

  lemma BodyOfPadded(ds: seq<int>, pad: nat)
    requires IsDigits(ds, 32)
    ensures var s := Glyphs(ds) + Repeat('=', pad);
      Before(s, '=') == Glyphs(ds) && Acceptable(Glyphs(ds))
  {
    var s := Glyphs(ds) + Repeat('=', pad);
    assert forall k :: 0 <= k < |ds| ==> s[k] == Glyph(ds[k]) && QuintetOf(s[k]) == ds[k];
    FindIs(s, '=', |ds|);
  }

  lemma {:induction false} QuintetsOfGlyphs(ds: seq<int>)
    requires IsDigits(ds, 32)
    ensures QuintetsOf(Glyphs(ds)) == ds
  {
    if |ds| > 0 {
      var n := |ds| - 1;
      QuintetsOfGlyphs(ds[..n]);
      assert Glyphs(ds)[..n] == Glyphs(ds[..n]);
    }
  }

  function Upper(c: char): char {
    if 'a' <= c <= 'z' then c - 32 as char else c
  }

  /** Upper case, without white space. */
  function Normalized(s: string): string {
    if |s| == 0 then "" else
      var n := |s| - 1;
      Normalized(s[..n]) + Kept(s[n])
  }

  function Kept(c: char): string {
    if IsSpace(c) then "" else [Upper(c)]
  }

  lemma NormalizedSnoc(s: string, c: char)
    ensures Normalized(s + [c]) == Normalized(s) + Kept(c)
  {
    assert (s + [c])[..|s|] == s;
  }

  lemma NormalizedLast(s: string)
    requires |s| > 0
    ensures var p, c := s[..|s| - 1], s[|s| - 1];
      Normalized(s) == if IsSpace(c) then Normalized(p) else Normalized(p) + [Upper(c)]
  {
  }

  lemma QuintetsSnoc(s: string, c: char)
    ensures QuintetsOf(s + [c]) == QuintetsOf(s) + Quintets(c)
  {
    assert (s + [c])[..|s|] == s;
  }

  /** Letter case and white space do not matter. */
  lemma CaseAndSpaceIgnored(s: string, t: string)
    requires Normalized(s) == Normalized(t)
    ensures Decoded(s) == Decoded(t)
  {
    DecodedNormalized(s);
    DecodedNormalized(t);
  }

  lemma DecodedNormalized(s: string)
    ensures Decoded(Normalized(s)) == Decoded(s)
  {
    NormalizedBody(Before(s, '='));
    BodyOfNormalized(s, Before(s, '='));
  }

  lemma BodyOfNormalized(s: string, body: string)
    requires body == Before(s, '=') && Free(Normalized(body), '=')
    ensures Before(Normalized(s), '=') == Normalized(body)
  {
    BeforeSplits(s, '=');
    if s == body {
      BeforeNothing(Normalized(body), '=');
    } else {
      var rest :| s == body + ['='] + rest;
      NormalizedAround(body, rest);
      BeforeSeparator(Normalized(body), '=', Normalized(rest));
    }
  }

  lemma NormalizedAround(a: string, b: string)
    ensures Normalized(a + ['='] + b) == Normalized(a) + ['='] + Normalized(b)
  {
    NormalizedAppend(a + ['='], b);
    NormalizedSnoc(a, '=');
  }

  lemma {:induction false} NormalizedAppend(s: string, t: string)
    ensures Normalized(s + t) == Normalized(s) + Normalized(t)
  {
    if |t| == 0 {
      assert s + t == s;
    } else {
      var n := |t| - 1;
      NormalizedAppend(s, t[..n]);
      assert s + t == (s + t[..n]) + [t[n]];
      NormalizedSnoc(s + t[..n], t[n]);
      Assoc(Normalized(s), Normalized(t[..n]), Kept(t[n]));
    }
  }

  /** Normalizing keeps what a text means. */
  lemma NormalizedBody(s: string)
    requires Free(s, '=')
    ensures Free(Normalized(s), '=')
    ensures QuintetsOf(Normalized(s)) == QuintetsOf(s) && Acceptable(Normalized(s)) == Acceptable(s)
  {
    NormalizedFree(s);
    NormalizedQuintets(s);
    NormalizedAcceptable(s);
  }

  lemma {:induction false} NormalizedFree(s: string)
    requires Free(s, '=')
    ensures Free(Normalized(s), '=')
  {
    if |s| > 0 {
      NormalizedFree(s[..|s| - 1]);
      UpperKeeps(s[|s| - 1]);
    }
  }

  lemma {:induction false} NormalizedQuintets(s: string)
    ensures QuintetsOf(Normalized(s)) == QuintetsOf(s)
  {
    if |s| > 0 {
      var p, c := s[..|s| - 1], s[|s| - 1];
      NormalizedQuintets(p);
      UpperKeeps(c);
      NormalizedLast(s);
      if !IsSpace(c) {
        QuintetsSnoc(Normalized(p), Upper(c));
      }
    }
  }

  lemma {:induction false} NormalizedAcceptable(s: string)
    ensures Acceptable(Normalized(s)) == Acceptable(s)
  {
    if |s| > 0 {
      var p, c := s[..|s| - 1], s[|s| - 1];
      NormalizedAcceptable(p);
      UpperKeeps(c);
      assert s == p + [c];
      AcceptableSnoc(p, c);
      NormalizedLast(s);
      if !IsSpace(c) {
        AcceptableSnoc(Normalized(p), Upper(c));
      }
    }
  }

  lemma UpperKeeps(c: char)
    ensures QuintetOf(Upper(c)) == QuintetOf(c)
    ensures IsSpace(c) ==> QuintetOf(c) < 0
    ensures !IsSpace(c) ==> !IsSpace(Upper(c))
    ensures c != '=' ==> Upper(c) != '='
  {
  }

  lemma AcceptableSnoc(s: string, c: char)
    ensures Acceptable(s + [c]) == (Acceptable(s) && (QuintetOf(c) >= 0 || IsSpace(c)))
  {
    assert (s + [c])[|s|] == c;
    assert forall i :: 0 <= i < |s| ==> (s + [c])[i] == s[i];
  }
}
