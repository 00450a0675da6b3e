/** Decimal text of whole numbers. */
module Decimals {
  import opened Common
  import opened Radix

  predicate IsDecimal(s: string) {
    forall i :: 0 <= i < |s| ==> '0' <= s[i] <= '9'
  }

  function DecimalGlyphs(ds: seq<int>): (s: string)
    requires IsDigits(ds, 10)
    ensures |s| == |ds| && IsDecimal(s)
  {
    seq(|ds|, i requires 0 <= i < |ds| => '0' + ds[i] as char)
  }

  function DecimalDigits(s: string): (ds: seq<int>)
    requires IsDecimal(s)
    ensures |ds| == |s| && IsDigits(ds, 10)
  {
    seq(|s|, i requires 0 <= i < |s| => s[i] as int - '0' as int)
  }

  /** How an unsigned integer prints. */
  function Decimal(v: nat): (s: string) {
    if v == 0 then "0" else DecimalGlyphs(Digits(v, 10))
  }

  /** `zero_pad`: printed with a minimum width, filled with '0' from the left. */
  function ZeroPad(v: nat, width: nat): (s: string) {
    var s := Decimal(v);
    if |s| >= width then s else Repeat('0', width - |s|) + s
  }

  /** The number a decimal text spells. */
  function CodeValue(s: string): (v: nat)
    requires IsDecimal(s)
  {
    ValueBounds(DecimalDigits(s), 10);
    Value(DecimalDigits(s), 10)
  }

  /** Reading a decimal text, one digit after the other. */
  lemma CodeValueReads(s: string, c: char)
    requires IsDecimal(s) && '0' <= c <= '9'
    ensures CodeValue("") == 0
    ensures IsDecimal(s + [c]) && CodeValue(s + [c]) == CodeValue(s) * 10 + (c as int - '0' as int)
  {
    assert DecimalDigits(s + [c]) == DecimalDigits(s) + [c as int - '0' as int];
    ValueSnoc(DecimalDigits(s), c as int - '0' as int, 10);
  }

  lemma GlyphsOfDigits(s: string)
    requires IsDecimal(s)
    ensures DecimalGlyphs(DecimalDigits(s)) == s
  {
  }

  lemma DigitsOfGlyphs(ds: seq<int>)
    requires IsDigits(ds, 10)
    ensures DecimalDigits(DecimalGlyphs(ds)) == ds
  {
  }

  lemma PadGlyphs(n: nat, ds: seq<int>)
    requires IsDigits(ds, 10)
    ensures Repeat('0', n) + DecimalGlyphs(ds) == DecimalGlyphs(Repeat(0, n) + ds)
  {
  }

  /** A number that fits prints as its fixed-width digits. */
  lemma ZeroPadIsFixed(v: nat, width: nat)
    requires 0 < width && v < Pow(10, width)
    ensures ZeroPad(v, width) == DecimalGlyphs(FixedDigits(v, 10, width))
  {
    PaddedDigits(v, 10, width);
    if v == 0 {
      assert Repeat(0, width) + [] == Repeat(0, width);
      assert ZeroPad(v, width) == DecimalGlyphs(Repeat(0, width));
    } else {
      PadGlyphs(width - |Digits(v, 10)|, Digits(v, 10));
    }
  }

  /** Different numbers print differently. */
  lemma DecimalInjective(v: nat, w: nat)
    requires Decimal(v) == Decimal(w)
    ensures v == w
  {
    DecimalReads(v);
    DecimalReads(w);
  }

  lemma DecimalReads(v: nat)
    ensures IsDecimal(Decimal(v)) && CodeValue(Decimal(v)) == v
  {
    if v == 0 {
      assert DecimalDigits("0") == [0];
      ValueSnoc([], 0, 10);
      assert [] + [0] == [0];
    } else {
      DigitsOfGlyphs(Digits(v, 10));
      ValueOfDigits(v, 10);
    }
  }
}
