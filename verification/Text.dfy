/** Searching and splitting text. */
module Text {

  /** The position of the first `c` at or after `from`, or the length when there is none. */
  function FindFrom(s: string, c: char, from: nat): (i: nat)
    requires from <= |s|
    ensures from <= i <= |s| && (forall k :: from <= k < i ==> s[k] != c) && (i < |s| ==> s[i] == c)
    decreases |s| - from
  {
    if from < |s| && s[from] != c then FindFrom(s, c, from + 1) else from
  }

  function Find(s: string, c: char): (i: nat)
    ensures i <= |s| && (forall k :: 0 <= k < i ==> s[k] != c) && (i < |s| ==> s[i] == c)
  {
    FindFrom(s, c, 0)
  }

  lemma FindIs(s: string, c: char, i: nat)
    requires i <= |s| && (forall k :: 0 <= k < i ==> s[k] != c) && (i < |s| ==> s[i] == c)
    ensures Find(s, c) == i
  {
  }

  predicate Free(s: string, c: char) {
    forall k :: 0 <= k < |s| ==> s[k] != c
  }

  /** The first separator of `a + [c] + b` is the one written between `a` and `b`. */
  lemma FindSeparator(a: string, c: char, b: string)
    requires Free(a, c)
    ensures Find(a + [c] + b, c) == |a|
    ensures (a + [c] + b)[..|a|] == a && (a + [c] + b)[|a| + 1..] == b
  {
    FindIs(a + [c] + b, c, |a|);
  }

  /** The text in front of the first `c`. */
  function Before(s: string, c: char): (a: string)
    ensures Free(a, c)
  {
    s[..Find(s, c)]
  }

  lemma BeforeSeparator(a: string, c: char, b: string)
    requires Free(a, c)
    ensures Before(a + [c] + b, c) == a
  {
    FindSeparator(a, c, b);
  }

  lemma BeforeNothing(a: string, c: char)
    requires Free(a, c)
    ensures Before(a, c) == a
  {
    FindIs(a, c, |a|);
  }

  /** Either there is no separator, or the text is what is before it, the separator, and the rest. */
  lemma BeforeSplits(s: string, c: char)
    ensures s == Before(s, c) || exists b :: s == Before(s, c) + [c] + b
  {
    var i := Find(s, c);
    if i < |s| {
      assert s == Before(s, c) + [c] + s[i + 1..];
    }
  }

  /** The pieces of `s` between separators: one more piece than separators. */
  function Split(s: string, c: char): (parts: seq<string>)
    ensures |parts| > 0
    decreases |s|
  {
    var i := Find(s, c);
    if i == |s| then [s] else [s[..i]] + Split(s[i + 1..], c)
  }

  function Join(parts: seq<string>, c: char): string {
    if |parts| == 0 then ""
    else if |parts| == 1 then parts[0]
    else parts[0] + [c] + Join(parts[1..], c)
  }

  lemma {:induction false} SplitOfJoin(parts: seq<string>, c: char)
    requires |parts| > 0 && forall p <- parts :: Free(p, c)
    ensures Split(Join(parts, c), c) == parts
  {
    assert parts[0] in parts && Free(parts[0], c);
    if |parts| == 1 {
      FindIs(parts[0], c, |parts[0]|);
    } else {
      FindSeparator(parts[0], c, Join(parts[1..], c));
      SplitOfJoin(parts[1..], c);
    }
  }

  lemma {:induction false} JoinSnoc(parts: seq<string>, p: string, c: char)
    ensures Join(parts + [p], c) == if |parts| == 0 then p else Join(parts, c) + [c] + p
  {
    if |parts| > 0 {
      JoinSnoc(parts[1..], p, c);
      assert (parts + [p])[1..] == parts[1..] + [p];
      if |parts| > 1 {
        var a, b := parts[0] + [c], Join(parts[1..], c);
        assert a + (b + [c] + p) == (a + b) + [c] + p;
      } else {
        assert parts[1..] + [p] == [p];
      }
    }
  }

  // Runs of characters.

  lemma UpperRun(i: nat)
    requires i < 26
    ensures "ABCDEFGHIJKLMNOPQRSTUVWXYZ"[i] as int == 'A' as int + i
  {
  }

  lemma LowerRun(i: nat)
    requires i < 26
    ensures "abcdefghijklmnopqrstuvwxyz"[i] as int == 'a' as int + i
  {
  }

  lemma DigitRun(i: nat)
    requires i < 10
    ensures "0123456789"[i] as int == '0' as int + i
  {
  }

  lemma InUpper(c: char)
    ensures c in "ABCDEFGHIJKLMNOPQRSTUVWXYZ" <==> 'A' <= c <= 'Z'
  {
    forall i: nat | i < 26 ensures "ABCDEFGHIJKLMNOPQRSTUVWXYZ"[i] as int == 'A' as int + i {
      UpperRun(i);
    }
    InRunOf("ABCDEFGHIJKLMNOPQRSTUVWXYZ", 'A', c);
  }

  lemma InLower(c: char)
    ensures c in "abcdefghijklmnopqrstuvwxyz" <==> 'a' <= c <= 'z'
  {
    forall i: nat | i < 26 ensures "abcdefghijklmnopqrstuvwxyz"[i] as int == 'a' as int + i {
      LowerRun(i);
    }
    InRunOf("abcdefghijklmnopqrstuvwxyz", 'a', c);
  }

  lemma InDigits(c: char)
    ensures c in "0123456789" <==> '0' <= c <= '9'
  {
    forall i: nat | i < 10 ensures "0123456789"[i] as int == '0' as int + i {
      DigitRun(i);
    }
    InRunOf("0123456789", '0', c);
  }

  /** A text of consecutive characters holds exactly those from its first to its last. */
  lemma InRunOf(run: string, first: char, c: char)
    requires forall i :: 0 <= i < |run| ==> run[i] as int == first as int + i
    ensures c in run <==> first as int <= c as int < first as int + |run|
  {
    if first as int <= c as int < first as int + |run| {
      assert run[c as int - first as int] == c;
    }
  }
}
