/**
  Finding a known piece of text at a position of a longer text, one character
  at a time, and the ways such a finding splits and extends.
 */
module Text {
  /** `s` holds the text `e` at position `p`. */
  predicate IsAt(s: string, p: nat, e: string) {
    p + |e| <= |s| && MatchesFrom(s, p, e, 0)
  }

  /** The characters of `e` from its `i`-th on are found in `s`, shifted by `p`. */
  predicate MatchesFrom(s: string, p: nat, e: string, i: nat)
    decreases |e| - i, 1
  {
    i >= |e| || MatchesChar(s, p, e, i)
  }

  /** The `i`-th character of `e` is found in `s`, and so are the ones after it. */
  predicate MatchesChar(s: string, p: nat, e: string, i: nat)
    requires i < |e|
    decreases |e| - i, 0
  {
    p + i < |s| && s[p + i] == e[i] && MatchesFrom(s, p, e, i + 1)
  }

  lemma {:induction false} MatchesFromAll(s: string, p: nat, e: string, i: nat)
    requires i <= |e| && p + |e| <= |s|
    ensures MatchesFrom(s, p, e, i) <==> forall j | i <= j < |e| :: s[p + j] == e[j]
    decreases |e| - i
  {
    if i < |e| {
      MatchesFromAll(s, p, e, i + 1);
    }
  }

  /** `IsAt` compares character by character. */
  lemma {:induction false} IsAtChars(s: string, p: nat, e: string)
    requires p + |e| <= |s|
    ensures IsAt(s, p, e) <==> forall j | 0 <= j < |e| :: s[p + j] == e[j]
  {
    MatchesFromAll(s, p, e, 0);
  }

  /** Two texts written one after the other are found one after the other. */
  lemma {:induction false} IsAtSplit(s: string, p: nat, a: string, b: string)
    requires IsAt(s, p, a + b)
    ensures IsAt(s, p, a) && IsAt(s, p + |a|, b)
  {
    IsAtChars(s, p, a + b);
    IsAtChars(s, p, a);
    IsAtChars(s, p + |a|, b);
    forall j | 0 <= j < |a| ensures s[p + j] == a[j] {
      assert (a + b)[j] == a[j];
    }
    forall j | 0 <= j < |b| ensures s[p + |a| + j] == b[j] {
      assert (a + b)[|a| + j] == b[j];
    }
  }

  /** The first character of a text is found where the text is. */
  lemma {:induction false} IsAtFirst(s: string, p: nat, e: string)
    requires IsAt(s, p, e) && |e| > 0
    ensures p < |s| && s[p] == e[0]
  {
    assert MatchesChar(s, p, e, 0);
  }

  /** A text is found at the start of a text it begins. */
  lemma {:induction false} IsAtPrefix(e: string, post: string)
    ensures IsAt(e + post, 0, e)
  {
    IsAtChars(e + post, 0, e);
  }

  /** A text is found where it was written. */
  lemma {:induction false} IsAtWritten(pre: string, e: string, post: string)
    ensures IsAt(pre + e + post, |pre|, e)
  {
    var s := pre + e + post;
    IsAtChars(s, |pre|, e);
    forall j | 0 <= j < |e| ensures s[|pre| + j] == e[j] {
    }
  }

  /** The text found at a position is the slice of that length there. */
  lemma {:induction false} IsAtSlice(s: string, p: nat, e: string)
    requires IsAt(s, p, e)
    ensures s[p..p + |e|] == e
  {
    IsAtChars(s, p, e);
    forall i | 0 <= i < |e| ensures s[p..p + |e|][i] == e[i] {
      assert s[p + i] == e[i];
    }
  }

  /** Text `a`, a two-character separator such as `", "` or `": "`, then text `b`. */
  lemma {:induction false} SplitSep(s: string, p: nat, a: string, sep: string, b: string)
    requires |sep| == 2
    requires IsAt(s, p, a + (sep + b))
    ensures IsAt(s, p, a) && IsAt(s, p + |a| + 2, b)
    ensures p + |a| + 1 < |s| && s[p + |a|] == sep[0] && s[p + |a| + 1] == sep[1]
  {
    IsAtSplit(s, p, a, sep + b);
    IsAtSplit(s, p + |a|, sep, b);
    IsAtChars(s, p + |a|, sep);
    assert s[p + |a| + 1] == sep[1];
  }

  /** Text `a`, then the character `c`. */
  lemma {:induction false} SplitLast(s: string, p: nat, e: string, a: string, c: char)
    requires e == a + [c]
    requires IsAt(s, p, e)
    ensures IsAt(s, p, a) && p + |a| < |s| && s[p + |a|] == c
  {
    IsAtSplit(s, p, a, [c]);
    IsAtFirst(s, p + |a|, [c]);
  }

  /** The character `c`, then text `b`. */
  lemma {:induction false} SplitFirst(s: string, p: nat, e: string, c: char, b: string)
    requires e == [c] + b
    requires IsAt(s, p, e)
    ensures p < |s| && s[p] == c && IsAt(s, p + 1, b)
  {
    IsAtSplit(s, p, [c], b);
    IsAtFirst(s, p, [c]);
  }

  /** Text found in `s` is still found after more text is added at the end. */
  lemma {:induction false} IsAtExtend(s: string, p: nat, e: string, post: string)
    requires IsAt(s, p, e)
    ensures IsAt(s + post, p, e)
  {
    IsAtChars(s, p, e);
    IsAtChars(s + post, p, e);
  }

  /** Text found in `s` is found further on once `s` is preceded by `pre`. */
  lemma {:induction false} IsAtShift(pre: string, s: string, p: nat, e: string)
    requires IsAt(s, p, e)
    ensures IsAt(pre + s, |pre| + p, e)
  {
    IsAtChars(s, p, e);
    IsAtChars(pre + s, |pre| + p, e);
    forall j | 0 <= j < |e| ensures (pre + s)[|pre| + p + j] == e[j] {
      assert s[p + j] == e[j];
    }
  }
}
