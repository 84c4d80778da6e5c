/**
  The footer at the end of the database file: the index text on its own
  line, then the offset where that index text starts, in decimal, with no
  line break after it. The store finds the footer by scanning backwards for
  the last line break.
 */
module Footer {
  import opened Wrappers
  import opened Dict
  import opened Text
  import opened TextFile
  import opened Format
  import Decimal

  /** `json.dumps(index) + "\n" + str(n)`, the footer for an index written at offset `n`. */
  function FooterText(idx: Index, n: nat): string {
    EncodeIndex(idx) + "\n" + Decimal.Format(n)
  }

  // ---------------------------------------------------------------- the backward scan

  /**
    The scan, resumed at `p`: it stops at the first line break it reads going
    down, or when `p` is no longer above 1. Reading at the end of the file
    gives nothing, so `p == |f|` never stops it, and position 1 is never read.
   */
  function ScanFrom(f: string, p: nat): (r: nat)
    requires p <= |f|
    ensures r <= p && (p >= 1 ==> r >= 1)
    ensures r >= 2 ==> r < |f| && f[r] == '\n'
    ensures forall q | r < q <= p && 2 <= q < |f| :: f[q] != '\n'
    decreases p
  {
    if p <= 1 then p
    else if ReadAt(f, p, 1) == "\n" then p
    else ScanFrom(f, p - 1)
  }

  /**
    Where the pointer line starts: 0 for an empty file; otherwise the last
    line break at an offset of at least 2, or 1 when there is none.
   */
  function PointerPos(f: string): (r: nat)
    ensures |f| == 0 <==> r == 0
    ensures |f| > 0 ==> 1 <= r && (r < |f| || |f| == 1)
    ensures r >= 2 ==> r < |f| && f[r] == '\n'
    ensures forall q | 2 <= q < |f| && r < q :: f[q] != '\n'
  {
    ScanFrom(f, |f|)
  }

  /** The scan as the store runs it: a loop from the end of the file down. */
  method FindPointerPos(f: string) returns (p: nat)
    ensures |f| == 0 ==> p == 0
    ensures |f| > 0 ==> 1 <= p && (p < |f| || |f| == 1)
    ensures p >= 2 ==> p < |f| && f[p] == '\n'
    ensures forall q | 2 <= q < |f| && p < q :: f[q] != '\n'
    ensures p == PointerPos(f)
  {
    p := |f|;
    while p > 1
      invariant p <= |f|
      invariant |f| > 0 ==> p >= 1
      invariant forall q | 2 <= q < |f| && p < q :: f[q] != '\n'
      invariant ScanFrom(f, p) == PointerPos(f)
      decreases p
    {
      if ReadAt(f, p, 1) == "\n" {
        break;
      }
      p := p - 1;
    }
  }

  /** `int(read().strip())` from the pointer line at `p`; `None` is the `ValueError`. */
  function ReadPointer(f: string, p: nat): Option<nat> {
    Decimal.ParseInt(ReadAt(f, p, -1))
  }

  /** The text from the index offset up to the pointer line: `read(p - index_pos)`. */
  function IndexText(f: string, indexPos: nat, p: nat): string {
    ReadAt(f, indexPos, p - indexPos)
  }

  /** The scan stops at the line break that ends the line of `e`, when only digits follow it. */
  lemma {:induction false} ScanFindsFooter(body: string, e: string, d: string)
    requires |e| >= 2 && Decimal.AllDigits(d)
    ensures PointerPos(body + (e + "\n" + d)) == |body| + |e|
  {
    var f := body + (e + "\n" + d);
    var p := |body| + |e|;
    assert f[p] == '\n';
    forall q | p < q < |f| ensures f[q] != '\n' {
      assert f[q] == d[q - p - 1];
    }
  }

  /** What follows the scan's stop is the line break and the digits, which read as the number written. */
  lemma {:induction false} PointerLineOf(body: string, e: string, n: nat)
    ensures ReadPointer(body + (e + "\n" + Decimal.Format(n)), |body| + |e|) == Some(n)
  {
    var d := Decimal.Format(n);
    var f := body + (e + "\n" + d);
    assert f[|body| + |e|..] == "\n" + d;
    assert Decimal.AllSpace("\n");
    Decimal.ParseFormat("\n", n);
  }

  /** Between the index offset and the scan's stop lies the index text. */
  lemma {:induction false} IndexTextOf(body: string, e: string, d: string)
    ensures IndexText(body + (e + "\n" + d), |body|, |body| + |e|) == e
  {
    var f := body + (e + "\n" + d);
    assert f[|body|..|body| + |e|] == e;
  }

  /** Cutting at the index offset leaves what came before the footer. */
  lemma {:induction false} TruncateFooter(body: string, tail: string)
    ensures TruncateAt(body + tail, |body|) == body
  {
    assert (body + tail)[..|body|] == body;
  }

  /** The footer's layout read back, for any one-line text `e` in place of the index text. */
  lemma {:induction false} FooterFound(body: string, e: string)
    requires |e| >= 2
    ensures PointerPos(body + (e + "\n" + Decimal.Format(|body|))) == |body| + |e|
    ensures ReadPointer(body + (e + "\n" + Decimal.Format(|body|)), |body| + |e|) == Some(|body|)
    ensures IndexText(body + (e + "\n" + Decimal.Format(|body|)), |body|, |body| + |e|) == e
    ensures TruncateAt(body + (e + "\n" + Decimal.Format(|body|)), |body|) == body
  {
    var d := Decimal.Format(|body|);
    ScanFindsFooter(body, e, d);
    PointerLineOf(body, e, |body|);
    IndexTextOf(body, e, d);
    TruncateFooter(body, e + "\n" + d);
  }

  /**
    Reading a footer back: after any text `body`, the footer for `idx` written
    at `|body|` is found by the scan, its pointer reads as `|body|`, and the
    text between the two is exactly the index text.
   */
  lemma {:induction false} FooterRoundTrip(body: string, idx: Index)
    ensures PointerPos(body + FooterText(idx, |body|)) == |body| + |EncodeIndex(idx)|
    ensures ReadPointer(body + FooterText(idx, |body|), |body| + |EncodeIndex(idx)|) == Some(|body|)
    ensures IndexText(body + FooterText(idx, |body|), |body|, |body| + |EncodeIndex(idx)|) == EncodeIndex(idx)
  {
    EncodeIndexSize(idx);
    FooterFound(body, EncodeIndex(idx));
  }
}
