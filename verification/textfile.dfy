/**
  The database file as a sequence of characters, one character per offset,
  and the calls the store makes on its handle: `seek` followed by `read`,
  `readline`, `write` or `truncate`. Offsets past the end are allowed, as
  they are on a real file: reading there gives nothing, and writing or
  truncating there first fills the gap with NUL characters.
 */
module TextFile {
  import opened Text

  /** `n` NUL characters: what a file reads as where it was extended without being written. */
  function Gap(n: nat): (r: string)
    ensures |r| == n
    ensures forall i | 0 <= i < n :: r[i] == 0 as char
  {
    seq(n, i => 0 as char)
  }

  /** `seek(pos); read(size)`: up to `size` characters, or everything to the end when `size` is negative. */
  function ReadAt(f: string, pos: nat, size: int): (r: string)
    ensures pos <= |f| ==> pos + |r| <= |f| && r == f[pos..pos + |r|]
    ensures pos >= |f| ==> r == ""
    ensures 0 <= size && pos + size <= |f| ==> |r| == size
    ensures (size < 0 || pos + size > |f|) && pos <= |f| ==> pos + |r| == |f|
  {
    if pos >= |f| then ""
    else if size < 0 || pos + size > |f| then f[pos..]
    else f[pos..pos + size]
  }

  /**
    The end of the line that starts at `p`: just after its line break, or
    the end of the file when the line has none.
   */
  function LineEnd(f: string, p: nat): (q: nat)
    requires p <= |f|
    ensures p <= q <= |f|
    ensures q == |f| || (p < q && f[q - 1] == '\n')
    ensures forall i | p <= i < q - 1 :: f[i] != '\n'
    decreases |f| - p
  {
    if p == |f| then p
    else if f[p] == '\n' then p + 1
    else LineEnd(f, p + 1)
  }

  /** `seek(pos); readline()`: the rest of the line, its line break included. */
  function ReadLine(f: string, pos: nat): (r: string)
    ensures pos <= |f| ==> pos + |r| <= |f| && r == f[pos..pos + |r|]
    ensures pos >= |f| ==> r == ""
    ensures forall i | 0 <= i < |r| - 1 :: r[i] != '\n'
    ensures pos < |f| ==> |r| > 0 && (pos + |r| == |f| || r[|r| - 1] == '\n')
  {
    if pos >= |f| then "" else f[pos..LineEnd(f, pos)]
  }

  /** Reading from where a line of text followed by a line break was written gives back that line. */
  lemma {:induction false} ReadLineOf(f: string, p: nat, line: string)
    requires IsAt(f, p, line + "\n")
    requires '\n' !in line
    ensures ReadLine(f, p) == line + "\n"
  {
    IsAtSlice(f, p, line + "\n");
    var n := p + |line|;
    assert f[n] == (line + "\n")[|line|];
    forall i | p <= i < n ensures f[i] != '\n' {
      assert f[i] == line[i - p];
    }
  }

  /**
    `seek(pos); write(text)`: `text` replaces what was at `pos` and after it,
    extending the file when it runs past the end.
   */
  function WriteAt(f: string, pos: nat, text: string): (r: string)
    ensures |r| == if pos + |text| <= |f| then |f| else pos + |text|
    ensures IsAt(r, pos, text)
    ensures forall i | 0 <= i < pos && i < |f| :: r[i] == f[i]
    ensures forall i | pos + |text| <= i < |f| :: r[i] == f[i]
    ensures forall i | |f| <= i < pos :: r[i] == 0 as char
  {
    var pre := if pos <= |f| then f[..pos] else f + Gap(pos - |f|);
    var r := pre + text + (if pos + |text| < |f| then f[pos + |text|..] else "");
    IsAtWritten(pre, text, if pos + |text| < |f| then f[pos + |text|..] else "");
    r
  }

  /** Writing at the end appends. */
  lemma {:induction false} WriteAtEnd(f: string, text: string)
    ensures WriteAt(f, |f|, text) == f + text
  {
    assert f[..|f|] == f;
  }

  /** Writing from the last character on drops that character. */
  lemma {:induction false} WriteOverLast(f: string, text: string)
    requires |f| > 0 && |text| > 0
    ensures WriteAt(f, |f| - 1, text) == f[..|f| - 1] + text
  {
  }

  /** `seek(n); truncate()`: the file is cut to `n` characters, or grown to `n` with NULs. */
  function TruncateAt(f: string, n: nat): (r: string)
    ensures |r| == n
    ensures forall i | 0 <= i < n && i < |f| :: r[i] == f[i]
    ensures forall i | |f| <= i < n :: r[i] == 0 as char
  {
    if n <= |f| then f[..n] else f + Gap(n - |f|)
  }
}
