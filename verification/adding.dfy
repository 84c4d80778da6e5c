/**
  What one call of `add` does to the index and to the file, for both the
  code as written (`Jsondb.Add`) and the corrected `Jsondb.AddAtEnd`: they
  differ only in where the first record goes.
 */
module Appending {
  import opened Wrappers
  import opened Dict
  import opened Json
  import opened Text
  import opened TextFile
  import opened Format
  import opened Footer
  import opened Jsondb

  // ---------------------------------------------------------------- the file

  /** Lines written at the end of a file are appended to it, one after the other. */
  lemma {:induction false} AppendRecords(f: string, es: Dict<string>)
    ensures WriteRecords(f, |f|, es) == f + Joined(es)
    decreases |es|
  {
    if |es| == 0 {
      assert f + "" == f;
    } else {
      var line := es[0].1;
      WriteAtEnd(f, line);
      AppendRecords(f + line, es[1..]);
      assert f + line + Joined(es[1..]) == f + Joined(es);
    }
  }

  /**
    Non-empty lines written from `pos`, one character back from the end or at
    the end, replace whatever was at `pos`.
   */
  lemma {:induction false} WriteRecordsLayout(f: string, pos: nat, es: Dict<string>)
    requires pos <= |f| <= pos + 1
    requires |es| > 0 && |es[0].1| > 0
    ensures WriteRecords(f, pos, es) == f[..pos] + Joined(es)
  {
    var line := es[0].1;
    var f1 := WriteAt(f, pos, line);
    assert f1 == f[..pos] + line by {
      if pos == |f| {
        WriteAtEnd(f, line);
        assert f[..pos] == f;
      } else {
        WriteOverLast(f, line);
      }
    }
    AppendRecords(f1, es[1..]);
    assert f1 + Joined(es[1..]) == f[..pos] + Joined(es);
  }

  /** The text `add` leaves in front of the new footer: the kept prefix, then the records. */
  function Body(f: string, start: nat, items: Dict<Value>): string
    requires start <= |f|
  {
    f[..start] + Joined(Entries(items))
  }

  /** Writing the index line after the records puts it right after them. */
  lemma {:induction false} IndexLineAfterRecords(f: string, start: nat, es: Dict<string>, indexLine: string)
    requires start <= |f| <= start + 1
    requires |indexLine| > 0
    requires |es| > 0 ==> |es[0].1| > 0
    ensures WriteAt(WriteRecords(f, start, es), start + |Joined(es)|, indexLine) == f[..start] + Joined(es) + indexLine
  {
    if |es| == 0 {
      if start == |f| {
        WriteAtEnd(f, indexLine);
        assert f[..start] == f;
      } else {
        WriteOverLast(f, indexLine);
      }
    } else {
      WriteRecordsLayout(f, start, es);
      WriteAtEnd(f[..start] + Joined(es), indexLine);
    }
  }

  /**
    The file after the rest of `add`: the file up to `start`, the record
    lines, the index line and the pointer to that index line; the handle is
    at the end.
   */
  lemma {:induction false} WriteFromLayout(db: Db, start: nat, items: Dict<Value>)
    requires start <= |db.file| <= start + 1
    ensures var r := WriteFrom(db, start, items);
      && r.file == Body(db.file, start, items) + FooterText(r.index, |Body(db.file, start, items)|)
      && r.cursor == |r.file|
  {
    var es := Entries(items);
    var body := Body(db.file, start, items);
    var index := Appended(db.index, Offsets(start, es));
    var indexLine := EncodeIndex(index) + "\n";
    var pointer := Decimal.Format(|body|);
    if |es| > 0 {
      assert |RecordLine(items[0].0, items[0].1)| > 0;
    }
    IndexLineAfterRecords(db.file, start, es, indexLine);
    WriteAtEnd(body + indexLine, pointer);
    assert body + indexLine + pointer == body + FooterText(index, |body|);
  }

  // ---------------------------------------------------------------- one call of add

  /**
    `add` as written: with the footer cut off and the handle one character
    back from the end, the file becomes that prefix, the record lines and a
    footer pointing just past them; the handle is at the end and the index
    gets the offsets of the lines appended.
   */
  lemma {:induction false} AddLayout(db: Db, items: Dict<Value>)
    requires db.isOpen
    ensures var loaded := LoadIndex(db, true, false);
      var start := StepBack(loaded.file);
      var r := Add(db, items).db;
      && r.file == Body(loaded.file, start, items) + FooterText(r.index, |Body(loaded.file, start, items)|)
      && r.cursor == |r.file|
      && r.index == Appended(loaded.index, Offsets(start, Entries(items)))
  {
    var loaded := LoadIndex(db, true, false);
    WriteFromLayout(loaded, StepBack(loaded.file), items);
  }

  /**
    The corrected `add`: the file becomes the file without its footer, the
    record lines and a footer pointing just past them.
   */
  lemma {:induction false} AddAtEndLayout(db: Db, items: Dict<Value>)
    requires db.isOpen
    ensures var loaded := LoadIndex(db, true, false);
      var r := AddAtEnd(db, items).db;
      && r.file == loaded.file + Joined(Entries(items)) + FooterText(r.index, |loaded.file + Joined(Entries(items))|)
      && r.cursor == |r.file|
      && r.index == Appended(loaded.index, Offsets(|loaded.file|, Entries(items)))
  {
    var loaded := LoadIndex(db, true, false);
    WriteFromLayout(loaded, |loaded.file|, items);
    assert loaded.file[..|loaded.file|] == loaded.file;
  }

  /**
    The `i`-th entry's key, when no other entry carries it, gets the offset
    of its line appended to the offsets it already had.
   */
  lemma {:induction false} AddedOffsetAt(idx: Index, start: nat, es: Dict<string>, i: nat)
    requires i < |es|
    requires forall j | 0 <= j < |es| && j != i :: es[j].0 != es[i].0
    ensures Lookup(Appended(idx, Offsets(start, es)), es[i].0) == Some(GetOr(idx, es[i].0, []) + [start + Offset(es, i)])
  {
    var ps := Offsets(start, es);
    assert ps[i] == (es[i].0, start + Offset(es, i));
    forall j | 0 <= j < |ps| && j != i ensures ps[j].0 != ps[i].0 {
      assert ps[j].0 == es[j].0;
    }
    AppendedAt(idx, ps, i);
  }

  /** A key no entry carries keeps its offsets. */
  lemma {:induction false} AddedOffsetOther(idx: Index, start: nat, es: Dict<string>, k: string)
    requires !HasKey(es, k)
    ensures Lookup(Appended(idx, Offsets(start, es)), k) == Lookup(idx, k)
  {
    var ps := Offsets(start, es);
    HasKeyIff(es, k);
    HasKeyIff(ps, k);
    AppendedOther(idx, ps, k);
  }

  /**
    What the loop of `add` does to the index: each entry's key gets the
    offset of its line appended to the offsets it already had, where the
    lines are written one after the other from `start`; every other key keeps
    its offsets.
   */
  lemma {:induction false} AddedOffsets(idx: Index, start: nat, es: Dict<string>)
    requires DistinctKeys(es)
    ensures forall i | 0 <= i < |es| ::
      Lookup(Appended(idx, Offsets(start, es)), es[i].0) == Some(GetOr(idx, es[i].0, []) + [start + Offset(es, i)])
    ensures forall k | !HasKey(es, k) :: Lookup(Appended(idx, Offsets(start, es)), k) == Lookup(idx, k)
  {
    forall i | 0 <= i < |es|
      ensures Lookup(Appended(idx, Offsets(start, es)), es[i].0) == Some(GetOr(idx, es[i].0, []) + [start + Offset(es, i)])
    {
      AddedOffsetAt(idx, start, es, i);
    }
    forall k | !HasKey(es, k) ensures Lookup(Appended(idx, Offsets(start, es)), k) == Lookup(idx, k) {
      AddedOffsetOther(idx, start, es, k);
    }
  }

  /** The entries of a dict keep its keys, so they are distinct too. */
  lemma {:induction false} EntriesKeys(items: Dict<Value>)
    ensures forall k :: HasKey(Entries(items), k) <==> HasKey(items, k)
    ensures DistinctKeys(items) ==> DistinctKeys(Entries(items))
  {
    var es := Entries(items);
    forall k ensures HasKey(es, k) <==> HasKey(items, k) {
      HasKeyIff(es, k);
      HasKeyIff(items, k);
    }
  }

  /** Adding keeps each key of the index once. */
  lemma {:induction false} AddedDistinct(idx: Index, start: nat, items: Dict<Value>)
    requires DistinctKeys(idx)
    ensures DistinctKeys(Appended(idx, Offsets(start, Entries(items))))
  {
    AppendedDistinct(idx, Offsets(start, Entries(items)));
  }
}
