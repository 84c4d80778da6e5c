/**
  The store: an append-only log of one-line records in a single file, with
  the index footer at its end. A `Db` is the state one `Jsondb` object keeps:
  the file's characters, the handle's position, the cached index and whether
  the handle is open. Each operation is a function from the state before the
  call to the state after it and what the call returned or raised.
 */
module Jsondb {
  import opened Wrappers
  import opened Dict
  import opened Json
  import opened TextFile
  import opened Format
  import opened Footer
  import Decimal

  datatype Db = Db(file: string, cursor: nat, index: Index, isOpen: bool)

  datatype Error =
    | ClosedDatabase
    | RecordDecodeError(offset: int)
    | NegativeSeek(offset: int)

  /** The store after a call, and what the call returned or raised. */
  datatype Reply<T> = Reply(db: Db, result: Result<T, Error>)

  // ---------------------------------------------------------------- the handle

  /** `Jsondb(path)`: the file as it is (created empty if missing), no cached index, open at offset 0. */
  function Connect(file: string): (db: Db)
    ensures db.isOpen && db.file == file && db.index == [] && db.cursor == 0
  {
    Db(file, 0, [], true)
  }

  /** `open()`: a closed handle is reopened at offset 0; an open one is left alone. */
  function Open(db: Db): (r: Db)
    ensures r.isOpen && r.file == db.file && r.index == db.index
    ensures db.isOpen ==> r == db
    ensures !db.isOpen ==> r.cursor == 0
  {
    if db.isOpen then db else db.(isOpen := true, cursor := 0)
  }

  /** `close()`: the cached index is dropped and the handle closed; the file is kept. */
  function Close(db: Db): (r: Db)
    ensures !r.isOpen && r.index == [] && r.file == db.file
  {
    db.(index := [], isOpen := false)
  }

  // ---------------------------------------------------------------- loading the index

  /**
    `_load_index(truncate, force)`. The scan finds the pointer line; an empty
    file ends the call there, leaving the handle at the end of the file. The
    pointer is parsed; the index is read from the text between the offset it
    gives and the pointer line, unless one is cached and `force` is off; with
    `truncate` the file is cut at that offset. A pointer or index that does
    not parse ends the attempt without a change. The handle goes back to where
    it was.
   */
  function LoadIndex(db: Db, truncate: bool, force: bool): (r: Db)
    requires db.isOpen
    ensures r.isOpen
    ensures |db.file| == 0 ==> r == db.(cursor := 0)
    ensures |db.file| > 0 ==> r.cursor == db.cursor
    ensures PointerPos(db.file) == 0 || ReadPointer(db.file, PointerPos(db.file)).None? ==>
      r.file == db.file && r.index == db.index
    ensures r.index != db.index ==>
      (db.index == [] || force) &&
      var p := PointerPos(db.file);
      p > 0 && ReadPointer(db.file, p).Some? &&
      DecodeIndex(IndexText(db.file, ReadPointer(db.file, p).value, p)) == Some(r.index)
    ensures r.file != db.file ==>
      truncate && PointerPos(db.file) > 0 && ReadPointer(db.file, PointerPos(db.file)).Some? &&
      ((db.index != [] && !force) ||
       DecodeIndex(IndexText(db.file, ReadPointer(db.file, PointerPos(db.file)).value, PointerPos(db.file))).Some?) &&
      r.file == TruncateAt(db.file, ReadPointer(db.file, PointerPos(db.file)).value)
    ensures
      (&& truncate
       && PointerPos(db.file) > 0
       && ReadPointer(db.file, PointerPos(db.file)).Some?
       && ((db.index != [] && !force) ||
           DecodeIndex(IndexText(db.file, ReadPointer(db.file, PointerPos(db.file)).value, PointerPos(db.file))).Some?))
      ==> r.file == TruncateAt(db.file, ReadPointer(db.file, PointerPos(db.file)).value)
    ensures db.index != [] && !force ==> r.index == db.index
    ensures
      var p := PointerPos(db.file);
      (&& (db.index == [] || force)
       && p > 0
       && ReadPointer(db.file, p).Some?
       && DecodeIndex(IndexText(db.file, ReadPointer(db.file, p).value, p)).Some?)
      ==> r.index == DecodeIndex(IndexText(db.file, ReadPointer(db.file, p).value, p)).value
  {
    var p := PointerPos(db.file);
    if p < 1 then db.(cursor := |db.file|)
    else
      match ReadPointer(db.file, p)
      case None => db
      case Some(indexPos) =>
        var file := if truncate then TruncateAt(db.file, indexPos) else db.file;
        if db.index == [] || force then
          match DecodeIndex(IndexText(db.file, indexPos, p))
          case None => db
          case Some(idx) => db.(index := idx, file := file)
        else db.(file := file)
  }

  // ---------------------------------------------------------------- adding

  /**
    The items as the loop of `add` writes them: each key with its record
    line. `json.dumps` is a pure function of the item, so encoding each item
    before the loop is the same as encoding it inside; as a dict of lines the
    entries keep the items' keys in their order.
   */
  function Entries(items: Dict<Value>): (es: Dict<string>)
    ensures |es| == |items|
    ensures forall i | 0 <= i < |items| :: es[i] == (items[i].0, RecordLine(items[i].0, items[i].1))
  {
    seq(|items|, i requires 0 <= i < |items| => (items[i].0, RecordLine(items[i].0, items[i].1)))
  }

  /**
    The loop of `add`, which does two things for each entry in order: it
    appends the handle's offset to the key's offset list, then writes the
    line there, which moves the handle to the end of that line. The two are
    independent of each other: this is the writing, and `Offsets` gives the
    offsets the index gets.
   */
  function WriteRecords(f: string, pos: nat, es: Dict<string>): string
    decreases |es|
  {
    if |es| == 0 then f
    else WriteRecords(WriteAt(f, pos, es[0].1), pos + |es[0].1|, es[1..])
  }

  /** The lines one after the other. */
  function Joined(es: Dict<string>): string
    decreases |es|
  {
    if |es| == 0 then "" else es[0].1 + Joined(es[1..])
  }

  /** Where the `i`-th line starts, counted from the first one: the lengths of the lines before it. */
  function Offset(es: Dict<string>, i: nat): nat
    requires i <= |es|
    decreases i
  {
    if i == 0 then 0 else |es[0].1| + Offset(es[1..], i - 1)
  }

  /**
    The offsets `tell()` reports in the loop of `add` when it starts at
    `pos`: each key with the offset its line is written at.
   */
  function Offsets(pos: nat, es: Dict<string>): (ps: Dict<int>)
    ensures |ps| == |es|
    ensures forall i | 0 <= i < |es| :: ps[i] == (es[i].0, pos + Offset(es, i))
    decreases |es|
  {
    if |es| == 0 then []
    else [(es[0].0, pos)] + Offsets(pos + |es[0].1|, es[1..])
  }

  /**
    The rest of `add` once the handle is at `start`: the records, then the
    index line and the pointer line (`str(index_pos)`, no line break).
   */
  function WriteFrom(db: Db, start: nat, items: Dict<Value>): Db {
    var es := Entries(items);
    var file := WriteRecords(db.file, start, es);
    var index := Appended(db.index, Offsets(start, es));
    var indexPos := start + |Joined(es)|;
    var indexLine := EncodeIndex(index) + "\n";
    var pointer := Decimal.Format(indexPos);
    var f := WriteAt(WriteAt(file, indexPos, indexLine), indexPos + |indexLine|, pointer);
    Db(f, indexPos + |indexLine| + |pointer|, index, db.isOpen)
  }

  /** Where `add` puts the handle before writing: one character back from the end, or 0. */
  function StepBack(f: string): (pos: nat)
    ensures pos <= |f| <= pos + 1
    ensures |f| > 0 ==> pos == |f| - 1
  {
    if |f| > 0 then |f| - 1 else 0
  }

  /**
    `add(new_items)` as written: the footer is cut off with the index loaded,
    the handle steps back one character from the end, and the records and a
    new footer are written from there.
   */
  function Add(db: Db, items: Dict<Value>): (r: Reply<()>)
    ensures !db.isOpen ==> r == Reply(db, Err(ClosedDatabase))
    ensures db.isOpen ==> r.result == Ok(()) && r.db.isOpen
  {
    if !db.isOpen then Reply(db, Err(ClosedDatabase))
    else
      var loaded := LoadIndex(db, true, false);
      Reply(WriteFrom(loaded, StepBack(loaded.file), items), Ok(()))
  }

  /**
    `add(new_items)` writing the records at the end of the file, after the
    line break that ends the last record, rather than over it.
   */
  function AddAtEnd(db: Db, items: Dict<Value>): (r: Reply<()>)
    ensures !db.isOpen ==> r == Reply(db, Err(ClosedDatabase))
    ensures db.isOpen ==> r.result == Ok(()) && r.db.isOpen
  {
    if !db.isOpen then Reply(db, Err(ClosedDatabase))
    else
      var loaded := LoadIndex(db, true, false);
      Reply(WriteFrom(loaded, |loaded.file|, items), Ok(()))
  }

  // ---------------------------------------------------------------- reading

  /**
    `seek(o); json.loads(readline()).values()` for each offset in turn, from
    a handle at `cursor`: a negative offset makes `seek` raise and a line that
    does not decode makes `json.loads` raise, either of which ends the loop;
    with the handle's offset after the last line read.
   */
  function ReadRecords(f: string, cursor: nat, ps: seq<int>): (Result<seq<Value>, Error>, nat)
    requires |ps| > 0
    decreases |ps|
  {
    if ps[0] < 0 then (Err(NegativeSeek(ps[0])), cursor)
    else
      var line := ReadLine(f, ps[0]);
      var after := ps[0] + |line|;
      match RecordValues(line)
      case None => (Err(RecordDecodeError(ps[0])), after)
      case Some(vs) =>
        if |ps| == 1 then (Ok(vs), after)
        else
          var rest := ReadRecords(f, after, ps[1..]);
          match rest.0
          case Ok(ws) => (Ok(vs + ws), rest.1)
          case Err(e) => (Err(e), rest.1)
  }

  /**
    The loop of `get_many` from the `i`-th key on: a key whose offset list is
    missing or empty is skipped; any other gets the values of its records.
   */
  function Collect(db: Db, keys: seq<string>, res: Dict<seq<Value>>): (r: Reply<Dict<seq<Value>>>)
    ensures r.db == db.(cursor := r.db.cursor)
    decreases |keys|
  {
    if |keys| == 0 then Reply(db, Ok(res))
    else
      var ps := GetOr(db.index, keys[0], []);
      if |ps| == 0 then Collect(db, keys[1..], res)
      else
        var read := ReadRecords(db.file, db.cursor, ps);
        match read.0
        case Err(e) => Reply(db.(cursor := read.1), Err(e))
        case Ok(vs) => Collect(db.(cursor := read.1), keys[1..], Update(res, keys[0], vs))
  }

  /** `get_many(keys)`. */
  function GetMany(db: Db, keys: seq<string>): (r: Reply<Dict<seq<Value>>>)
    ensures !db.isOpen ==> r == Reply(db, Err(ClosedDatabase))
    ensures db.isOpen ==> r.db.isOpen && r.db.file == db.file
    ensures db.isOpen && db.index != [] ==> r.db.index == db.index
  {
    if !db.isOpen then Reply(db, Err(ClosedDatabase))
    else Collect(LoadIndex(db, false, false), keys, [])
  }

  /** `get(key)`: the values found for `key`, none when it has no records. */
  function Get(db: Db, key: string): (r: Reply<seq<Value>>)
    ensures !db.isOpen ==> r == Reply(db, Err(ClosedDatabase))
    ensures db.isOpen ==> r.db.isOpen && r.db.file == db.file
    ensures db.isOpen && db.index != [] ==> r.db.index == db.index
  {
    if !db.isOpen then Reply(db, Err(ClosedDatabase))
    else
      var many := GetMany(db, [key]);
      match many.result
      case Ok(res) => Reply(many.db, Ok(GetOr(res, key, [])))
      case Err(e) => Reply(many.db, Err(e))
  }
}
