/**
  What the store promises its users: once records are added, `get` returns
  them. The promise is stated through a representation invariant, relating a
  store to its content, the values stored under each key in the order they
  were added: the file is a body of record lines with a footer pointing at
  an index of their offsets, and each offset holds the record line of the
  value at the same place in the content.
 */
module Readback {
  import opened Wrappers
  import opened Dict
  import opened Json
  import opened Text
  import opened TextFile
  import opened Format
  import opened Footer
  import opened Jsondb
  import opened Appending

  /** What the store holds: the values stored under each key, oldest first. */
  type Content = Dict<seq<Value>>

  // ---------------------------------------------------------------- reloading

  /** What the reload reads from a file ending in a footer: the pointer, the index, the cut. */
  lemma {:induction false} FooterReads(f: string, body: string, idx: Index)
    requires f == body + FooterText(idx, |body|)
    requires DistinctKeys(idx)
    ensures PointerPos(f) == |body| + |EncodeIndex(idx)| > 0
    ensures ReadPointer(f, PointerPos(f)) == Some(|body|)
    ensures DecodeIndex(IndexText(f, |body|, PointerPos(f))) == Some(idx)
    ensures TruncateAt(f, |body|) == body
  {
    var e := EncodeIndex(idx);
    EncodeIndexSize(idx);
    FooterFound(body, e);
    IndexRoundTrip(idx);
  }

  /**
    Loading the index of a file that ends in a footer: the index read is the
    one the footer holds, or the cached one when it is the same, and with
    `truncate` the file is cut back to the body in front of the footer.
   */
  lemma {:induction false} LoadFooter(db: Db, body: string, idx: Index, truncate: bool, force: bool)
    requires db.isOpen
    requires db.file == body + FooterText(idx, |body|)
    requires DistinctKeys(idx)
    requires db.index == [] || db.index == idx
    ensures LoadIndex(db, truncate, force).index == idx
    ensures LoadIndex(db, truncate, force).file == if truncate then body else db.file
    ensures LoadIndex(db, truncate, force).cursor == db.cursor
  {
    FooterReads(db.file, body, idx);
  }

  /** The index a load leaves has each key once, when the cached one had. */
  lemma {:induction false} LoadedDistinct(db: Db, truncate: bool, force: bool)
    requires db.isOpen
    requires DistinctKeys(db.index)
    ensures DistinctKeys(LoadIndex(db, truncate, force).index)
  {
    var p := PointerPos(db.file);
    if LoadIndex(db, truncate, force).index != db.index {
      DecodeIndexDistinct(IndexText(db.file, ReadPointer(db.file, p).value, p));
    }
  }

  /**
    Right after `add` as written, loading the footer gives back the index the
    store holds in memory, whether or not it is forced to read it, and with
    `truncate` leaves the file as it was before the footer was written.
   */
  lemma {:induction false} AddFooterReloads(db: Db, items: Dict<Value>, truncate: bool, force: bool)
    requires db.isOpen
    requires DistinctKeys(db.index)
    ensures
      var loaded := LoadIndex(db, true, false);
      var body := Body(loaded.file, StepBack(loaded.file), items);
      var r := Add(db, items).db;
      && LoadIndex(r, truncate, force).index == r.index
      && LoadIndex(r, truncate, force).file == if truncate then body else r.file
  {
    var loaded := LoadIndex(db, true, false);
    var start := StepBack(loaded.file);
    var r := Add(db, items).db;
    LoadedDistinct(db, true, false);
    AddLayout(db, items);
    AddedDistinct(loaded.index, start, items);
    LoadFooter(r, Body(loaded.file, start, items), r.index, truncate, force);
  }

  /** The same round trip of the footer, after the corrected `add`. */
  lemma {:induction false} AddAtEndFooterReloads(db: Db, items: Dict<Value>, truncate: bool, force: bool)
    requires db.isOpen
    requires DistinctKeys(db.index)
    ensures
      var loaded := LoadIndex(db, true, false);
      var body := loaded.file + Joined(Entries(items));
      var r := AddAtEnd(db, items).db;
      && LoadIndex(r, truncate, force).index == r.index
      && LoadIndex(r, truncate, force).file == if truncate then body else r.file
  {
    var loaded := LoadIndex(db, true, false);
    var r := AddAtEnd(db, items).db;
    LoadedDistinct(db, true, false);
    AddAtEndLayout(db, items);
    AddedDistinct(loaded.index, |loaded.file|, items);
    LoadFooter(r, loaded.file + Joined(Entries(items)), r.index, truncate, force);
  }

  // ---------------------------------------------------------------- records in place

  /** A record line in place reads back, by `readline` and `json.loads`, as its one value. */
  lemma {:induction false} LineReads(f: string, p: nat, k: string, v: Value)
    requires IsAt(f, p, RecordLine(k, v))
    requires UniqueKeys(v)
    ensures RecordValues(ReadLine(f, p)) == Some([v])
  {
    RecordOneLine(k, v);
    ReadLineOf(f, p, RecordText(k, v));
    RecordRoundTrip(k, v);
  }

  /** Each offset in `ps` holds the record line of the value at the same place in `vs`. */
  predicate Stored(f: string, k: string, ps: seq<int>, vs: seq<Value>) {
    && |ps| == |vs|
    && forall j | 0 <= j < |ps| :: ps[j] >= 0 && IsAt(f, ps[j], RecordLine(k, vs[j])) && UniqueKeys(vs[j])
  }

  /**
    Reading the records at the offsets of `ps`, from wherever the handle is,
    gives the values of `vs` in order.
   */
  lemma {:induction false} ReadRecordsStored(f: string, cursor: nat, k: string, ps: seq<int>, vs: seq<Value>)
    requires |ps| > 0
    requires Stored(f, k, ps, vs)
    ensures ReadRecords(f, cursor, ps).0 == Ok(vs)
    decreases |ps|
  {
    LineReads(f, ps[0], k, vs[0]);
    var after := ps[0] + |ReadLine(f, ps[0])|;
    if |ps| > 1 {
      assert Stored(f, k, ps[1..], vs[1..]) by {
        forall j | 0 <= j < |ps| - 1 ensures ps[1..][j] == ps[j + 1] && vs[1..][j] == vs[j + 1] {
        }
      }
      ReadRecordsStored(f, after, k, ps[1..], vs[1..]);
      assert [vs[0]] + vs[1..] == vs;
    } else {
      assert vs == [vs[0]];
    }
  }

  /** Records in place stay in place when text is appended. */
  lemma {:induction false} StoredExtend(f: string, post: string, k: string, ps: seq<int>, vs: seq<Value>)
    requires Stored(f, k, ps, vs)
    ensures Stored(f + post, k, ps, vs)
  {
    forall j | 0 <= j < |ps| ensures IsAt(f + post, ps[j], RecordLine(k, vs[j])) {
      IsAtExtend(f, ps[j], RecordLine(k, vs[j]), post);
    }
  }

  /** One more record in place extends both lists. */
  lemma {:induction false} StoredSnoc(f: string, k: string, ps: seq<int>, vs: seq<Value>, p: nat, v: Value)
    requires Stored(f, k, ps, vs)
    requires IsAt(f, p, RecordLine(k, v)) && UniqueKeys(v)
    ensures Stored(f, k, ps + [p], vs + [v])
  {
    var ps' := ps + [p];
    var vs' := vs + [v];
    forall j | 0 <= j < |ps'| ensures ps'[j] >= 0 && IsAt(f, ps'[j], RecordLine(k, vs'[j])) && UniqueKeys(vs'[j]) {
      if j < |ps| {
        assert ps'[j] == ps[j] && vs'[j] == vs[j];
      }
    }
  }

  /** Each line of a run of lines is found at its offset in the run. */
  lemma {:induction false} JoinedAt(es: Dict<string>, i: nat)
    requires i < |es|
    ensures IsAt(Joined(es), Offset(es, i), es[i].1)
    decreases i
  {
    if i == 0 {
      IsAtPrefix(es[0].1, Joined(es[1..]));
    } else {
      JoinedAt(es[1..], i - 1);
      assert es[1..][i - 1] == es[i];
      IsAtShift(es[0].1, Joined(es[1..]), Offset(es[1..], i - 1), es[i].1);
    }
  }

  // ---------------------------------------------------------------- the invariant

  /** Under every key, the offsets the index gives hold that key's values in order. */
  ghost predicate Holds(f: string, idx: Index, content: Content) {
    forall k :: Stored(f, k, GetOr(idx, k, []), GetOr(content, k, []))
  }

  /**
    `db` is laid out over `body` and `idx`: it is open; its file is empty, or
    is `body` followed by the footer of the index `idx`; and the cached index
    is none or that one.
   */
  predicate Laid(db: Db, body: string, idx: Index) {
    && db.isOpen
    && DistinctKeys(idx)
    && (db.index == [] || db.index == idx)
    && ((db.file == "" && body == "" && idx == []) || db.file == body + FooterText(idx, |body|))
  }

  /** `db` stores `content`: it is laid out over `body` and `idx`, and `idx` locates the content's values in `body`. */
  ghost predicate Represents(db: Db, body: string, idx: Index, content: Content) {
    Laid(db, body, idx) && Holds(body, idx, content)
  }

  /** A store over a missing or empty file stores nothing. */
  lemma {:induction false} ConnectRepresents()
    ensures Represents(Connect(""), "", [], [])
  {
    var noIndex: Index := [];
    var nothing: Content := [];
    forall k ensures Stored("", k, GetOr(noIndex, k, []), GetOr(nothing, k, [])) {
      assert !HasKey(noIndex, k) && !HasKey(nothing, k);
    }
  }

  /** What loading the index for a read or an add finds in a store laid out over `body` and `idx`. */
  lemma {:induction false} LoadLaid(db: Db, body: string, idx: Index, truncate: bool)
    requires Laid(db, body, idx)
    ensures LoadIndex(db, truncate, false).index == idx
    ensures LoadIndex(db, truncate, false).file == if truncate then body else db.file
  {
    if db.file != "" {
      LoadFooter(db, body, idx, truncate, false);
    }
  }

  /**
    `get(key)` on a store laid out over `body` and `idx`, where the offsets
    `idx` gives for `key` hold the values `vs` in `body`, returns `vs`.
   */
  lemma {:induction false} GetReadsKey(db: Db, body: string, idx: Index, key: string, vs: seq<Value>)
    requires Laid(db, body, idx)
    requires Stored(body, key, GetOr(idx, key, []), vs)
    ensures Get(db, key).result == Ok(vs)
  {
    var loaded := LoadIndex(db, false, false);
    LoadLaid(db, body, idx, false);
    var ps := GetOr(idx, key, []);
    if db.file != "" {
      StoredExtend(body, FooterText(idx, |body|), key, ps, vs);
    }
    assert Stored(loaded.file, key, ps, vs);
    var keys := [key];
    assert keys[1..] == [];
    if |ps| > 0 {
      ReadRecordsStored(loaded.file, loaded.cursor, key, ps, vs);
      var read := ReadRecords(loaded.file, loaded.cursor, ps);
      var res := Update([], key, vs);
      assert res == [(key, vs)];
      assert Lookup(res, key) == Some(vs);
      assert Collect(loaded, keys, []) == Collect(loaded.(cursor := read.1), [], res);
    } else {
      assert Collect(loaded, keys, []) == Collect(loaded, [], []);
    }
  }

  /** `get(key)` on a store that holds `content` returns the values stored under `key`, oldest first. */
  lemma {:induction false} GetReadsBack(db: Db, body: string, idx: Index, content: Content, key: string)
    requires Represents(db, body, idx, content)
    ensures Get(db, key).result == Ok(GetOr(content, key, []))
  {
    assert Stored(body, key, GetOr(idx, key, []), GetOr(content, key, []));
    GetReadsKey(db, body, idx, key, GetOr(content, key, []));
  }

  /** Appending text after the records of a store keeps them where the index says. */
  lemma {:induction false} HoldsExtend(f: string, post: string, idx: Index, content: Content)
    requires Holds(f, idx, content)
    ensures Holds(f + post, idx, content)
  {
    forall k ensures Stored(f + post, k, GetOr(idx, k, []), GetOr(content, k, [])) {
      StoredExtend(f, post, k, GetOr(idx, k, []), GetOr(content, k, []));
    }
  }

  /**
    The loop of `get_many` over `keys`, on a file whose records the cached
    index locates, succeeds; afterwards `k` maps to its stored values when it
    is one of `keys` with a non-empty offset list, and otherwise keeps what
    the accumulated result had.
   */
  lemma {:induction false} CollectKey(db: Db, content: Content, keys: seq<string>, res: Dict<seq<Value>>, k: string)
    requires Holds(db.file, db.index, content)
    ensures Collect(db, keys, res).result.Ok?
    ensures Lookup(Collect(db, keys, res).result.value, k) ==
      if k in keys && GetOr(db.index, k, []) != [] then Some(GetOr(content, k, [])) else Lookup(res, k)
    decreases |keys|
  {
    if |keys| > 0 {
      var k0 := keys[0];
      assert forall x :: x in keys <==> x == k0 || x in keys[1..];
      var ps := GetOr(db.index, k0, []);
      if |ps| == 0 {
        CollectKey(db, content, keys[1..], res, k);
      } else {
        var vs := GetOr(content, k0, []);
        assert Stored(db.file, k0, ps, vs);
        ReadRecordsStored(db.file, db.cursor, k0, ps, vs);
        var read := ReadRecords(db.file, db.cursor, ps);
        var res' := Update(res, k0, vs);
        assert Collect(db, keys, res) == Collect(db.(cursor := read.1), keys[1..], res');
        CollectKey(db.(cursor := read.1), content, keys[1..], res', k);
        if k == k0 {
          UpdateSame(res, k0, vs);
        } else {
          UpdateOther(res, k0, vs, k);
        }
      }
    }
  }

  /**
    `get_many(keys)` on a store that holds `content` succeeds, leaves out
    every key that is not asked for or has no values, and maps every other
    asked key to its values, oldest first.
   */
  lemma {:induction false} GetManyReadsBack(db: Db, body: string, idx: Index, content: Content, keys: seq<string>, k: string)
    requires Represents(db, body, idx, content)
    ensures GetMany(db, keys).result.Ok?
    ensures Lookup(GetMany(db, keys).result.value, k) ==
      if k in keys && GetOr(content, k, []) != [] then Some(GetOr(content, k, [])) else None
  {
    var loaded := LoadIndex(db, false, false);
    LoadLaid(db, body, idx, false);
    if db.file != "" {
      HoldsExtend(body, FooterText(idx, |body|), idx, content);
    }
    assert Holds(loaded.file, loaded.index, content);
    assert Stored(body, k, GetOr(idx, k, []), GetOr(content, k, []));
    var none: Dict<seq<Value>> := [];
    assert Lookup(none, k) == None;
    CollectKey(loaded, content, keys, none, k);
  }

  /** Reading does not disturb a store: after `get(key)` it stores the same content. */
  lemma {:induction false} GetKeepsRepresents(db: Db, body: string, idx: Index, content: Content, key: string)
    requires Represents(db, body, idx, content)
    ensures Represents(Get(db, key).db, body, idx, content)
  {
    LoadLaid(db, body, idx, false);
    GetManyKeepsRepresents(db, body, idx, content, [key]);
  }

  /** Reading does not disturb a store: after `get_many(keys)` it stores the same content. */
  lemma {:induction false} GetManyKeepsRepresents(db: Db, body: string, idx: Index, content: Content, keys: seq<string>)
    requires Represents(db, body, idx, content)
    ensures Represents(GetMany(db, keys).db, body, idx, content)
  {
    LoadLaid(db, body, idx, false);
    var loaded := LoadIndex(db, false, false);
    var r := Collect(loaded, keys, []);
    assert r.db.file == db.file && r.db.index == idx && r.db.isOpen;
  }

  /** Closing a store and opening it again keeps its content: the index is read again on the next call. */
  lemma {:induction false} CloseOpenRepresents(db: Db, body: string, idx: Index, content: Content)
    requires Represents(db, body, idx, content)
    ensures Represents(Open(Close(db)), body, idx, content)
  {
  }

  /**
    On any open store, `get(key)` returns `[]` when the index it loads has no
    offsets for `key`, whether the key is missing or its list is empty.
   */
  lemma {:induction false} GetAbsentKey(db: Db, key: string)
    requires db.isOpen
    ensures GetOr(LoadIndex(db, false, false).index, key, []) == [] ==> Get(db, key).result == Ok([])
  {
    var loaded := LoadIndex(db, false, false);
    if GetOr(loaded.index, key, []) == [] {
      var none: Dict<seq<Value>> := [];
      assert Collect(loaded, [key], none) == Collect(loaded, [], none);
      assert GetOr(none, key, []) == [];
    }
  }

  /**
    The loop of `get_many` leaves alone every key it is not asked for and
    every key whose offset list is missing or empty.
   */
  lemma {:induction false} CollectOmits(db: Db, keys: seq<string>, res: Dict<seq<Value>>, k: string)
    requires k !in keys || GetOr(db.index, k, []) == []
    ensures Collect(db, keys, res).result.Ok? ==> Lookup(Collect(db, keys, res).result.value, k) == Lookup(res, k)
    decreases |keys|
  {
    if |keys| > 0 {
      assert k !in keys[1..] || GetOr(db.index, k, []) == [];
      var ps := GetOr(db.index, keys[0], []);
      if |ps| == 0 {
        CollectOmits(db, keys[1..], res, k);
      } else {
        assert keys[0] != k;
        var read := ReadRecords(db.file, db.cursor, ps);
        if read.0.Ok? {
          var res' := Update(res, keys[0], read.0.value);
          UpdateOther(res, keys[0], read.0.value, k);
          CollectOmits(db.(cursor := read.1), keys[1..], res', k);
        }
      }
    }
  }

  /**
    On any open store, a successful `get_many(keys)` has no entry for a key
    not among `keys` or without offsets in the index it loads.
   */
  lemma {:induction false} GetManyOmits(db: Db, keys: seq<string>, k: string)
    requires db.isOpen
    requires k !in keys || GetOr(LoadIndex(db, false, false).index, k, []) == []
    ensures GetMany(db, keys).result.Ok? ==> !HasKey(GetMany(db, keys).result.value, k)
  {
    var none: Dict<seq<Value>> := [];
    CollectOmits(LoadIndex(db, false, false), keys, none, k);
    assert Lookup(none, k) == None;
  }

  // ---------------------------------------------------------------- adding

  /**
    The values of a dict given to `add`. They are Python values, so no object
    among them repeats a key: that is what lets `json.loads` give them back.
   */
  predicate Storable(items: Dict<Value>) {
    && DistinctKeys(items)
    && forall i | 0 <= i < |items| :: UniqueKeys(items[i].1)
  }

  /** In a batch with distinct keys, each item's value is appended to its key's values. */
  lemma {:induction false} AppendedStorable(content: Content, items: Dict<Value>, i: nat)
    requires Storable(items)
    requires i < |items|
    ensures GetOr(Appended(content, items), items[i].0, []) == GetOr(content, items[i].0, []) + [items[i].1]
  {
    forall j | 0 <= j < |items| && j != i ensures items[j].0 != items[i].0 {
      if j < i {
        assert items[j].0 != items[i].0;
      } else {
        assert items[i].0 != items[j].0;
      }
    }
    AppendedAt(content, items, i);
  }

  /** The `i`-th key of `items` gets its new value's line after its earlier ones. */
  lemma {:induction false} StoredAfterRecordsAt(body: string, idx: Index, content: Content, items: Dict<Value>, i: nat)
    requires i < |items|
    requires Stored(body, items[i].0, GetOr(idx, items[i].0, []), GetOr(content, items[i].0, []))
    requires Storable(items)
    ensures
      var es := Entries(items);
      Stored(body + Joined(es), items[i].0,
        GetOr(Appended(idx, Offsets(|body|, es)), items[i].0, []),
        GetOr(Appended(content, items), items[i].0, []))
  {
    var k := items[i].0;
    var es := Entries(items);
    var ps := GetOr(idx, k, []);
    var vs := GetOr(content, k, []);
    var f := body + Joined(es);
    NewRecordStored(body, k, ps, vs, items, i);
    EntriesKeys(items);
    RelabelOffsets(f, idx, es, i, |body|, vs + [items[i].1]);
    RelabelValues(f, content, items, i, GetOr(Appended(idx, Offsets(|body|, es)), k, []));
  }

  /** The `i`-th record line of `items`, after `body`, extends what `body` stores under its key. */
  lemma {:induction false} NewRecordStored(body: string, k: string, ps: seq<int>, vs: seq<Value>, items: Dict<Value>, i: nat)
    requires i < |items| && items[i].0 == k
    requires Stored(body, k, ps, vs)
    requires Storable(items)
    ensures
      var es := Entries(items);
      Stored(body + Joined(es), k, ps + [|body| + Offset(es, i)], vs + [items[i].1])
  {
    var es := Entries(items);
    var joined := Joined(es);
    assert IsAt(body + joined, |body| + Offset(es, i), RecordLine(k, items[i].1)) by {
      JoinedAt(es, i);
      IsAtShift(body, joined, Offset(es, i), es[i].1);
    }
    assert UniqueKeys(items[i].1);
    StoredExtend(body, joined, k, ps, vs);
    StoredSnoc(body + joined, k, ps, vs, |body| + Offset(es, i), items[i].1);
  }

  /** The extended offsets of the `i`-th key are the ones the updated index gives it. */
  lemma {:induction false} RelabelOffsets(f: string, idx: Index, es: Dict<string>, i: nat, start: nat, vs: seq<Value>)
    requires i < |es| && DistinctKeys(es)
    requires Stored(f, es[i].0, GetOr(idx, es[i].0, []) + [start + Offset(es, i)], vs)
    ensures Stored(f, es[i].0, GetOr(Appended(idx, Offsets(start, es)), es[i].0, []), vs)
  {
    var k := es[i].0;
    DistinctOffsetAt(idx, start, es, i);
    StoredSame(f, k, GetOr(idx, k, []) + [start + Offset(es, i)], vs, GetOr(Appended(idx, Offsets(start, es)), k, []), vs);
  }

  /** The extended values of the `i`-th key are the ones the updated content gives it. */
  lemma {:induction false} RelabelValues(f: string, content: Content, items: Dict<Value>, i: nat, ps: seq<int>)
    requires i < |items|
    requires Storable(items)
    requires Stored(f, items[i].0, ps, GetOr(content, items[i].0, []) + [items[i].1])
    ensures Stored(f, items[i].0, ps, GetOr(Appended(content, items), items[i].0, []))
  {
    var k := items[i].0;
    AppendedStorable(content, items, i);
    StoredSame(f, k, ps, GetOr(content, k, []) + [items[i].1], ps, GetOr(Appended(content, items), k, []));
  }

  lemma {:induction false} StoredSame(f: string, k: string, ps: seq<int>, vs: seq<Value>, ps': seq<int>, vs': seq<Value>)
    requires Stored(f, k, ps, vs)
    requires ps' == ps
    requires vs' == vs
    ensures Stored(f, k, ps', vs')
  {
  }

  /** With distinct keys, the `i`-th key gets the offset of its line appended. */
  lemma {:induction false} DistinctOffsetAt(idx: Index, start: nat, es: Dict<string>, i: nat)
    requires i < |es| && DistinctKeys(es)
    ensures GetOr(Appended(idx, Offsets(start, es)), es[i].0, []) == GetOr(idx, es[i].0, []) + [start + Offset(es, i)]
  {
    forall j | 0 <= j < |es| && j != i ensures es[j].0 != es[i].0 {
      if j < i {
        assert es[j].0 != es[i].0;
      } else {
        assert es[i].0 != es[j].0;
      }
    }
    AddedOffsetAt(idx, start, es, i);
  }

  /** A key not in `items` keeps its offsets and values, which stay in place. */
  lemma {:induction false} StoredAfterRecordsOther(body: string, idx: Index, content: Content, items: Dict<Value>, k: string)
    requires !HasKey(items, k)
    requires Stored(body, k, GetOr(idx, k, []), GetOr(content, k, []))
    ensures
      var es := Entries(items);
      Stored(body + Joined(es), k,
        GetOr(Appended(idx, Offsets(|body|, es)), k, []),
        GetOr(Appended(content, items), k, []))
  {
    var es := Entries(items);
    StoredExtend(body, Joined(es), k, GetOr(idx, k, []), GetOr(content, k, []));
    EntriesKeys(items);
    AddedOffsetOther(idx, |body|, es, k);
    AppendedOther(content, items, k);
  }

  /**
    After the record lines of `items` follow `body`, each key of `items` has
    its new value's line at the offset the index gets for it, after its
    earlier ones; any other key keeps its offsets and values.
   */
  lemma {:induction false} HoldsAfterRecords(body: string, idx: Index, content: Content, items: Dict<Value>)
    requires Holds(body, idx, content)
    requires Storable(items)
    ensures Holds(body + Joined(Entries(items)), Appended(idx, Offsets(|body|, Entries(items))), Appended(content, items))
  {
    var es := Entries(items);
    var body' := body + Joined(es);
    var idx' := Appended(idx, Offsets(|body|, es));
    var content' := Appended(content, items);
    forall k ensures Stored(body', k, GetOr(idx', k, []), GetOr(content', k, [])) {
      assert Stored(body, k, GetOr(idx, k, []), GetOr(content, k, []));
      HasKeyIff(items, k);
      if i :| 0 <= i < |items| && items[i].0 == k {
        StoredAfterRecordsAt(body, idx, content, items, i);
      } else {
        StoredAfterRecordsOther(body, idx, content, items, k);
      }
    }
  }

  /**
    The corrected `add` keeps a store's content: the new record lines follow
    the old body, the index gets their offsets, and each key's values get the
    new value appended.
   */
  lemma {:induction false} AddAtEndRepresents(db: Db, body: string, idx: Index, content: Content, items: Dict<Value>)
    requires Represents(db, body, idx, content)
    requires Storable(items)
    ensures
      var es := Entries(items);
      Represents(AddAtEnd(db, items).db, body + Joined(es), Appended(idx, Offsets(|body|, es)), Appended(content, items))
  {
    var es := Entries(items);
    var body' := body + Joined(es);
    var idx' := Appended(idx, Offsets(|body|, es));
    var content' := Appended(content, items);
    LoadLaid(db, body, idx, true);
    AddAtEndLayout(db, items);
    AddedDistinct(idx, |body|, items);
    HoldsAfterRecords(body, idx, content, items);
  }

  /**
    After the corrected `add`, `get` returns a key's earlier values followed
    by its value in `items`; a key not in `items` returns what it did before.
   */
  lemma {:induction false} GetAfterAddAtEnd(db: Db, body: string, idx: Index, content: Content, items: Dict<Value>, key: string)
    requires Represents(db, body, idx, content)
    requires Storable(items)
    ensures forall i | 0 <= i < |items| && items[i].0 == key ::
      Get(AddAtEnd(db, items).db, key).result == Ok(GetOr(content, key, []) + [items[i].1])
    ensures !HasKey(items, key) ==> Get(AddAtEnd(db, items).db, key).result == Get(db, key).result
  {
    var es := Entries(items);
    var content' := Appended(content, items);
    AddAtEndRepresents(db, body, idx, content, items);
    GetReadsBack(AddAtEnd(db, items).db, body + Joined(es), Appended(idx, Offsets(|body|, es)), content', key);
    GetReadsBack(db, body, idx, content, key);
    forall i | 0 <= i < |items| && items[i].0 == key
      ensures GetOr(content', key, []) == GetOr(content, key, []) + [items[i].1]
    {
      AppendedStorable(content, items, i);
    }
    if !HasKey(items, key) {
      AppendedOther(content, items, key);
    }
  }

  /**
    `add` as written, on a store that holds `content`, still reads back a
    key whose records all end before the last character of the records:
    its earlier values followed by its value in `items`, or what `get`
    returned before when `items` does not have it.
   */
  lemma {:induction false} AddKeepsEarlierRecords(db: Db, body: string, idx: Index, content: Content, items: Dict<Value>, key: string)
    requires Represents(db, body, idx, content)
    requires Storable(items)
    requires Stored(body[..StepBack(body)], key, GetOr(idx, key, []), GetOr(content, key, []))
    ensures forall i | 0 <= i < |items| && items[i].0 == key ::
      Get(Add(db, items).db, key).result == Ok(GetOr(content, key, []) + [items[i].1])
    ensures !HasKey(items, key) ==> Get(Add(db, items).db, key).result == Get(db, key).result
  {
    var start := StepBack(body);
    var kept := body[..start];
    var es := Entries(items);
    var body' := kept + Joined(es);
    var r := Add(db, items).db;
    LoadLaid(db, body, idx, true);
    AddLayout(db, items);
    assert Body(body, start, items) == body';
    AddedDistinct(idx, start, items);
    assert Laid(r, body', r.index);
    var idx' := Appended(idx, Offsets(|kept|, es));
    assert r.index == idx';
    var content' := Appended(content, items);
    GetReadsBack(db, body, idx, content, key);
    forall i | 0 <= i < |items| && items[i].0 == key
      ensures Get(r, key).result == Ok(GetOr(content, key, []) + [items[i].1])
    {
      StoredAfterRecordsAt(kept, idx, content, items, i);
      AppendedStorable(content, items, i);
      GetReadsKey(r, body', idx', key, GetOr(content', key, []));
    }
    if !HasKey(items, key) {
      StoredAfterRecordsOther(kept, idx, content, items, key);
      AppendedOther(content, items, key);
      GetReadsKey(r, body', idx', key, GetOr(content', key, []));
    }
  }

  /**
    On a store whose file holds no records, `add` as written and the
    corrected `add` agree: stepping back from the end of an empty file stays
    at offset 0.
   */
  lemma {:induction false} AddOnEmptyBody(db: Db, idx: Index, content: Content, items: Dict<Value>)
    requires Represents(db, "", idx, content)
    ensures Add(db, items) == AddAtEnd(db, items)
  {
    LoadLaid(db, "", idx, true);
  }

  // ---------------------------------------------------------------- two adds

  /** A record's text starts with the brace that opens its object. */
  lemma {:induction false} RecordStartsObject(k: string, v: Value)
    ensures |RecordLine(k, v)| > 0 && RecordLine(k, v)[0] == '{'
  {
  }

  /** The first `add` on an empty file, in either version: one record line at offset 0. */
  lemma {:induction false} FirstAdd(k0: string, v0: Value)
    requires UniqueKeys(v0)
    ensures
      var db1 := AddAtEnd(Connect(""), [(k0, v0)]).db;
      var idx1 := Appended([], Offsets(0, Entries([(k0, v0)])));
      && Add(Connect(""), [(k0, v0)]).db == db1
      && Represents(db1, RecordLine(k0, v0), idx1, Appended([], [(k0, v0)]))
      && GetOr(idx1, k0, []) == [0]
  {
    var items := [(k0, v0)];
    var es := Entries(items);
    var noIndex: Index := [];
    var nothing: Content := [];
    ConnectRepresents();
    AddOnEmptyBody(Connect(""), noIndex, nothing, items);
    assert Storable(items);
    AddAtEndRepresents(Connect(""), "", noIndex, nothing, items);
    assert es[1..] == [];
    assert Joined(es) == RecordLine(k0, v0);
    assert "" + Joined(es) == RecordLine(k0, v0);
    AddedOffsetAt(noIndex, 0, es, 0);
  }

  /** The one line of a single entry. */
  lemma {:induction false} JoinedOne(k: string, v: Value)
    ensures Joined(Entries([(k, v)])) == RecordLine(k, v)
  {
    var es := Entries([(k, v)]);
    assert es[1..] == [];
  }

  /**
    `add` as written, on a store whose body is the one record line of `k0`:
    the file becomes the first record's text, straight followed by the new
    record's line, then the footer.
   */
  lemma {:induction false} SecondAddLayout(db1: Db, idx1: Index, content1: Content, k0: string, v0: Value, k1: string, v1: Value)
    requires Represents(db1, RecordLine(k0, v0), idx1, content1)
    ensures
      var idx2 := Appended(idx1, Offsets(|RecordText(k0, v0)|, Entries([(k1, v1)])));
      var line := RecordText(k0, v0) + RecordText(k1, v1) + "\n";
      && Add(db1, [(k1, v1)]).db.file == line + FooterText(idx2, |line|)
      && Add(db1, [(k1, v1)]).db.index == idx2
  {
    var items1 := [(k1, v1)];
    var body1 := RecordLine(k0, v0);
    var start := |RecordText(k0, v0)|;
    var line := RecordText(k0, v0) + RecordText(k1, v1) + "\n";
    LoadLaid(db1, body1, idx1, true);
    AddLayout(db1, items1);
    assert Body(body1, start, items1) == line by {
      assert body1[..start] == RecordText(k0, v0);
      JoinedOne(k1, v1);
    }
  }

  /**
    A file that starts with two records on one line: the line read at 0
    holds both, and does not decode.
   */
  lemma {:induction false} JoinedLineFails(f: string, k0: string, v0: Value, k1: string, v1: Value, tail: string)
    requires f == RecordText(k0, v0) + RecordText(k1, v1) + "\n" + tail
    requires UniqueKeys(v0)
    ensures RecordValues(ReadLine(f, 0)) == None
  {
    var line := RecordText(k0, v0) + RecordText(k1, v1);
    RecordOneLine(k0, v0);
    RecordOneLine(k1, v1);
    IsAtPrefix(line + "\n", tail);
    ReadLineOf(f, 0, line);
    RecordStartsObject(k1, v1);
    assert line + "\n" == RecordText(k0, v0) + RecordLine(k1, v1);
    JoinedRecordsFail(k0, v0, RecordLine(k1, v1));
  }

  /** Appending offsets for `k1` leaves the first offset of `k0` first. */
  lemma {:induction false} FirstOffsetKept(idx: Index, start: nat, k0: string, k1: string, v1: Value)
    requires GetOr(idx, k0, []) == [0]
    ensures
      var ps := GetOr(Appended(idx, Offsets(start, Entries([(k1, v1)]))), k0, []);
      |ps| > 0 && ps[0] == 0
  {
    var es := Entries([(k1, v1)]);
    if k1 == k0 {
      AddedOffsetAt(idx, start, es, 0);
    } else {
      HasKeyIff(es, k0);
      AddedOffsetOther(idx, start, es, k0);
    }
  }

  /**
    With an index cached whose first offset for `key` is 0, `get(key)` reads
    the line at 0 first; when that line does not decode, the call raises.
   */
  lemma {:induction false} GetFirstLineFails(db: Db, key: string)
    requires db.isOpen && db.index != []
    requires |GetOr(db.index, key, [])| > 0 && GetOr(db.index, key, [])[0] == 0
    requires RecordValues(ReadLine(db.file, 0)) == None
    ensures Get(db, key).result == Err(RecordDecodeError(0))
  {
    var reading := LoadIndex(db, false, false);
    assert reading.file == db.file && reading.index == db.index;
    var keys := [key];
    assert keys[1..] == [];
  }

  /**
    `add` as written, on a store holding one record line at offset 0 for
    `k0`: the new record is written over that line's line break, so the
    line at 0 holds two records, which `get` of `k0` fails to decode.
   */
  lemma {:induction false} AddOverLastBreak(db1: Db, idx1: Index, content1: Content, k0: string, v0: Value, k1: string, v1: Value)
    requires Represents(db1, RecordLine(k0, v0), idx1, content1)
    requires GetOr(idx1, k0, []) == [0]
    requires UniqueKeys(v0)
    ensures Get(Add(db1, [(k1, v1)]).db, k0).result == Err(RecordDecodeError(0))
  {
    var db2 := Add(db1, [(k1, v1)]).db;
    var idx2 := Appended(idx1, Offsets(|RecordText(k0, v0)|, Entries([(k1, v1)])));
    var line := RecordText(k0, v0) + RecordText(k1, v1) + "\n";
    SecondAddLayout(db1, idx1, content1, k0, v0, k1, v1);
    FirstOffsetKept(idx1, |RecordText(k0, v0)|, k0, k1, v1);
    JoinedLineFails(db2.file, k0, v0, k1, v1, FooterText(idx2, |line|));
    GetFirstLineFails(db2, k0);
  }

  /**
    `add` as written, called twice on an empty file: the second call writes
    its record over the line break that ended the first, so `get` of the
    first key raises the decode error for offset 0.
   */
  lemma {:induction false} SecondAddBreaksFirst(k0: string, v0: Value, k1: string, v1: Value)
    requires UniqueKeys(v0)
    ensures
      var db1 := Add(Connect(""), [(k0, v0)]).db;
      Get(Add(db1, [(k1, v1)]).db, k0).result == Err(RecordDecodeError(0))
  {
    FirstAdd(k0, v0);
    AddOverLastBreak(AddAtEnd(Connect(""), [(k0, v0)]).db,
      Appended([], Offsets(0, Entries([(k0, v0)]))), Appended([], [(k0, v0)]), k0, v0, k1, v1);
  }

  /**
    The corrected `add` of `k1` on a store that holds the one value `v0`
    under `k0`: `get(k0)` still returns `v0`, followed by `v1` when the
    keys are the same.
   */
  lemma {:induction false} AddAtEndKeepsValue(db1: Db, body: string, idx1: Index, content1: Content, k0: string, v0: Value, k1: string, v1: Value)
    requires Represents(db1, body, idx1, content1)
    requires GetOr(content1, k0, []) == [v0]
    requires UniqueKeys(v1)
    ensures Get(AddAtEnd(db1, [(k1, v1)]).db, k0).result == Ok(if k1 == k0 then [v0, v1] else [v0])
  {
    var items1 := [(k1, v1)];
    assert Storable(items1);
    if k1 == k0 {
      assert [v0] + [v1] == [v0, v1];
      assert items1[0].0 == k0 && items1[0].1 == v1;
      GetAfterAddAtEnd(db1, body, idx1, content1, items1, k0);
    } else {
      assert !HasKey(items1, k0) by {
        HasKeyIff(items1, k0);
      }
      GetAfterAddAtEnd(db1, body, idx1, content1, items1, k0);
      GetReadsBack(db1, body, idx1, content1, k0);
    }
  }

  /**
    The corrected `add`, called twice on an empty file: `get` of the first
    key returns its value, and the second value after it when both calls
    used the same key.
   */
  lemma {:induction false} SecondAddAtEndKeepsFirst(k0: string, v0: Value, k1: string, v1: Value)
    requires UniqueKeys(v0) && UniqueKeys(v1)
    ensures
      var db1 := AddAtEnd(Connect(""), [(k0, v0)]).db;
      Get(AddAtEnd(db1, [(k1, v1)]).db, k0).result == Ok(if k1 == k0 then [v0, v1] else [v0])
  {
    var items0 := [(k0, v0)];
    var content1 := Appended([], items0);
    FirstAdd(k0, v0);
    assert GetOr(content1, k0, []) == [v0] by {
      var nothing: Content := [];
      AppendedAt(nothing, items0, 0);
    }
    AddAtEndKeepsValue(AddAtEnd(Connect(""), items0).db, RecordLine(k0, v0),
      Appended([], Offsets(0, Entries(items0))), content1, k0, v0, k1, v1);
  }
}
