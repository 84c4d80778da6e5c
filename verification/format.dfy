/**
  What the store writes into its file, in JSON: one record per line, each
  `json.dumps({key: value})`, and the index, `json.dumps(index)`, which maps
  every key to the offsets of its records in the order they were written.
 */
module Format {
  import opened Wrappers
  import opened Dict
  import opened Json

  /** The index: for each key, the offsets of the lines holding its records. */
  type Index = Dict<seq<int>>

  // ---------------------------------------------------------------- records

  /** `json.dumps({k: v})`. */
  function RecordText(k: string, v: Value): string {
    Encode(Obj([(k, v)]))
  }

  /** A record as it is written: its text and a line break. */
  function RecordLine(k: string, v: Value): string {
    RecordText(k, v) + "\n"
  }

  /**
    `list(json.loads(line).values())`; `None` stands for the decode error, and
    for a line that holds some JSON other than an object.
   */
  function RecordValues(line: string): Option<seq<Value>> {
    match Decode(line)
    case Some(Obj(ms)) => Some(Values(ms))
    case _ => None
  }

  /** A record line reads back as its one value. */
  lemma {:induction false} RecordRoundTrip(k: string, v: Value)
    requires UniqueKeys(v)
    ensures RecordValues(RecordLine(k, v)) == Some([v])
  {
    var ms := [(k, v)];
    assert ms[1..] == [];
    assert MembersUniqueKeys(ms);
    assert IsWs("\n"[0]);
    DecodeEncoded(Obj(ms), "\n");
    assert Values(ms) == [v];
  }

  /** A record line is one line: its only line break is the last character. */
  lemma {:induction false} RecordOneLine(k: string, v: Value)
    ensures '\n' !in RecordText(k, v)
  {
    EncodeOneLine(Obj([(k, v)]));
  }

  /**
    Two records with no line break between them no longer decode: `json.loads`
    stops at the end of the first one and reports "Extra data".
   */
  lemma {:induction false} JoinedRecordsFail(k: string, v: Value, rest: string)
    requires UniqueKeys(v)
    requires |rest| > 0 && rest[0] == '{'
    ensures RecordValues(RecordText(k, v) + rest) == None
  {
    var ms := [(k, v)];
    assert ms[1..] == [];
    assert MembersUniqueKeys(ms);
    DecodeRejectsTrailing(Obj(ms), rest);
  }

  // ---------------------------------------------------------------- the index

  /** An offset list as JSON: an array of integers. */
  function PositionsValue(ps: seq<int>): Value {
    Arr(seq(|ps|, i requires 0 <= i < |ps| => Num(ps[i])))
  }

  /** The index as JSON: an object whose members are the keys with their offset lists. */
  function IndexValue(idx: Index): Value {
    Obj(seq(|idx|, i requires 0 <= i < |idx| => (idx[i].0, PositionsValue(idx[i].1))))
  }

  /** `json.dumps(index)`. */
  function EncodeIndex(idx: Index): string {
    Encode(IndexValue(idx))
  }

  /** A JSON value that reads as an offset list: an array of integers. */
  predicate IsPositions(v: Value) {
    v.Arr? && forall i | 0 <= i < |v.items| :: v.items[i].Num?
  }

  function Positions(v: Value): seq<int>
    requires IsPositions(v)
  {
    seq(|v.items|, i requires 0 <= i < |v.items| => v.items[i].n)
  }

  /**
    `json.loads(text)` as the store's index: an object of offset lists.
    `None` stands for the decode error, and for JSON of any other shape.
   */
  function DecodeIndex(text: string): Option<Index> {
    match Decode(text)
    case Some(Obj(ms)) =>
      if forall i | 0 <= i < |ms| :: IsPositions(ms[i].1) then
        Some(seq(|ms|, i requires 0 <= i < |ms| && IsPositions(ms[i].1) => (ms[i].0, Positions(ms[i].1))))
      else None
    case _ => None
  }

  /** The index text has at least its two braces. */
  lemma {:induction false} EncodeIndexSize(idx: Index)
    ensures |EncodeIndex(idx)| >= 2
  {
  }

  /** The index is written on one line. */
  lemma {:induction false} IndexOneLine(idx: Index)
    ensures '\n' !in EncodeIndex(idx)
  {
    EncodeOneLine(IndexValue(idx));
  }

  /** An offset list reads back from its JSON array. */
  lemma {:induction false} PositionsRoundTrip(ps: seq<int>)
    ensures IsPositions(PositionsValue(ps)) && Positions(PositionsValue(ps)) == ps
  {
    assert forall i | 0 <= i < |ps| :: Positions(PositionsValue(ps))[i] == ps[i];
  }

  /** `json.loads(json.dumps(index)) == index` for every index a dict can be. */
  lemma {:induction false} IndexRoundTrip(idx: Index)
    requires DistinctKeys(idx)
    ensures DecodeIndex(EncodeIndex(idx)) == Some(idx)
  {
    var v := IndexValue(idx);
    var ms := v.members;
    forall i | 0 <= i < |ms| ensures UniqueKeys(ms[i].1) && IsPositions(ms[i].1) && Positions(ms[i].1) == idx[i].1 {
      ItemsUniqueKeysAll(ms[i].1.items);
      PositionsRoundTrip(idx[i].1);
    }
    MembersUniqueKeysAll(ms);
    assert idx == seq(|ms|, i requires 0 <= i < |ms| && IsPositions(ms[i].1) => (ms[i].0, Positions(ms[i].1)));
    DecodeEncoded(v, "");
    assert EncodeIndex(idx) + "" == EncodeIndex(idx);
  }

  /** A decoded index has each key once. */
  lemma {:induction false} DecodeIndexDistinct(text: string)
    ensures DecodeIndex(text).Some? ==> DistinctKeys(DecodeIndex(text).value)
  {
    DecodedObjectDistinct(text);
  }
}
