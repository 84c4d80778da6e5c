# jsondb storage engine, modelled in Dafny

`Jsondb` keeps a key/value log in a single text file. Each call of `add`
appends one line per item, `json.dumps({key: value})`. The file ends in a
footer of two lines:

1. the index, `json.dumps(index)`, which maps every key to the offsets of
   its record lines in the order they were written;
2. the pointer, the decimal offset where the index line starts, with no
   line break after it.

Every `add` loads the index, cuts the footer off, writes the new records and
writes a fresh footer. `get_many` and `get` load the index without cutting
anything, seek to each offset of a key, read one line and decode it.

A store is the value `Jsondb.Db`. It holds the file's characters, the
handle's position, the cached index and whether the handle is open. Each
operation is a function from the store before the call to the store after it
and what the call returned or raised.

The modules, in dependency order:

- `Wrappers`: `Option` and `Result`.
- `Dict`: Python dicts as insertion-ordered association lists. This covers
  `get`, assignment (`d[k] = v` keeps the key's place), the object a
  decoder builds from repeated keys, and the `d[k] = d.get(k, []) + [v]`
  fold that `add` uses.
- `Decimal`: `str(n)` for offsets and `int(s.strip())`.
- `Text`: finding a known text at a position.
- `Json`: `json.dumps` with its default separators, and a `json.loads`
  for the same texts. Values are null, booleans, integers, strings, arrays
  and objects, nested to any depth.
- `TextFile`: the file as a string with `read`, `readline`, `write` at the
  handle (overwriting, or filling a gap with NULs) and `truncate`.
- `Format`: the record line, the index line and their decoding.
- `Footer`: the backward scan for the pointer line, the pointer and the
  index text.
- `Jsondb`: `Jsondb(path)`, `open`, `close`, `_load_index`, `add` as
  written, the corrected `add`, `get_many` and `get`.
- `Appending`: what one call of `add` does to the file and the index.
- `Readback`: the representation invariant linking a store to its content
  (the values stored under each key, oldest first). It proves:
  - the invariant holds for a new store;
  - `get` returns a key's content;
  - the corrected `add` keeps the invariant and appends each new value;
  - the `add` as written breaks the first record on the second call.

Points of `jsondb/__init__.py` that the model follows closely:

- `add` steps back one character before writing (jsondb/__init__.py:145-146).
  That character is the line break ending the last record, and the first new
  record overwrites it (see Findings).
- When the text between the pointer and the pointer line does not decode,
  `json.loads` raises (:122) and the handler (:128-129) skips both the
  assignment of the index and the truncation (:124-127): the cached index and
  the file stay as they were.
- For a one-character file the backward scan (:101-105) stops at offset 1;
  reading from offset 1 gives the empty string, `int` rejects it (:114), and
  nothing is loaded. Unlike the early return for an empty file (:107-108),
  this path puts the cursor back where it was (:131).
- The file is created when the store connects (:44), so a read never meets a
  missing file.

## Model

| member | source | states |
|---|---|---|
| Jsondb.Connect | jsondb/__init__.py:33-47 | connecting gives an open handle at offset 0 on the file as it is, with no index cached |
| Jsondb.Open | jsondb/__init__.py:53-58 | `open` leaves an open handle untouched and reopens a closed one at offset 0, keeping the file and the cached index |
| Jsondb.Close | jsondb/__init__.py:67-74 | `close` drops the cached index and closes the handle; the file is kept |
| Jsondb.LoadIndex | jsondb/__init__.py:84-131 | the handle stays open; on an empty file only the handle moves (to offset 0), otherwise it returns to where it was; a missing or unparsable pointer changes nothing; a cached index is kept unless `force` is set; when none was cached or `force` is set and the text between the pointer and the pointer line decodes, the index becomes what it decodes to, and it changes in no other case; the file changes only with `truncate`, a parsed pointer, and an index that was cached (without `force`) or decodes, and then it is cut at the pointer, which always happens under those conditions; so an index that fails to decode leaves both the index and the file alone |
| Jsondb.Entries | jsondb/__init__.py:149-156 | one entry per item, in the dict's order: the key with its record line `json.dumps({k: v}) + "\n"` |
| Jsondb.Offsets | jsondb/__init__.py:149-156 | each key gets the offset `tell()` reports before its line is written: the start plus the lengths of the lines before it |
| Jsondb.StepBack | jsondb/__init__.py:145-146 | `max(tell() - 1, 0)` from the end of the file: one character back from the end of a non-empty file, 0 for an empty one |
| Jsondb.Add | jsondb/__init__.py:76-82 | `add` on a closed store raises `ClosedDatabaseError` and changes nothing; on an open one it returns normally and the store stays open |
| Jsondb.AddAtEnd | jsondb/__init__.py:76-82 | the corrected `add` raises on a closed store exactly as `add` does, and returns normally on an open one |
| Jsondb.GetMany | jsondb/__init__.py:163-187 | `get_many` on a closed store raises `ClosedDatabaseError` and changes nothing; on an open one it keeps the handle open and the file as it was, and keeps a cached index |
| Jsondb.Get | jsondb/__init__.py:188-202 | `get` on a closed store raises `ClosedDatabaseError` and changes nothing; on an open one it keeps the handle open and the file as it was, and keeps a cached index |
| Jsondb.ReadRecords | jsondb/__init__.py:183-185 | the records at a key's offsets, read in turn, stopping at the first negative offset or line that does not decode; Readback.ReadRecordsStored states what it gives for records in place |
| Jsondb.Collect | jsondb/__init__.py:180-185 | the loop of `get_many` moves only the handle: the file, the index and the open flag stay as they were; Readback.CollectKey and Readback.CollectOmits state what it returns |
| Jsondb.WriteRecords | jsondb/__init__.py:149-156 | the writes of the loop of `add`; Appending.WriteRecordsLayout states the file they leave |
| Jsondb.WriteFrom | jsondb/__init__.py:148-161 | the loop of `add` and the footer written after it; Appending.WriteFromLayout states the file and handle they leave |
| Footer.ScanFrom | jsondb/__init__.py:101-105 | the scan resumed at `p` stops at or below `p`, and not below 1 when `p` is at least 1; past its stop there is no line break at an offset of 2 or more; a stop at 2 or above is on a line break |
| Footer.PointerPos | jsondb/__init__.py:98-105 | the scan gives 0 exactly for an empty file; otherwise the last line break at an offset of at least 2, or 1 when there is none |
| Footer.FindPointerPos | jsondb/__init__.py:99-105 | the backward loop, one character per step, stops where `PointerPos` says, and satisfies the same properties |
| Footer.ScanFindsFooter | jsondb/__init__.py:98-105 | after any body, the scan of `body + e + "\n" + digits` stops on the line break after `e` when `e` has at least two characters |
| Footer.ReadPointer | jsondb/__init__.py:113-114 | `int(read().strip())` from the scan's stop; Footer.PointerLineOf states that it reads back the pointer `add` wrote |
| Footer.IndexText | jsondb/__init__.py:119-121 | `read(index_pointer_pos - index_pos)` from the index offset; Footer.IndexTextOf states that it is the index text `add` wrote |
| Footer.PointerLineOf | jsondb/__init__.py:113-114 | the pointer line `"\n" + str(n)` reads back as `n` through `int(read().strip())` |
| Footer.IndexTextOf | jsondb/__init__.py:119-121 | reading from the index offset up to the pointer line gives exactly the index text |
| Footer.TruncateFooter | jsondb/__init__.py:124-127 | truncating at the index offset leaves exactly the body in front of the footer |
| Footer.FooterFound | jsondb/__init__.py:98-127 | a footer for any one-line text written after a body is found by the scan, its pointer reads as the body's length, the index text reads back, and the cut leaves the body |
| Footer.FooterRoundTrip | jsondb/__init__.py:158-161 | the footer `add` writes is the one `_load_index` finds: scan stop, pointer and index text all read back |
| Format.RecordValues | jsondb/__init__.py:185 | `json.loads(line).values()`, an error unless the line is a JSON object; Format.RecordRoundTrip states that a record line gives back its value |
| Format.DecodeIndex | jsondb/__init__.py:122 | `json.loads` of the index text, an error unless it is an object of integer lists; Format.IndexRoundTrip and Format.DecodeIndexDistinct state what it gives |
| Format.RecordRoundTrip | jsondb/__init__.py:185 | a record line `json.dumps({k: v}) + "\n"` decodes, through `json.loads(...).values()`, to exactly `[v]` |
| Format.RecordOneLine | jsondb/__init__.py:156 | a record's JSON text has no line break, so each record is one line |
| Format.JoinedRecordsFail | jsondb/__init__.py:185 | a record's text followed directly by another object's text does not decode: `json.loads` reports extra data |
| Format.EncodeIndexSize | jsondb/__init__.py:160 | the index text has at least two characters, its braces |
| Format.IndexOneLine | jsondb/__init__.py:160 | the index text has no line break |
| Format.PositionsRoundTrip | jsondb/__init__.py:122 | an offset list written as a JSON array reads back as the same list |
| Format.IndexRoundTrip | jsondb/__init__.py:122 | an index with distinct keys, written by `json.dumps`, reads back through `json.loads` as the same index, order included |
| Format.DecodeIndexDistinct | jsondb/__init__.py:122 | every index read back has each key once |
| Decimal.Format | jsondb/__init__.py:161 | `str(n)` is a non-empty run of digits with no leading zero unless `n` is 0 |
| Decimal.FormatValue | jsondb/__init__.py:161 | the digits `str(n)` writes denote `n` |
| Decimal.StripUnpadded | jsondb/__init__.py:114 | `strip()` of blanks followed by a text that neither starts nor ends with a blank gives that text |
| Decimal.ParseInt | jsondb/__init__.py:114 | `int(s.strip())` on a run of decimal digits; Decimal.ParseFormat states that it reads back `str(n)` |
| Decimal.ParseFormat | jsondb/__init__.py:114 | `int(s.strip())` of blanks followed by `str(n)` is `n` |
| TextFile.ReadAt | jsondb/__init__.py:114 | `read(size)` from `pos`: the slice there, of length `size` when that much is left, otherwise up to the end; nothing past the end |
| TextFile.ReadLine | jsondb/__init__.py:185 | `readline()` from `pos`: the slice up to and including the first line break, or up to the end; nothing past the end |
| TextFile.ReadLineOf | jsondb/__init__.py:185 | where a line without a line break is followed by one, `readline()` returns exactly that line and its line break |
| TextFile.WriteAt | jsondb/__init__.py:156 | `write(text)` at `pos`: the text is found at `pos`, characters before and after it are kept, a gap past the end is filled with NULs, and the length grows only as far as the text reaches |
| TextFile.WriteAtEnd | jsondb/__init__.py:160-161 | writing at the end appends |
| TextFile.WriteOverLast | jsondb/__init__.py:145-156 | writing one character back from the end replaces the last character and appends the rest |
| TextFile.TruncateAt | jsondb/__init__.py:126-127 | `truncate()` at `n` keeps the first `n` characters (padding with NULs when the file was shorter) |
| Json.EscapeChar | jsondb/__init__.py:156 | `json.dumps` (with `ensure_ascii`) writes a character as itself exactly when it is printable ASCII other than `"` and `\`; anything else becomes an escape; either way the output is printable ASCII and never starts with a quote |
| Json.Hex4RoundTrip | jsondb/__init__.py:185 | the four hex digits written for a UTF-16 code unit read back as that code unit |
| Json.CharRoundTrip | jsondb/__init__.py:185 | whatever `json.dumps` writes for a character (itself, a one-letter escape, `\uXXXX` or a surrogate pair) `json.loads` reads back as that character, stopping right after it |
| Json.PairRoundTrip | jsondb/__init__.py:185 | a character beyond U+FFFF, written as the `\u` escapes of its surrogate pair, reads back as that one character |
| Json.StringRoundTrip | jsondb/__init__.py:185 | the escaped characters of a string, followed by a quote, read back as the string, ending after the quote |
| Json.QuoteRoundTrip | jsondb/__init__.py:185 | a quoted string reads back as the same string, ending just after its closing quote |
| Json.IntRoundTrip | jsondb/__init__.py:122 | an integer's digits, with a sign when negative, read back as the same integer |
| Json.ValueRoundTrip | jsondb/__init__.py:185 | any value without repeated object keys, written by `json.dumps`, is parsed back as the same value, ending where its text ends |
| Json.ArrayRoundTrip | jsondb/__init__.py:122 | an array's text parses back as the same array |
| Json.ObjectRoundTrip | jsondb/__init__.py:185 | an object with distinct keys parses back as the same object, member order included |
| Json.Encode | jsondb/__init__.py:156 | `json.dumps` with its default separators; Json.EncodePrintable and Json.DecodeEncoded state what it writes |
| Json.Decode | jsondb/__init__.py:122 | `json.loads`: one value with blanks around it, nothing else; Json.DecodeEncoded and Json.DecodeRejectsTrailing state what it accepts |
| Json.DecodeEncoded | jsondb/__init__.py:185 | `json.loads(json.dumps(v) + blanks) == v` |
| Json.DecodeRejectsTrailing | jsondb/__init__.py:185 | `json.loads` fails on a value's text followed by anything but blanks; a digit, and after a number a `.`, `e` or `E`, are excluded, as they would continue the number |
| Json.DecodedObjectDistinct | jsondb/__init__.py:122 | a decoded object has each key once |
| Json.EncodePrintable | jsondb/__init__.py:156 | `json.dumps` writes only printable ASCII, so a record has as many bytes as characters |
| Json.EncodeOneLine | jsondb/__init__.py:156 | `json.dumps` never writes a line break |
| Dict.Lookup | jsondb/__init__.py:181 | `d.get(k)` finds a value exactly when the key is present, and the value found is paired with the key |
| Dict.GetOr | jsondb/__init__.py:203 | `d.get(k, default)` is the default for a missing key and the key's value otherwise |
| Dict.UpdateShape | jsondb/__init__.py:151-153 | assignment replaces the value of a present key in its place, and appends a missing key at the end |
| Dict.UpdateSpec | jsondb/__init__.py:182 | after assignment the key has the new value, every other key its old one, and the keys keep their order |
| Dict.UpdateDistinct | jsondb/__init__.py:151-153 | assignment keeps each key once |
| Dict.FromPairsDistinct | jsondb/__init__.py:122 | the object built from decoded members has each key once |
| Dict.FromPairsKeys | jsondb/__init__.py:122 | the object built from decoded members has exactly the keys among the members |
| Dict.FromPairsOrder | jsondb/__init__.py:122 | a repeated key keeps the place of its first occurrence: the keys of the object come in the order the members first name them |
| Dict.FromPairsLast | jsondb/__init__.py:122 | a repeated key takes the value of its last occurrence |
| Dict.FromDistinctPairs | jsondb/__init__.py:122 | members with distinct keys build the object with those members in that order |
| Dict.AppendedDistinct | jsondb/__init__.py:149-153 | the `d[k] = d.get(k, []) + [v]` fold keeps each key once |
| Dict.AppendedOther | jsondb/__init__.py:149-153 | a key the fold does not touch keeps its list |
| Dict.AppendedFirst | jsondb/__init__.py:149-153 | the first pair's key, when no later pair repeats it, gets its value appended to its old list |
| Dict.AppendedAt | jsondb/__init__.py:149-153 | a pair's key, when no other pair carries it, gets its value appended to its old list |
| Dict.AppendedSpec | jsondb/__init__.py:149-153 | for pairs with distinct keys, each key gets its value appended to its list and every other key keeps its list |
| Appending.AppendRecords | jsondb/__init__.py:149-156 | writing the record lines one after another from the end of the file appends their concatenation |
| Appending.WriteRecordsLayout | jsondb/__init__.py:145-156 | writing the record lines from one character back (or at the end) leaves the file up to the start followed by their concatenation |
| Appending.IndexLineAfterRecords | jsondb/__init__.py:159-160 | the index line lands right after the last record line |
| Appending.WriteFromLayout | jsondb/__init__.py:148-161 | after the records and the footer, the file is the prefix, the record lines and a footer for the new index pointing just past them; the handle is at the end |
| Appending.AddLayout | jsondb/__init__.py:142-161 | `add` as written: the file becomes the loaded file minus its last character, the new record lines and the new footer; the index is the loaded one with the new offsets appended, starting one character back |
| Appending.AddAtEndLayout | jsondb/__init__.py:142-161 | the corrected `add`: the file becomes the loaded file, the new record lines and the new footer; the new offsets start at the loaded file's end |
| Appending.AddedOffsetAt | jsondb/__init__.py:149-153 | a key written once by the loop gets the offset of its line appended to its old offsets |
| Appending.AddedOffsetOther | jsondb/__init__.py:149-153 | a key the loop does not write keeps its offsets |
| Appending.AddedOffsets | jsondb/__init__.py:149-153 | both of the above, for every key |
| Appending.EntriesKeys | jsondb/__init__.py:149 | the entries carry the same keys as the items, distinct when theirs are |
| Appending.AddedDistinct | jsondb/__init__.py:151-153 | the updated index has each key once |
| Readback.FooterReads | jsondb/__init__.py:98-127 | in a file that is a body followed by a footer, the scan stops before the pointer line, the pointer reads as the body's length, the index text decodes to the index, and the cut leaves the body |
| Readback.LoadFooter | jsondb/__init__.py:84-131 | loading a file that ends in a footer gives that footer's index (or the same cached one), cuts the footer off when asked, and puts the handle back |
| Readback.LoadedDistinct | jsondb/__init__.py:117-122 | the index a load leaves has each key once, when the cached one had |
| Readback.AddFooterReloads | jsondb/__init__.py:113-161 | right after `add` as written, a load (forced or not, truncating or not) finds the pointer it wrote and gives back the index held in memory; with `truncate` it leaves the file as it was before the footer was written |
| Readback.AddAtEndFooterReloads | jsondb/__init__.py:113-161 | the same footer round trip after the corrected `add` |
| Readback.LineReads | jsondb/__init__.py:184-185 | a record line in place reads back, by `readline` and `json.loads(...).values()`, as its one value |
| Readback.ReadRecordsStored | jsondb/__init__.py:183-185 | reading the records at a key's offsets gives its values in order |
| Readback.StoredExtend | jsondb/__init__.py:156 | record lines stay in place when the file grows |
| Readback.StoredSnoc | jsondb/__init__.py:152-156 | a new record line in place extends a key's offsets and values together |
| Readback.JoinedAt | jsondb/__init__.py:149-156 | each line of a run of lines written one after another is found at its offset in the run |
| Readback.ConnectRepresents | jsondb/__init__.py:33-47 | a store over a new, empty file holds nothing |
| Readback.LoadLaid | jsondb/__init__.py:84-131 | loading the index of a store laid out as records plus a footer finds its index, and with `truncate` leaves just the records |
| Readback.GetReadsKey | jsondb/__init__.py:163-203 | `get(key)` returns the values whose record lines sit at the offsets the index gives for the key, in that order |
| Readback.GetReadsBack | jsondb/__init__.py:163-203 | `get(key)` on a store returns every value added under the key, oldest first, and `[]` for a key never added |
| Readback.GetKeepsRepresents | jsondb/__init__.py:189-203 | after `get`, the store still holds the same content |
| Readback.GetManyKeepsRepresents | jsondb/__init__.py:163-187 | after `get_many`, the store still holds the same content |
| Readback.CloseOpenRepresents | jsondb/__init__.py:53-74 | closing and reopening a store keeps its content |
| Readback.GetAbsentKey | jsondb/__init__.py:178-203 | on any open store, `get` of a key the loaded index has no offsets for returns `[]` |
| Readback.CollectOmits | jsondb/__init__.py:180-182 | the loop of `get_many` leaves alone a key not asked for or without offsets |
| Readback.GetManyOmits | jsondb/__init__.py:176-187 | on any open store, `get_many` has no entry for a key not asked for or without offsets in the loaded index |
| Readback.HoldsExtend | jsondb/__init__.py:156-161 | record lines stay where the index says when text follows them |
| Readback.CollectKey | jsondb/__init__.py:174-187 | the loop of `get_many` succeeds on records in place; a key asked for with a non-empty offset list maps to its values in offset order, and any other key keeps what the result had |
| Readback.GetManyReadsBack | jsondb/__init__.py:163-187 | `get_many(keys)` on a store succeeds, omits every key not asked for or without values, and maps every other asked key to its values, oldest first |
| Readback.StoredAfterRecordsAt | jsondb/__init__.py:149-156 | a key of the new items gets its new value's line after its earlier ones |
| Readback.StoredAfterRecordsOther | jsondb/__init__.py:149-156 | a key not among the new items keeps its offsets and values |
| Readback.HoldsAfterRecords | jsondb/__init__.py:149-156 | after the new record lines, the new index locates every key's values, old and new |
| Readback.AddAtEndRepresents | jsondb/__init__.py:133-161 | the corrected `add` keeps the invariant: the new store holds the old content with each new value appended under its key |
| Readback.GetAfterAddAtEnd | jsondb/__init__.py:133-203 | after the corrected `add`, `get` returns a key's earlier values followed by its new value; a key not added returns what it did before |
| Readback.AppendedStorable | jsondb/__init__.py:149-156 | in a batch with distinct keys, each item's value is appended to its key's values |
| Readback.AddKeepsEarlierRecords | jsondb/__init__.py:133-203 | `add` as written still reads back a key whose records all end before the last character of the records: its earlier values then its new one, or what `get` returned before |
| Readback.AddOnEmptyBody | jsondb/__init__.py:144-146 | on a store with no records, `add` as written and the corrected `add` are the same call |
| Readback.RecordStartsObject | jsondb/__init__.py:156 | a record line starts with `{` |
| Readback.FirstAdd | jsondb/__init__.py:133-161 | the first `add` on an empty file, in either version, leaves one record line at offset 0 and a store that holds that value |
| Readback.JoinedOne | jsondb/__init__.py:149-156 | the lines of a one-item dict are its one record line |
| Readback.SecondAddLayout | jsondb/__init__.py:144-161 | `add` as written, after a store whose body is one record line, leaves the two records' texts on one line, then the footer |
| Readback.JoinedLineFails | jsondb/__init__.py:185 | a line holding two records does not decode |
| Readback.FirstOffsetKept | jsondb/__init__.py:149-153 | appending offsets for another key, or for the same one, leaves offset 0 first in the key's list |
| Readback.GetFirstLineFails | jsondb/__init__.py:178-185 | with an index cached, when the line at a key's first offset does not decode, `get` raises the decode error for that offset |
| Readback.AddOverLastBreak | jsondb/__init__.py:144-156 | `add` as written, on a store holding one record at offset 0, makes `get` of that record's key raise |
| Readback.SecondAddBreaksFirst | jsondb/__init__.py:144-146 | two calls of `add` as written on an empty file: `get` of the first key raises the decode error for offset 0 |
| Readback.AddAtEndKeepsValue | jsondb/__init__.py:133-203 | the corrected `add` of any key keeps the value `get` returned before, appending the new one when the key is the same |
| Readback.SecondAddAtEndKeepsFirst | jsondb/__init__.py:133-203 | two calls of the corrected `add` on an empty file: `get` of the first key returns its value, then the second value when both used the same key |

## Left out

- The file system: `Path.touch`, `open(path, "r+")`, `flush` and the closing of the handle. A `Db` holds the file's text and an open flag; `Jsondb(path)` takes the file's text as a parameter.
- `__enter__` and `__exit__`: they only call `open` and `close`.
- The `path` property: it only returns the stored path.
- Text-mode I/O. The file is a string of characters. Offsets count characters, which equals Python's `tell()` cookies for ASCII content without `\r`. The newline translation of text mode is not modelled.
- Concurrency and interrupted writes: the engine is single-threaded and has no locking.
- Errors of the file system (disk full, permissions) are not modelled.
- Json.Decode: floats, `NaN`, `Infinity` and `-Infinity` are not modelled; a text holding one is read as an error, where Python would return a float. A `\u` escape of a lone surrogate is read as an error, since a Dafny string cannot hold it; Python keeps it in the string. Apart from these, strings are read as Python's strict decoder reads them: one-letter and `\uXXXX` escapes (hex digits of either case, surrogate pairs combined), and a raw control character is an error.
- Json.DecodeRejectsTrailing: the text after a number is not allowed to start with `.`, `e` or `E`, because Python would read the number and those characters as one float, which the model does not represent.
- Json.Value: Python's `True`/`False` are also integers, and `1` and `True` can collide as dict keys. The model keeps them apart and allows only string keys, which is what `json.dumps` writes for keys.
- Decimal.ParseInt: `int(s.strip())` is modelled on digit strings only. Signs, underscores and non-ASCII digits are read as errors. A negative pointer would make `seek` raise `ValueError`, which `_load_index` swallows exactly as it does a parse error, so the outcome is the same.
- Format.DecodeIndex: an index line that is valid JSON but not an object of integer lists is treated like a decode error: the model leaves the cached index and the file alone. Python would cache it and fail later, at an attribute or type error in `get_many` or `add`; and since `json.loads` succeeded, with `truncate` it would also cut the footer off (jsondb/__init__.py:124-127), where the model leaves the file whole.
- Jsondb.ReadRecords: a record line that decodes to JSON other than an object raises `AttributeError` in Python. The model reports it as the same `RecordDecodeError`.
- Jsondb.Entries: `add` encodes each record inside its loop. The model encodes them all first, then writes. Encoding reads nothing from the file, so the two are the same.
- Readback.Storable: the properties about `get` require the items' keys are distinct and no object among the values repeats a key. Both hold for any Python `dict`, which is what `add` receives.
- Readback.AddAtEndRepresents: the invariant is proved for the corrected `add`. For `add` as written, Readback.AddKeepsEarlierRecords proves it per key for records that end before the last line break, and the failure for the last record is proved on the two-call example (Findings); the whole invariant is not kept.

## Findings

| source | as written | input that shows it | evidently intended | confidence | as-written member | corrected member |
|---|---|---|---|---|---|---|
| jsondb/__init__.py:144-146 | after the footer is cut off, `add` seeks to `max(tell() - 1, 0)`, the last character of the file; that is the line break ending the last record, and the first new record overwrites it | `add({"a": 1})` then `add({"b": 2})` on an empty file: line 0 becomes `{"a": 1}{"b": 2}`, and `get("a")` raises `JSONDecodeError` ("Extra data") at offset 0 | new records start after the last record's line break, so every earlier record stays readable | not executed | Readback.SecondAddBreaksFirst | Readback.SecondAddAtEndKeepsFirst |
