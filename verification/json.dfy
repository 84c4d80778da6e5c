/**
  The JSON text the store writes and reads: `json.dumps` with its default
  separators `", "` and `": "`, and the `json.loads` decoder for the same
  texts. Values are JSON's null, booleans, integers, strings, arrays and
  objects, nested to any depth.

  The decoder reads a text `s` from a position `p` and returns what it parsed
  with the position just after it.
 */
module Json {
  import opened Wrappers
  import opened Dict
  import opened Text
  import Decimal

  /** A JSON value; an object keeps its members in the order they were written. */
  datatype Value =
    | Null
    | Bool(b: bool)
    | Num(n: int)
    | Str(s: string)
    | Arr(items: seq<Value>)
    | Obj(members: Dict<Value>)

  // ---------------------------------------------------------------- blanks

  /** The four characters JSON allows between tokens. */
  predicate IsWs(c: char) {
    c == ' ' || c == '\t' || c == '\n' || c == '\r'
  }

  function SkipWs(s: string, p: nat): (q: nat)
    requires p <= |s|
    ensures p <= q <= |s|
    decreases |s| - p
  {
    if p < |s| && IsWs(s[p]) then SkipWs(s, p + 1) else p
  }

  /** A token that starts with a non-blank character is not skipped over. */
  lemma {:induction false} SkipNone(s: string, p: nat)
    requires p < |s| && !IsWs(s[p])
    ensures SkipWs(s, p) == p
  {
  }

  /** One blank, then a token. */
  lemma {:induction false} SkipOne(s: string, p: nat)
    requires p + 1 < |s| && IsWs(s[p]) && !IsWs(s[p + 1])
    ensures SkipWs(s, p) == p + 1
  {
  }

  /** Blanks up to the end of the text are all skipped. */
  lemma {:induction false} SkipAllWs(s: string, p: nat)
    requires p <= |s|
    requires forall i | p <= i < |s| :: IsWs(s[i])
    ensures SkipWs(s, p) == |s|
    decreases |s| - p
  {
    if p < |s| {
      SkipAllWs(s, p + 1);
    }
  }

  // ---------------------------------------------------------------- strings

  /** The hex digit `json.dumps` writes for `d`, in lower case. */
  function HexDigit(d: nat): (c: char)
    requires d < 16
    ensures '0' <= c <= '9' || 'a' <= c <= 'f'
  {
    if d < 10 then ('0' as int + d) as char else ('a' as int + d - 10) as char
  }

  /** The value of a hex digit of either case, as `json.loads` reads it. */
  function HexValue(c: char): (r: Option<nat>)
    ensures r.Some? ==> r.value < 16
  {
    if '0' <= c <= '9' then Some(c as int - '0' as int)
    else if 'a' <= c <= 'f' then Some(c as int - 'a' as int + 10)
    else if 'A' <= c <= 'F' then Some(c as int - 'A' as int + 10)
    else None
  }

  /** A byte as two lower-case hex digits. */
  function Hex2(b: nat): (r: string)
    requires b < 0x100
    ensures |r| == 2
  {
    [HexDigit(b / 16), HexDigit(b % 16)]
  }

  /** `'{0:04x}'.format(u)`: a code unit as four lower-case hex digits. */
  function Hex4(u: nat): (r: string)
    requires u < 0x10000
    ensures |r| == 4
  {
    Hex2(u / 0x100) + Hex2(u % 0x100)
  }

  /** Two hex digits at `p`, as the byte they spell. */
  function ParseHex2(s: string, p: nat): (r: Option<nat>)
    ensures r.Some? ==> p + 2 <= |s| && r.value < 0x100
  {
    if p + 2 > |s| then None
    else
      match (HexValue(s[p]), HexValue(s[p + 1]))
      case (Some(a), Some(b)) => Some(a * 16 + b)
      case _ => None
  }

  /** Four hex digits at `p`, as the code unit they spell. */
  function ParseHex4(s: string, p: nat): (r: Option<nat>)
    ensures r.Some? ==> p + 4 <= |s| && r.value < 0x10000
  {
    match (ParseHex2(s, p), ParseHex2(s, p + 2))
    case (Some(a), Some(b)) => Some(a * 0x100 + b)
    case _ => None
  }

  lemma {:induction false} HexDigitValue(d: nat)
    requires d < 16
    ensures HexValue(HexDigit(d)) == Some(d)
  {
  }

  /** The two hex digits `json.dumps` writes for a byte read back as that byte. */
  lemma {:induction false} Hex2RoundTrip(s: string, p: nat, b: nat)
    requires b < 0x100
    requires IsAt(s, p, Hex2(b))
    ensures ParseHex2(s, p) == Some(b)
  {
    var h := Hex2(b);
    IsAtChars(s, p, h);
    assert s[p] == h[0] && s[p + 1] == h[1];
    HexDigitValue(b / 16);
    HexDigitValue(b % 16);
  }

  /** The four hex digits `json.dumps` writes for a code unit read back as that code unit. */
  lemma {:induction false} Hex4RoundTrip(s: string, p: nat, u: nat)
    requires u < 0x10000
    requires IsAt(s, p, Hex4(u))
    ensures ParseHex4(s, p) == Some(u)
  {
    IsAtSplit(s, p, Hex2(u / 0x100), Hex2(u % 0x100));
    Hex2RoundTrip(s, p, u / 0x100);
    Hex2RoundTrip(s, p + 2, u % 0x100);
  }

  /** The escape `\uXXXX` of a UTF-16 code unit. */
  function UnicodeEscape(u: nat): (r: string)
    requires u < 0x10000
    ensures |r| == 6 && r[0] == '\\' && r[1] == 'u'
  {
    "\\u" + Hex4(u)
  }

  /** The character a one-letter backslash escape stands for. */
  function Unescape(e: char): Option<char> {
    if e == '"' then Some('"')
    else if e == '\\' then Some('\\')
    else if e == '/' then Some('/')
    else if e == 'n' then Some('\n')
    else if e == 'r' then Some('\r')
    else if e == 't' then Some('\t')
    else if e == 'b' then Some(8 as char)
    else if e == 'f' then Some(12 as char)
    else None
  }

  /** A printable ASCII character, the only kind `json.dumps` writes. */
  predicate IsPrintable(c: char) {
    ' ' <= c <= '~'
  }

  /**
    How `json.dumps` (with its default `ensure_ascii`) writes one character
    of a string: the quote, the backslash and the five named control
    characters get a one-letter escape; every other character outside
    printable ASCII gets `\uXXXX`, as a surrogate pair beyond U+FFFF; the
    rest is written as itself.
   */
  function EscapeChar(c: char): (r: string)
    ensures |r| > 0 && r[0] != '"'
    ensures forall i | 0 <= i < |r| :: IsPrintable(r[i])
    ensures |r| == 1 <==> IsPrintable(c) && c != '"' && c != '\\'
    ensures |r| == 1 ==> r[0] == c
  {
    if c == '"' then "\\\""
    else if c == '\\' then "\\\\"
    else if c == '\n' then "\\n"
    else if c == '\r' then "\\r"
    else if c == '\t' then "\\t"
    else if c as int == 8 then "\\b"
    else if c as int == 12 then "\\f"
    else if IsPrintable(c) then [c]
    else if c as int < 0x10000 then UnicodeEscape(c as int)
    else
      var n := c as int - 0x10000;
      UnicodeEscape(0xD800 + n / 0x400) + UnicodeEscape(0xDC00 + n % 0x400)
  }

  /** The characters of a string as `json.dumps` writes them between the quotes. */
  function Escape(s: string): string
    decreases |s|, 1
  {
    if |s| == 0 then "" else EscapeMore(s)
  }

  /** The escape of a string's first character, then the rest of the string. */
  function EscapeMore(s: string): string
    requires |s| > 0
    decreases |s|, 0
  {
    EscapeChar(s[0]) + Escape(s[1..])
  }

  /** A JSON string literal. */
  function Quote(s: string): (r: string)
    ensures |r| >= 2 && r[0] == '"'
  {
    "\"" + (Escape(s) + "\"")
  }

  predicate IsHighSurrogate(u: nat) {
    0xD800 <= u < 0xDC00
  }

  predicate IsLowSurrogate(u: nat) {
    0xDC00 <= u < 0xE000
  }

  /** The escape `\uXXXX` at `p`, as the code unit it spells. */
  function ParseUnicodeEscape(s: string, p: nat): (r: Option<nat>)
    ensures r.Some? ==> p + 6 <= |s| && r.value < 0x10000
  {
    if p + 2 <= |s| && s[p] == '\\' && s[p + 1] == 'u' then ParseHex4(s, p + 2) else None
  }

  /**
    One character of a string literal, other than its closing quote, and the
    position after it: a character that is not a control character, a
    one-letter escape, or `\uXXXX`, where a high surrogate must be followed
    by the escape of a low one and the two stand for one character. A raw
    control character is the "Invalid control character" error.
   */
  function ParseChar(s: string, p: nat): (r: Option<(char, nat)>)
    requires p < |s|
    ensures r.Some? ==> p < r.value.1 <= |s|
  {
    if s[p] == '\\' then
      if p + 1 == |s| then None
      else if s[p + 1] == 'u' then
        match ParseUnicodeEscape(s, p)
        case None => None
        case Some(u) =>
          if IsHighSurrogate(u) then
            match ParseUnicodeEscape(s, p + 6)
            case None => None
            case Some(w) =>
              if IsLowSurrogate(w) then Some(((0x10000 + (u - 0xD800) * 0x400 + (w - 0xDC00)) as char, p + 12))
              else None
          else if IsLowSurrogate(u) then None
          else Some((u as char, p + 6))
      else
        match Unescape(s[p + 1])
        case None => None
        case Some(c) => Some((c, p + 2))
    else if (s[p] as int) < 0x20 then None
    else Some((s[p], p + 1))
  }

  /** The characters of a string literal after its opening quote, up to and including the closing quote. */
  function ParseStringBody(s: string, p: nat): (r: Option<(string, nat)>)
    requires p <= |s|
    ensures r.Some? ==> p < r.value.1 <= |s|
    decreases |s| - p, 1
  {
    if p == |s| then None
    else if s[p] == '"' then Some(("", p + 1))
    else ParseMoreChars(s, p)
  }

  /** A character of a string literal at `p`, then the rest of the literal. */
  function ParseMoreChars(s: string, p: nat): (r: Option<(string, nat)>)
    requires p < |s|
    ensures r.Some? ==> p < r.value.1 <= |s|
    decreases |s| - p, 0
  {
    match ParseChar(s, p)
    case None => None
    case Some(c) =>
      match ParseStringBody(s, c.1)
      case None => None
      case Some(t) => Some(([c.0] + t.0, t.1))
  }

  function ParseString(s: string, p: nat): (r: Option<(string, nat)>)
    requires p <= |s|
    ensures r.Some? ==> p < r.value.1 <= |s|
  {
    if p < |s| && s[p] == '"' then ParseStringBody(s, p + 1) else None
  }

  /** The `\uXXXX` escape of a code unit reads back as that code unit. */
  lemma {:induction false} UnicodeEscapeRoundTrip(s: string, p: nat, u: nat)
    requires u < 0x10000
    requires IsAt(s, p, UnicodeEscape(u))
    ensures p + 1 < |s| && s[p] == '\\' && s[p + 1] == 'u'
    ensures ParseUnicodeEscape(s, p) == Some(u)
  {
    var e := UnicodeEscape(u);
    SplitFirst(s, p, e, '\\', "u" + Hex4(u));
    SplitFirst(s, p + 1, "u" + Hex4(u), 'u', Hex4(u));
    Hex4RoundTrip(s, p + 2, u);
  }

  /** However `json.dumps` writes a character, `json.loads` reads it back and stops after it. */
  lemma {:induction false} CharRoundTrip(s: string, p: nat, c: char)
    requires IsAt(s, p, EscapeChar(c))
    ensures p < |s| && ParseChar(s, p) == Some((c, p + |EscapeChar(c)|))
  {
    var e := EscapeChar(c);
    IsAtFirst(s, p, e);
    if |e| == 1 {
    } else if |e| == 2 {
      SplitFirst(s, p, e, e[0], [e[1]]);
      IsAtFirst(s, p + 1, [e[1]]);
    } else if c as int < 0x10000 {
      UnicodeEscapeRoundTrip(s, p, c as int);
    } else {
      PairRoundTrip(s, p, c);
    }
  }

  /** The surrogate pair `json.dumps` writes for a character beyond U+FFFF stands for that character. */
  lemma {:induction false} SurrogatePair(c: char)
    requires c as int >= 0x10000
    ensures var n := c as int - 0x10000;
      && IsHighSurrogate(0xD800 + n / 0x400) && IsLowSurrogate(0xDC00 + n % 0x400)
      && 0x10000 + n / 0x400 * 0x400 + n % 0x400 == c as int
  {
  }

  /** The escapes of a high and a low surrogate, one after the other, read as one character. */
  lemma {:induction false} PairStep(s: string, p: nat, hi: nat, lo: nat)
    requires p + 1 < |s| && s[p] == '\\' && s[p + 1] == 'u'
    requires ParseUnicodeEscape(s, p) == Some(hi) && IsHighSurrogate(hi)
    requires ParseUnicodeEscape(s, p + 6) == Some(lo) && IsLowSurrogate(lo)
    ensures ParseChar(s, p) == Some(((0x10000 + (hi - 0xD800) * 0x400 + (lo - 0xDC00)) as char, p + 12))
  {
  }

  /** A character beyond U+FFFF, written as the escapes of its surrogate pair, reads back as itself. */
  lemma {:induction false} PairRoundTrip(s: string, p: nat, c: char)
    requires c as int >= 0x10000
    requires IsAt(s, p, EscapeChar(c))
    ensures p < |s| && ParseChar(s, p) == Some((c, p + 12))
  {
    var n := c as int - 0x10000;
    var hi := 0xD800 + n / 0x400;
    var lo := 0xDC00 + n % 0x400;
    assert IsAt(s, p, UnicodeEscape(hi)) && IsAt(s, p + 6, UnicodeEscape(lo)) by {
      assert EscapeChar(c) == UnicodeEscape(hi) + UnicodeEscape(lo) by {
        assert !IsPrintable(c) && c as int >= 0x10000;
      }
      IsAtSplit(s, p, UnicodeEscape(hi), UnicodeEscape(lo));
    }
    UnicodeEscapeRoundTrip(s, p, hi);
    UnicodeEscapeRoundTrip(s, p + 6, lo);
    SurrogatePair(c);
    PairStep(s, p, hi, lo);
  }

  lemma {:induction false} StringRoundTrip(s: string, p: nat, t: string)
    requires IsAt(s, p, Escape(t))
    requires p + |Escape(t)| < |s| && s[p + |Escape(t)|] == '"'
    ensures ParseStringBody(s, p) == Some((t, p + |Escape(t)| + 1))
    decreases |t|
  {
    if |t| > 0 {
      var e := EscapeChar(t[0]);
      IsAtSplit(s, p, e, Escape(t[1..]));
      StringRoundTrip(s, p + |e|, t[1..]);
      IsAtFirst(s, p, e);
      CharRoundTrip(s, p, t[0]);
      assert [t[0]] + t[1..] == t;
    }
  }

  lemma {:induction false} QuoteRoundTrip(s: string, p: nat, t: string)
    requires IsAt(s, p, Quote(t))
    ensures ParseString(s, p) == Some((t, p + |Quote(t)|))
  {
    SplitFirst(s, p, Quote(t), '"', Escape(t) + "\"");
    IsAtSplit(s, p + 1, Escape(t), "\"");
    IsAtFirst(s, p + 1 + |Escape(t)|, "\"");
    StringRoundTrip(s, p + 1, t);
  }

  // ---------------------------------------------------------------- numbers

  /** The end of the run of digits that starts at `p`. */
  function DigitEnd(s: string, p: nat): (q: nat)
    requires p <= |s|
    ensures p <= q <= |s|
    decreases |s| - p
  {
    if p < |s| && Decimal.IsDigit(s[p]) then DigitEnd(s, p + 1) else p
  }

  /** Nothing that could continue a number follows position `q`. */
  predicate EndsNumber(s: string, q: nat) {
    q >= |s| || !Decimal.IsDigit(s[q])
  }

  /** A numeral followed by a non-digit is exactly the run of digits found there. */
  lemma {:induction false} DigitEndOf(s: string, p: nat, d: string)
    requires IsAt(s, p, d)
    requires Decimal.AllDigits(d)
    requires EndsNumber(s, p + |d|)
    ensures DigitEnd(s, p) == p + |d|
    decreases |d|
  {
    if |d| > 0 {
      SplitFirst(s, p, d, d[0], d[1..]);
      assert Decimal.IsDigit(d[0]);
      DigitEndOf(s, p + 1, d[1..]);
    }
  }

  /** A JSON integer without sign: `0`, or a run of digits that does not start with `0`. */
  function ParseNat(s: string, p: nat): (r: Option<(nat, nat)>)
    requires p <= |s|
    ensures r.Some? ==> p < r.value.1 <= |s|
  {
    var q := DigitEnd(s, p);
    if q == p || (q > p + 1 && s[p] == '0') then None
    else Some((Decimal.ValueOf(s[p..q]), q))
  }

  function ParseNumber(s: string, p: nat): (r: Option<(int, nat)>)
    requires p <= |s|
    ensures r.Some? ==> p < r.value.1 <= |s|
  {
    if p < |s| && s[p] == '-' then
      match ParseNat(s, p + 1)
      case None => None
      case Some(t) => Some((0 - (t.0 as int), t.1))
    else
      match ParseNat(s, p)
      case None => None
      case Some(t) => Some((t.0 as int, t.1))
  }

  /** `str(i)` for any integer. */
  function FormatInt(i: int): (r: string)
    ensures |r| >= 1 && (r[0] == '-' || Decimal.IsDigit(r[0]))
  {
    if i < 0 then "-" + Decimal.Format(-i) else Decimal.Format(i)
  }

  lemma {:induction false} NatRoundTrip(s: string, p: nat, n: nat)
    requires IsAt(s, p, Decimal.Format(n))
    requires EndsNumber(s, p + |Decimal.Format(n)|)
    ensures ParseNat(s, p) == Some((n, p + |Decimal.Format(n)|))
  {
    var d := Decimal.Format(n);
    DigitEndOf(s, p, d);
    IsAtSlice(s, p, d);
    Decimal.FormatValue(n);
  }

  lemma {:induction false} IntRoundTrip(s: string, p: nat, i: int)
    requires IsAt(s, p, FormatInt(i))
    requires EndsNumber(s, p + |FormatInt(i)|)
    ensures ParseNumber(s, p) == Some((i, p + |FormatInt(i)|))
  {
    if i < 0 {
      SplitFirst(s, p, FormatInt(i), '-', Decimal.Format(-i));
      NatRoundTrip(s, p + 1, -i);
    } else {
      NatRoundTrip(s, p, i);
      IsAtFirst(s, p, FormatInt(i));
    }
  }

  // ---------------------------------------------------------------- encoder

  /** The characters a JSON value can start with. */
  predicate StartsValue(c: char) {
    c == 'n' || c == 't' || c == 'f' || c == '"' || c == '[' || c == '{' || c == '-' || Decimal.IsDigit(c)
  }

  /** `json.dumps(v)`: one line, object members in insertion order. */
  function Encode(v: Value): (r: string)
    ensures |r| > 0 && StartsValue(r[0])
    decreases v, 0
  {
    match v
    case Null => "null"
    case Bool(b) => if b then "true" else "false"
    case Num(n) => FormatInt(n)
    case Str(t) => Quote(t)
    case Arr(xs) => "[" + (EncodeItems(xs) + "]")
    case Obj(ms) => "{" + (EncodeMembers(ms) + "}")
  }

  function EncodeItems(xs: seq<Value>): (r: string)
    ensures |xs| > 0 ==> |r| > 0 && StartsValue(r[0])
    decreases xs
  {
    if |xs| == 0 then ""
    else if |xs| == 1 then Encode(xs[0])
    else Encode(xs[0]) + (", " + EncodeItems(xs[1..]))
  }

  function EncodeMember(k: string, v: Value): (r: string)
    ensures |r| > 0 && r[0] == '"'
    decreases v, 1
  {
    Quote(k) + (": " + Encode(v))
  }

  function EncodeMembers(ms: Dict<Value>): (r: string)
    ensures |ms| > 0 ==> |r| > 0 && r[0] == '"'
    decreases ms
  {
    if |ms| == 0 then ""
    else
      assert ms[0] in ms && ms[0].1 < ms[0];
      if |ms| == 1 then EncodeMember(ms[0].0, ms[0].1)
      else EncodeMember(ms[0].0, ms[0].1) + (", " + EncodeMembers(ms[1..]))
  }

  // ---------------------------------------------------------------- decoder

  /** The keyword `word` at `p`. */
  function ParseWord(s: string, p: nat, word: string): (r: Option<nat>)
    requires p <= |s|
    ensures r.Some? ==> r.value == p + |word| <= |s|
  {
    if IsAt(s, p, word) then Some(p + |word|) else None
  }

  /** A value at `p`; at the end of the text there is none. */
  function ParseValue(s: string, p: nat): (r: Option<(Value, nat)>)
    requires p <= |s|
    ensures r.Some? ==> p < r.value.1 <= |s|
    decreases |s| - p, 2
  {
    if p == |s| then None else ParseValueAt(s, p)
  }

  /** The value whose first character is at `p`: the kind of value is told by that character. */
  function ParseValueAt(s: string, p: nat): (r: Option<(Value, nat)>)
    requires p < |s|
    ensures r.Some? ==> p < r.value.1 <= |s|
    decreases |s| - p, 1
  {
    if s[p] == '"' then
      match ParseString(s, p)
      case None => None
      case Some(t) => Some((Str(t.0), t.1))
    else if s[p] == '[' then ParseArray(s, p)
    else if s[p] == '{' then ParseObject(s, p)
    else if s[p] == 'n' then
      match ParseWord(s, p, "null")
      case None => None
      case Some(q) => Some((Null, q))
    else if s[p] == 't' then
      match ParseWord(s, p, "true")
      case None => None
      case Some(q) => Some((Bool(true), q))
    else if s[p] == 'f' then
      match ParseWord(s, p, "false")
      case None => None
      case Some(q) => Some((Bool(false), q))
    else
      match ParseNumber(s, p)
      case None => None
      case Some(t) => Some((Num(t.0), t.1))
  }

  function ParseArray(s: string, p: nat): (r: Option<(Value, nat)>)
    requires p < |s| && s[p] == '['
    ensures r.Some? ==> p < r.value.1 <= |s|
    decreases |s| - p, 0
  {
    var q := SkipWs(s, p + 1);
    if q < |s| && s[q] == ']' then Some((Arr([]), q + 1))
    else
      match ParseItems(s, q)
      case None => None
      case Some(t) => Some((Arr(t.0), t.1))
  }

  /** The elements of a non-empty array and its closing bracket. */
  function ParseItems(s: string, p: nat): (r: Option<(seq<Value>, nat)>)
    requires p <= |s|
    ensures r.Some? ==> p < r.value.1 <= |s|
    decreases |s| - p, 3
  {
    match ParseValue(s, p)
    case None => None
    case Some(t) => ItemsAfter(s, t.0, SkipWs(s, t.1))
  }

  /** After the element `x`, at `q`: the closing bracket, or a comma and the remaining elements. */
  function ItemsAfter(s: string, x: Value, q: nat): (r: Option<(seq<Value>, nat)>)
    requires q <= |s|
    ensures r.Some? ==> q < r.value.1 <= |s|
    decreases |s| - q, 4
  {
    if q < |s| && s[q] == ']' then Some(([x], q + 1))
    else if q < |s| && s[q] == ',' then
      match ParseItems(s, SkipWs(s, q + 1))
      case None => None
      case Some(u) => Some(([x] + u.0, u.1))
    else None
  }

  /** An object; its members become a dict the way Python builds one (first position, last value). */
  function ParseObject(s: string, p: nat): (r: Option<(Value, nat)>)
    requires p < |s| && s[p] == '{'
    ensures r.Some? ==> p < r.value.1 <= |s|
    decreases |s| - p, 0
  {
    var q := SkipWs(s, p + 1);
    if q < |s| && s[q] == '}' then Some((Obj([]), q + 1))
    else
      match ParseMembers(s, q)
      case None => None
      case Some(t) => Some((Obj(FromPairs(t.0)), t.1))
  }

  function ParseMember(s: string, p: nat): (r: Option<((string, Value), nat)>)
    requires p <= |s|
    ensures r.Some? ==> p < r.value.1 <= |s|
    decreases |s| - p, 1
  {
    match ParseString(s, p)
    case None => None
    case Some(k) =>
      var q := SkipWs(s, k.1);
      if q == |s| || s[q] != ':' then None
      else
        match ParseValue(s, SkipWs(s, q + 1))
        case None => None
        case Some(v) => Some(((k.0, v.0), v.1))
  }

  /** The members of a non-empty object, as written, and its closing brace. */
  function ParseMembers(s: string, p: nat): (r: Option<(seq<(string, Value)>, nat)>)
    requires p <= |s|
    ensures r.Some? ==> p < r.value.1 <= |s|
    decreases |s| - p, 2
  {
    match ParseMember(s, p)
    case None => None
    case Some(m) => MembersAfter(s, m.0, SkipWs(s, m.1))
  }

  /** After the member `m`, at `q`: the closing brace, or a comma and the remaining members. */
  function MembersAfter(s: string, m: (string, Value), q: nat): (r: Option<(seq<(string, Value)>, nat)>)
    requires q <= |s|
    ensures r.Some? ==> q < r.value.1 <= |s|
    decreases |s| - q, 3
  {
    if q < |s| && s[q] == '}' then Some(([m], q + 1))
    else if q < |s| && s[q] == ',' then
      match ParseMembers(s, SkipWs(s, q + 1))
      case None => None
      case Some(u) => Some(([m] + u.0, u.1))
    else None
  }

  /**
    `json.loads(s)`: one value, blanks around it allowed; anything else
    after it is the "Extra data" error.
   */
  function Decode(s: string): Option<Value> {
    match ParseValue(s, SkipWs(s, 0))
    case None => None
    case Some(t) => if SkipWs(s, t.1) == |s| then Some(t.0) else None
  }

  // ---------------------------------------------------------------- one parsing step at a time

  /** An element, the `", "` separator, and the rest of the array. */
  lemma {:induction false} NextItem(s: string, p: nat, xs: seq<Value>, n: nat, q: nat)
    requires p <= |s| && |xs| > 1
    requires ParseValue(s, p) == Some((xs[0], p + n))
    requires p + n + 2 < |s| && s[p + n] == ',' && s[p + n + 1] == ' ' && !IsWs(s[p + n + 2])
    requires ParseItems(s, p + n + 2) == Some((xs[1..], q))
    ensures ParseItems(s, p) == Some((xs, q))
  {
    SkipNone(s, p + n);
    SkipOne(s, p + n + 1);
    assert [xs[0]] + xs[1..] == xs;
  }

  /** The last element, then the closing bracket. */
  lemma {:induction false} LastItem(s: string, p: nat, x: Value, n: nat)
    requires p <= |s|
    requires ParseValue(s, p) == Some((x, p + n))
    requires p + n < |s| && s[p + n] == ']'
    ensures ParseItems(s, p) == Some(([x], p + n + 1))
  {
    SkipNone(s, p + n);
  }

  /** A member, the `", "` separator, and the rest of the object. */
  lemma {:induction false} NextMember(s: string, p: nat, ms: seq<(string, Value)>, n: nat, q: nat)
    requires p <= |s| && |ms| > 1
    requires ParseMember(s, p) == Some((ms[0], p + n))
    requires p + n + 2 < |s| && s[p + n] == ',' && s[p + n + 1] == ' ' && !IsWs(s[p + n + 2])
    requires ParseMembers(s, p + n + 2) == Some((ms[1..], q))
    ensures ParseMembers(s, p) == Some((ms, q))
  {
    SkipNone(s, p + n);
    SkipOne(s, p + n + 1);
    assert [ms[0]] + ms[1..] == ms;
  }

  /** The last member, then the closing brace. */
  lemma {:induction false} LastMember(s: string, p: nat, m: (string, Value), n: nat)
    requires p <= |s|
    requires ParseMember(s, p) == Some((m, p + n))
    requires p + n < |s| && s[p + n] == '}'
    ensures ParseMembers(s, p) == Some(([m], p + n + 1))
  {
    SkipNone(s, p + n);
  }

  /** A key, the `": "` separator, and a value. */
  lemma {:induction false} MemberStep(s: string, p: nat, m: (string, Value), n: nat, q: nat)
    requires p <= |s|
    requires ParseString(s, p) == Some((m.0, p + n))
    requires p + n + 2 < |s| && s[p + n] == ':' && s[p + n + 1] == ' ' && !IsWs(s[p + n + 2])
    requires ParseValue(s, p + n + 2) == Some((m.1, q))
    ensures ParseMember(s, p) == Some((m, q))
  {
    SkipNone(s, p + n);
    SkipOne(s, p + n + 1);
  }

  /** An opening bracket, then a non-empty list of elements. */
  lemma {:induction false} ArrayStep(s: string, p: nat, xs: seq<Value>, q: nat)
    requires p + 1 < |s| && s[p] == '[' && !IsWs(s[p + 1]) && s[p + 1] != ']'
    requires ParseItems(s, p + 1) == Some((xs, q))
    ensures ParseArray(s, p) == Some((Arr(xs), q))
  {
    SkipNone(s, p + 1);
  }

  /** An opening brace, then a non-empty list of members. */
  lemma {:induction false} ObjectStep(s: string, p: nat, ms: seq<(string, Value)>, q: nat)
    requires p + 1 < |s| && s[p] == '{' && !IsWs(s[p + 1]) && s[p + 1] != '}'
    requires ParseMembers(s, p + 1) == Some((ms, q))
    ensures ParseObject(s, p) == Some((Obj(FromPairs(ms)), q))
  {
    SkipNone(s, p + 1);
  }

  // ---------------------------------------------------------------- round trip

  /** Every object, at any depth, has distinct keys, as every Python dict does. */
  predicate UniqueKeys(v: Value)
    decreases v, 0
  {
    match v
    case Arr(xs) => ItemsUniqueKeys(xs)
    case Obj(ms) => DistinctKeys(ms) && MembersUniqueKeys(ms)
    case _ => true
  }

  predicate ItemsUniqueKeys(xs: seq<Value>)
    decreases xs
  {
    |xs| == 0 || (UniqueKeys(xs[0]) && ItemsUniqueKeys(xs[1..]))
  }

  predicate MembersUniqueKeys(ms: Dict<Value>)
    decreases ms
  {
    |ms| == 0 || (assert ms[0] in ms && ms[0].1 < ms[0]; UniqueKeys(ms[0].1) && MembersUniqueKeys(ms[1..]))
  }

  /** Every element free of duplicate keys makes the list free of them. */
  lemma {:induction false} ItemsUniqueKeysAll(xs: seq<Value>)
    requires forall i | 0 <= i < |xs| :: UniqueKeys(xs[i])
    ensures ItemsUniqueKeys(xs)
    decreases |xs|
  {
    if |xs| > 0 {
      ItemsUniqueKeysAll(xs[1..]);
    }
  }

  /** Every member value free of duplicate keys makes the members free of them. */
  lemma {:induction false} MembersUniqueKeysAll(ms: Dict<Value>)
    requires forall i | 0 <= i < |ms| :: UniqueKeys(ms[i].1)
    ensures MembersUniqueKeys(ms)
    decreases |ms|
  {
    if |ms| > 0 {
      MembersUniqueKeysAll(ms[1..]);
    }
  }

  /** Reading back a value from where it was written. */
  lemma {:induction false} ValueRoundTrip(s: string, p: nat, v: Value)
    requires UniqueKeys(v)
    requires IsAt(s, p, Encode(v))
    requires EndsNumber(s, p + |Encode(v)|)
    ensures ParseValue(s, p) == Some((v, p + |Encode(v)|))
    decreases v, 0
  {
    match v
    case Null =>
      IsAtFirst(s, p, Encode(v));
    case Bool(b) =>
      IsAtFirst(s, p, Encode(v));
    case Num(n) =>
      IsAtFirst(s, p, Encode(v));
      IntRoundTrip(s, p, n);
    case Str(t) =>
      IsAtFirst(s, p, Encode(v));
      QuoteRoundTrip(s, p, t);
    case Arr(xs) =>
      ArrayRoundTrip(s, p, xs);
    case Obj(ms) =>
      ObjectRoundTrip(s, p, ms);
  }

  lemma {:induction false} ArrayRoundTrip(s: string, p: nat, xs: seq<Value>)
    requires ItemsUniqueKeys(xs)
    requires IsAt(s, p, Encode(Arr(xs)))
    ensures p < |s| && s[p] == '['
    ensures ParseArray(s, p) == Some((Arr(xs), p + |Encode(Arr(xs))|))
    decreases xs, 2
  {
    var e := EncodeItems(xs);
    SplitFirst(s, p, Encode(Arr(xs)), '[', e + "]");
    IsAtSplit(s, p + 1, e, "]");
    IsAtFirst(s, p + 1 + |e|, "]");
    if |xs| == 0 {
      SkipNone(s, p + 1);
    } else {
      IsAtFirst(s, p + 1, e);
      ItemsRoundTrip(s, p + 1, xs);
      ArrayStep(s, p, xs, p + 1 + |e| + 1);
    }
  }

  lemma {:induction false} ItemsRoundTrip(s: string, p: nat, xs: seq<Value>)
    requires |xs| > 0 && ItemsUniqueKeys(xs)
    requires IsAt(s, p, EncodeItems(xs))
    requires p + |EncodeItems(xs)| < |s| && s[p + |EncodeItems(xs)|] == ']'
    ensures ParseItems(s, p) == Some((xs, p + |EncodeItems(xs)| + 1))
    decreases xs, 1
  {
    if |xs| == 1 {
      ValueRoundTrip(s, p, xs[0]);
      LastItem(s, p, xs[0], |Encode(xs[0])|);
      assert [xs[0]] == xs;
    } else {
      MoreItemsRoundTrip(s, p, xs);
    }
  }

  lemma {:induction false} MoreItemsRoundTrip(s: string, p: nat, xs: seq<Value>)
    requires |xs| > 1 && ItemsUniqueKeys(xs)
    requires IsAt(s, p, EncodeItems(xs))
    requires p + |EncodeItems(xs)| < |s| && s[p + |EncodeItems(xs)|] == ']'
    ensures ParseItems(s, p) == Some((xs, p + |EncodeItems(xs)| + 1))
    decreases xs, 0
  {
    var a := Encode(xs[0]);
    var b := EncodeItems(xs[1..]);
    var q := p + |a| + 2 + |b| + 1;
    assert EncodeItems(xs) == a + (", " + b);
    assert IsAt(s, p, a) && IsAt(s, p + |a| + 2, b) && s[p + |a|] == ',' && s[p + |a| + 1] == ' ' by {
      SplitSep(s, p, a, ", ", b);
    }
    assert ParseValue(s, p) == Some((xs[0], p + |a|)) by {
      ValueRoundTrip(s, p, xs[0]);
    }
    assert ItemsUniqueKeys(xs[1..]);
    assert |EncodeItems(xs)| == |a| + 2 + |b|;
    assert s[p + |a| + 2 + |b|] == ']';
    assert ParseItems(s, p + |a| + 2) == Some((xs[1..], q)) by {
      ItemsRoundTrip(s, p + |a| + 2, xs[1..]);
    }
    assert !IsWs(s[p + |a| + 2]) by {
      IsAtFirst(s, p + |a| + 2, b);
    }
    NextItem(s, p, xs, |a|, q);
  }

  lemma {:induction false} ObjectRoundTrip(s: string, p: nat, ms: Dict<Value>)
    requires DistinctKeys(ms) && MembersUniqueKeys(ms)
    requires IsAt(s, p, Encode(Obj(ms)))
    ensures p < |s| && s[p] == '{'
    ensures ParseObject(s, p) == Some((Obj(ms), p + |Encode(Obj(ms))|))
    decreases ms, 2
  {
    var e := EncodeMembers(ms);
    SplitFirst(s, p, Encode(Obj(ms)), '{', e + "}");
    IsAtSplit(s, p + 1, e, "}");
    IsAtFirst(s, p + 1 + |e|, "}");
    if |ms| == 0 {
      SkipNone(s, p + 1);
    } else {
      IsAtFirst(s, p + 1, e);
      MembersRoundTrip(s, p + 1, ms);
      ObjectStep(s, p, ms, p + 1 + |e| + 1);
      FromDistinctPairs(ms);
    }
  }

  lemma {:induction false} MemberRoundTrip(s: string, p: nat, m: (string, Value))
    requires UniqueKeys(m.1)
    requires IsAt(s, p, EncodeMember(m.0, m.1))
    requires EndsNumber(s, p + |EncodeMember(m.0, m.1)|)
    ensures ParseMember(s, p) == Some((m, p + |EncodeMember(m.0, m.1)|))
    decreases m, 1
  {
    var q := Quote(m.0);
    var e := Encode(m.1);
    SplitSep(s, p, q, ": ", e);
    QuoteRoundTrip(s, p, m.0);
    IsAtFirst(s, p + |q| + 2, e);
    ValueRoundTrip(s, p + |q| + 2, m.1);
    MemberStep(s, p, m, |q|, p + |q| + 2 + |e|);
  }

  lemma {:induction false} MembersRoundTrip(s: string, p: nat, ms: Dict<Value>)
    requires |ms| > 0 && MembersUniqueKeys(ms)
    requires IsAt(s, p, EncodeMembers(ms))
    requires p + |EncodeMembers(ms)| < |s| && s[p + |EncodeMembers(ms)|] == '}'
    ensures ParseMembers(s, p) == Some((ms, p + |EncodeMembers(ms)| + 1))
    decreases ms, 1
  {
    if |ms| == 1 {
      MemberRoundTrip(s, p, ms[0]);
      LastMember(s, p, ms[0], |EncodeMember(ms[0].0, ms[0].1)|);
      assert [ms[0]] == ms;
    } else {
      MoreMembersRoundTrip(s, p, ms);
    }
  }

  lemma {:induction false} MoreMembersRoundTrip(s: string, p: nat, ms: Dict<Value>)
    requires |ms| > 1 && MembersUniqueKeys(ms)
    requires IsAt(s, p, EncodeMembers(ms))
    requires p + |EncodeMembers(ms)| < |s| && s[p + |EncodeMembers(ms)|] == '}'
    ensures ParseMembers(s, p) == Some((ms, p + |EncodeMembers(ms)| + 1))
    decreases ms, 0
  {
    var a := EncodeMember(ms[0].0, ms[0].1);
    var b := EncodeMembers(ms[1..]);
    var q := p + |a| + 2 + |b| + 1;
    assert EncodeMembers(ms) == a + (", " + b);
    assert IsAt(s, p, a) && IsAt(s, p + |a| + 2, b) && s[p + |a|] == ',' && s[p + |a| + 1] == ' ' by {
      SplitSep(s, p, a, ", ", b);
    }
    assert ParseMember(s, p) == Some((ms[0], p + |a|)) by {
      MemberRoundTrip(s, p, ms[0]);
    }
    assert MembersUniqueKeys(ms[1..]);
    assert |EncodeMembers(ms)| == |a| + 2 + |b|;
    assert s[p + |a| + 2 + |b|] == '}';
    assert ParseMembers(s, p + |a| + 2) == Some((ms[1..], q)) by {
      MembersRoundTrip(s, p + |a| + 2, ms[1..]);
    }
    assert !IsWs(s[p + |a| + 2]) by {
      IsAtFirst(s, p + |a| + 2, b);
    }
    NextMember(s, p, ms, |a|, q);
  }

  /** `json.loads(json.dumps(v) + ws) == v`, where `ws` is blank (such as the line break `readline` keeps). */
  lemma {:induction false} DecodeEncoded(v: Value, ws: string)
    requires UniqueKeys(v)
    requires forall i | 0 <= i < |ws| :: IsWs(ws[i])
    ensures Decode(Encode(v) + ws) == Some(v)
  {
    var e := Encode(v);
    var s := e + ws;
    IsAtPrefix(e, ws);
    IsAtFirst(s, 0, e);
    SkipNone(s, 0);
    if |ws| > 0 {
      assert s[|e|] == ws[0];
    }
    ValueRoundTrip(s, 0, v);
    SkipAllWs(s, |e|);
  }

  /**
    A value followed on the same text by something that is neither blank nor
    a digit is rejected ("Extra data"); after a number, a fraction or an
    exponent would continue it as a float, so those are excluded too.
   */
  lemma {:induction false} DecodeRejectsTrailing(v: Value, rest: string)
    requires UniqueKeys(v)
    requires |rest| > 0 && !IsWs(rest[0]) && !Decimal.IsDigit(rest[0])
    requires v.Num? ==> rest[0] != '.' && rest[0] != 'e' && rest[0] != 'E'
    ensures Decode(Encode(v) + rest) == None
  {
    var e := Encode(v);
    var s := e + rest;
    IsAtPrefix(e, rest);
    IsAtFirst(s, 0, e);
    SkipNone(s, 0);
    assert s[|e|] == rest[0];
    ValueRoundTrip(s, 0, v);
    SkipNone(s, |e|);
  }

  /**
    An object `json.loads` returns has each key once, as a Python dict does;
    which place and which value a repeated key keeps is stated of
    `FromPairs` (`Dict.FromPairsOrder`, `Dict.FromPairsLast`).
   */
  lemma {:induction false} DecodedObjectDistinct(s: string)
    ensures Decode(s).Some? && Decode(s).value.Obj? ==> DistinctKeys(Decode(s).value.members)
  {
    var p := SkipWs(s, 0);
    if p < |s| {
      assert ParseValue(s, p) == ParseValueAt(s, p);
      if s[p] == '{' {
        var q := SkipWs(s, p + 1);
        assert ParseValueAt(s, p) == ParseObject(s, p);
        if !(q < |s| && s[q] == '}') {
          match ParseMembers(s, q)
          case Some(t) => FromPairsDistinct(t.0);
          case None =>
        }
      } else if s[p] == '[' {
        assert ParseArray(s, p).Some? ==> ParseArray(s, p).value.0.Arr?;
      }
    }
  }

  // ---------------------------------------------------------------- printable ASCII

  /** Every character of `t` is printable ASCII. */
  predicate AllPrintable(t: string) {
    forall i | 0 <= i < |t| :: IsPrintable(t[i])
  }

  lemma {:induction false} PrintableConcat(a: string, b: string)
    requires AllPrintable(a) && AllPrintable(b)
    ensures AllPrintable(a + b)
  {
    forall i | 0 <= i < |a + b| ensures IsPrintable((a + b)[i]) {
      if i < |a| {
        assert (a + b)[i] == a[i];
      } else {
        assert (a + b)[i] == b[i - |a|];
      }
    }
  }

  /**
    `json.dumps` writes only printable ASCII: every other character of a
    string becomes an escape. So a record or an index line holds no line
    break, and it has as many bytes as characters.
   */
  lemma {:induction false} EncodePrintable(v: Value)
    ensures AllPrintable(Encode(v))
    decreases v, 0
  {
    match v
    case Null =>
    case Bool(b) =>
    case Num(n) =>
      FormatIntPrintable(n);
    case Str(t) =>
      QuotePrintable(t);
    case Arr(xs) =>
      ItemsPrintable(xs);
      PrintableConcat(EncodeItems(xs), "]");
      PrintableConcat("[", EncodeItems(xs) + "]");
    case Obj(ms) =>
      MembersPrintable(ms);
      PrintableConcat(EncodeMembers(ms), "}");
      PrintableConcat("{", EncodeMembers(ms) + "}");
  }

  lemma {:induction false} FormatIntPrintable(n: int)
    ensures AllPrintable(FormatInt(n))
  {
    var d := Decimal.Format(if n < 0 then -n else n);
    assert AllPrintable(d) by {
      forall i | 0 <= i < |d| ensures IsPrintable(d[i]) {
        assert Decimal.IsDigit(d[i]);
      }
    }
    if n < 0 {
      PrintableConcat("-", d);
    }
  }

  lemma {:induction false} EscapePrintable(t: string)
    ensures AllPrintable(Escape(t))
    decreases |t|
  {
    if |t| > 0 {
      EscapePrintable(t[1..]);
      PrintableConcat(EscapeChar(t[0]), Escape(t[1..]));
      assert Escape(t) == EscapeChar(t[0]) + Escape(t[1..]);
    }
  }

  lemma {:induction false} QuotePrintable(t: string)
    ensures AllPrintable(Quote(t))
  {
    EscapePrintable(t);
    PrintableConcat(Escape(t), "\"");
    PrintableConcat("\"", Escape(t) + "\"");
  }

  lemma {:induction false} ItemsPrintable(xs: seq<Value>)
    ensures AllPrintable(EncodeItems(xs))
    decreases xs, 1
  {
    if |xs| > 1 {
      EncodePrintable(xs[0]);
      ItemsPrintable(xs[1..]);
      PrintableConcat(", ", EncodeItems(xs[1..]));
      PrintableConcat(Encode(xs[0]), ", " + EncodeItems(xs[1..]));
    } else if |xs| == 1 {
      EncodePrintable(xs[0]);
    }
  }

  lemma {:induction false} MemberPrintable(m: (string, Value))
    ensures AllPrintable(EncodeMember(m.0, m.1))
    decreases m, 1
  {
    QuotePrintable(m.0);
    EncodePrintable(m.1);
    PrintableConcat(": ", Encode(m.1));
    PrintableConcat(Quote(m.0), ": " + Encode(m.1));
  }

  lemma {:induction false} MembersPrintable(ms: Dict<Value>)
    ensures AllPrintable(EncodeMembers(ms))
    decreases ms, 2
  {
    if |ms| > 0 {
      MemberPrintable(ms[0]);
      if |ms| > 1 {
        MembersPrintable(ms[1..]);
        PrintableConcat(", ", EncodeMembers(ms[1..]));
        PrintableConcat(EncodeMember(ms[0].0, ms[0].1), ", " + EncodeMembers(ms[1..]));
      }
    }
  }

  /** `json.dumps` never writes a line break: inside strings it becomes the escape `\n`. */
  lemma {:induction false} EncodeOneLine(v: Value)
    ensures '\n' !in Encode(v)
  {
    EncodePrintable(v);
    var e := Encode(v);
    assert forall i | 0 <= i < |e| :: e[i] != '\n';
  }
}
