/**
 * The part of Android's `org.json` that the stores rely on: values,
 * insertion-ordered objects, `toString()` (through `JSONStringer`), the
 * `JSONTokener` that `JSONObject(String)` and `JSONArray(String)` use, and
 * the `get`/`opt` accessors with their type coercions.
 *
 * A parse result is the value and the text left after it; `None` is a
 * `JSONException` (or any other exception of the parse).
 */
module Json {
  import opened Wrappers
  import Text

  /** A JSON value; numbers are the integers the app stores (`Int` and `Long`). */
  datatype Json =
    | JNull
    | JBool(b: bool)
    | JNumber(n: int)
    | JString(s: string)
    | JArray(items: seq<Json>)
    | JObject(fields: seq<Field>)

  /** One name/value pair of an object; an object lists its pairs in insertion order. */
  datatype Field = Field(key: string, value: Json)

  // ---------------------------------------------------------------------
  // Objects
  // ---------------------------------------------------------------------

  /** The names of an object. */
  function Keys(fs: seq<Field>): set<string> {
    if fs == [] then {} else {fs[0].key} + Keys(fs[1..])
  }

  /** No name occurs twice, as in the map behind `JSONObject`. */
  predicate DistinctKeys(fs: seq<Field>) {
    fs == [] || (fs[0].key !in Keys(fs[1..]) && DistinctKeys(fs[1..]))
  }

  lemma {:induction false} KeysAppend(a: seq<Field>, b: seq<Field>)
    ensures Keys(a + b) == Keys(a) + Keys(b)
    decreases |a|
  {
    if a == [] {
      assert a + b == b;
    } else {
      assert (a + b)[1..] == a[1..] + b;
      KeysAppend(a[1..], b);
    }
  }

  /** `opt(name)`: the value stored under `key`. */
  function Get(fs: seq<Field>, key: string): (r: Option<Json>)
    ensures r.Some? <==> key in Keys(fs)
  {
    if fs == [] then None
    else if fs[0].key == key then Some(fs[0].value)
    else Get(fs[1..], key)
  }

  /** `put(name, value)`: replaces the value of a present key where it stands, or appends a new pair. */
  function Put(fs: seq<Field>, key: string, value: Json): (r: seq<Field>)
    ensures key !in Keys(fs) ==> r == fs + [Field(key, value)]
    ensures key in Keys(fs) ==> |r| == |fs|
    ensures Keys(r) == Keys(fs) + {key}
  {
    if fs == [] then [Field(key, value)]
    else if fs[0].key == key then [Field(key, value)] + fs[1..]
    else
      assert ([fs[0]] + Put(fs[1..], key, value))[1..] == Put(fs[1..], key, value);
      [fs[0]] + Put(fs[1..], key, value)
  }

  /** What was put under a key is what `opt` finds there. */
  lemma {:induction false} GetPut(fs: seq<Field>, key: string, value: Json, other: string)
    ensures Get(Put(fs, key, value), other) == if other == key then Some(value) else Get(fs, other)
    decreases |fs|
  {
    if fs != [] && fs[0].key != key {
      GetPut(fs[1..], key, value, other);
    }
  }

  /** `put` keeps the names of an object distinct. */
  lemma {:induction false} PutDistinct(fs: seq<Field>, key: string, value: Json)
    requires DistinctKeys(fs)
    ensures DistinctKeys(Put(fs, key, value))
    decreases |fs|
  {
    if fs != [] && fs[0].key == key {
      assert ([Field(key, value)] + fs[1..])[1..] == fs[1..];
    } else if fs != [] {
      PutDistinct(fs[1..], key, value);
      assert ([fs[0]] + Put(fs[1..], key, value))[1..] == Put(fs[1..], key, value);
    }
  }

  /** `JSONObject().apply { put(k1, v1); put(k2, v2); ... }`. */
  function PutPairs(fs: seq<Field>, pairs: seq<Field>): seq<Field>
    decreases |pairs|
  {
    if pairs == [] then fs else PutPairs(Put(fs, pairs[0].key, pairs[0].value), pairs[1..])
  }

  /** Putting pairs with new, distinct names appends them in order. */
  lemma {:induction false} PutPairsFresh(fs: seq<Field>, pairs: seq<Field>)
    requires DistinctKeys(pairs) && Keys(fs) !! Keys(pairs)
    ensures PutPairs(fs, pairs) == fs + pairs
    decreases |pairs|
  {
    if pairs == [] {
      assert fs + pairs == fs;
    } else {
      var f := pairs[0];
      assert f.key !in Keys(fs);
      KeysAppend(fs, [f]);
      PutPairsFresh(fs + [f], pairs[1..]);
      ShiftHead(fs, pairs);
    }
  }

  /** Distinct names, stated position by position (as a written-out list of pairs is checked). */
  predicate NamesDistinct(fs: seq<Field>) {
    forall i, j :: 0 <= i < j < |fs| ==> fs[i].key != fs[j].key
  }

  lemma {:induction false} KeysMember(fs: seq<Field>, k: string)
    ensures k in Keys(fs) <==> exists i :: 0 <= i < |fs| && fs[i].key == k
    decreases |fs|
  {
    if fs != [] {
      KeysMember(fs[1..], k);
      if k in Keys(fs[1..]) {
        var i :| 0 <= i < |fs[1..]| && fs[1..][i].key == k;
        assert fs[i + 1].key == k;
      }
      if exists i :: 0 <= i < |fs| && fs[i].key == k {
        var i :| 0 <= i < |fs| && fs[i].key == k;
        if i > 0 {
          assert fs[1..][i - 1].key == k;
        }
      }
    }
  }

  lemma NamesDistinctTail(fs: seq<Field>)
    requires fs != [] && NamesDistinct(fs)
    ensures NamesDistinct(fs[1..])
    ensures fs[0].key !in Keys(fs[1..])
  {
    forall i, j | 0 <= i < j < |fs[1..]| ensures fs[1..][i].key != fs[1..][j].key {
      assert fs[1..][i] == fs[i + 1] && fs[1..][j] == fs[j + 1];
    }
    forall i | 0 <= i < |fs[1..]| ensures fs[1..][i].key != fs[0].key {
      assert fs[1..][i] == fs[i + 1];
    }
    KeysMember(fs[1..], fs[0].key);
  }

  lemma {:induction false} NamesDistinctKeys(fs: seq<Field>)
    requires NamesDistinct(fs)
    ensures DistinctKeys(fs)
    decreases |fs|
  {
    if fs != [] {
      NamesDistinctTail(fs);
      NamesDistinctKeys(fs[1..]);
    }
  }

  /** In an object without repeated names, `opt` finds each pair's own value. */
  lemma {:induction false} GetIndex(fs: seq<Field>, i: nat)
    requires NamesDistinct(fs) && i < |fs|
    ensures Get(fs, fs[i].key) == Some(fs[i].value)
    decreases i
  {
    if i > 0 {
      NamesDistinctTail(fs);
      GetIndex(fs[1..], i - 1);
      assert fs[1..][i - 1] == fs[i];
    }
  }

  // ---------------------------------------------------------------------
  // Well-formed values
  // ---------------------------------------------------------------------

  /**
   * The values `toString()` writes and the tokenizer reads back unchanged:
   * numbers within the `Long` range and objects without a repeated key.
   */
  predicate WellFormed(v: Json)
    decreases v
  {
    match v
    case JNumber(n) => Text.IsInt64(n)
    case JArray(items) => ItemsWellFormed(items)
    case JObject(fs) => DistinctKeys(fs) && FieldsWellFormed(fs)
    case _ => true
  }

  predicate ItemsWellFormed(items: seq<Json>)
    decreases items
  {
    items == [] || (WellFormed(items[0]) && ItemsWellFormed(items[1..]))
  }

  predicate FieldsWellFormed(fs: seq<Field>)
    decreases fs
  {
    fs == [] || (WellFormed(fs[0].value) && FieldsWellFormed(fs[1..]))
  }

  // ---------------------------------------------------------------------
  // Writing: `toString()`
  // ---------------------------------------------------------------------

  /** A lower-case hexadecimal digit, as `%04x` prints it. */
  function HexDigitChar(d: nat): (c: char)
    requires d < 16
    ensures Text.IsHexDigit(c) && Text.HexValue(c) == d
  {
    if d < 10 then ('0' as int + d) as char else ('a' as int + d - 10) as char
  }

  /** How `JSONStringer` writes one character inside a string. */
  function EscapeChar(c: char): string {
    if c == '"' || c == '\\' || c == '/' then ['\\', c]
    else if c == '\t' then "\\t"
    else if c == '\U{8}' then "\\b"
    else if c == '\n' then "\\n"
    else if c == '\r' then "\\r"
    else if c == '\U{C}' then "\\f"
    else if c as int <= 0x1F then "\\u00" + [HexDigitChar(c as int / 16), HexDigitChar(c as int % 16)]
    else [c]
  }

  function Escape(s: string): string {
    if s == [] then "" else EscapeChar(s[0]) + Escape(s[1..])
  }

  /** `JSONObject.quote`: the string in double quotes, escaped. */
  function Quote(s: string): string {
    "\"" + Escape(s) + "\""
  }

  /** `toString()`: the compact text of a value, pairs in insertion order. */
  function Serialize(v: Json): string
    decreases v
  {
    match v
    case JNull => "null"
    case JBool(b) => if b then "true" else "false"
    case JNumber(n) => Text.IntToString(n)
    case JString(s) => Quote(s)
    case JArray(items) => "[" + SerializeItems(items) + "]"
    case JObject(fs) => "{" + SerializeFields(fs) + "}"
  }

  function SerializeItems(items: seq<Json>): string
    decreases items
  {
    if items == [] then ""
    else Serialize(items[0]) + (if |items| == 1 then "" else "," + SerializeItems(items[1..]))
  }

  function SerializeFields(fs: seq<Field>): string
    decreases fs
  {
    if fs == [] then ""
    else
      Quote(fs[0].key) + ":" + Serialize(fs[0].value)
      + (if |fs| == 1 then "" else "," + SerializeFields(fs[1..]))
  }

  // ---------------------------------------------------------------------
  // Reading: `JSONTokener`
  // ---------------------------------------------------------------------

  /** The characters `nextClean` skips. */
  predicate IsCleanSpace(c: char) {
    c == '\t' || c == ' ' || c == '\n' || c == '\r'
  }

  /** `nextClean`: the text from the first character that is not white space. */
  function SkipSpace(s: string): (r: string)
    ensures |r| <= |s|
    ensures r == [] || !IsCleanSpace(r[0])
    ensures s != [] && !IsCleanSpace(s[0]) ==> r == s
  {
    if s != [] && IsCleanSpace(s[0]) then SkipSpace(s[1..]) else s
  }

  /** The characters that end an unquoted literal (`readLiteral`). */
  const LiteralEnd: set<char> := {'{', '}', '[', ']', '/', '\\', ':', ',', '=', ';', '#', ' ', '\t', '\U{C}', '\r', '\n'}

  /** The length of the literal at the start of `s`. */
  function LiteralLength(s: string): (n: nat)
    ensures n <= |s|
    ensures forall k :: 0 <= k < n ==> s[k] !in LiteralEnd
    ensures n == |s| || s[n] in LiteralEnd
  {
    if s == [] || s[0] in LiteralEnd then 0
    else
      var m := LiteralLength(s[1..]);
      assert forall k :: 0 < k < |s| ==> s[k] == s[1..][k - 1];
      m + 1
  }

  /**
   * The value of an unquoted literal: `null`, `true` and `false` in any
   * case, and decimal integers in the `Long` range. Hexadecimal and octal
   * numbers, doubles and bare strings, which the tokenizer also accepts,
   * are refused here.
   */
  function ReadLiteral(lit: string): Option<Json> {
    if lit == [] then None
    else if Text.EqualsIgnoreCase(lit, "null") then Some(JNull)
    else if Text.EqualsIgnoreCase(lit, "true") then Some(JBool(true))
    else if Text.EqualsIgnoreCase(lit, "false") then Some(JBool(false))
    else if Text.StartsWith(lit, "0x") || Text.StartsWith(lit, "0X") || (lit[0] == '0' && |lit| > 1) then None
    else
      match Text.ToLongOrNull(lit)
      case Some(n) => Some(JNumber(n))
      case None => None
  }

  /** The character an escape sequence `\e` stands for (`readEscapeCharacter`). */
  function Unescape(e: char): char {
    if e == 't' then '\t'
    else if e == 'b' then '\U{8}'
    else if e == 'n' then '\n'
    else if e == 'r' then '\r'
    else if e == 'f' then '\U{C}'
    else e
  }

  function Prepend(c: char, r: Option<(string, string)>): Option<(string, string)> {
    match r
    case Some((str, rest)) => Some(([c] + str, rest))
    case None => None
  }

  /** `nextString(quote)`: the string up to the closing quote, and the text after it. */
  function ParseString(s: string, quote: char): (r: Option<(string, string)>)
    ensures r.Some? ==> |r.value.1| < |s|
    decreases |s|
  {
    if s == [] then None
    else if s[0] == quote then Some(("", s[1..]))
    else if s[0] == '\\' then
      if |s| == 1 then None
      else if s[1] == 'u' then
        if |s| < 6 || !Text.AllHex(s[2..6]) then None
        else
          var code := Text.HexNumber(s[2..6]);
          assert Text.HexBound(4) == 65536;
          if 0xD800 <= code < 0xE000 then None else Prepend(code as char, ParseString(s[6..], quote))
      else Prepend(Unescape(s[1]), ParseString(s[2..], quote))
    else Prepend(s[0], ParseString(s[1..], quote))
  }

  /** `nextValue`: the value at the start of `s`, after white space, and the text after it. */
  function ParseValue(s: string): (r: Option<(Json, string)>)
    ensures r.Some? ==> |r.value.1| < |s|
    decreases |s|, 0
  {
    var t := SkipSpace(s);
    if t == [] then None
    else if t[0] == '{' then ParseObject(t[1..])
    else if t[0] == '[' then ParseArray(t[1..], [], false)
    else if t[0] == '"' || t[0] == '\'' then
      match ParseString(t[1..], t[0])
      case Some((str, rest)) => Some((JString(str), rest))
      case None => None
    else
      var n := LiteralLength(t);
      match ReadLiteral(t[..n])
      case Some(v) => if n == 0 then None else Some((v, t[n..]))
      case None => None
  }

  /**
   * `readArray` after the `[`: elements separated by `,` or `;`; a
   * separator with no value before it, or a trailing one, stands for `null`.
   */
  function ParseArray(s: string, acc: seq<Json>, trailing: bool): (r: Option<(Json, string)>)
    ensures r.Some? ==> |r.value.1| < |s|
    decreases |s|, 1
  {
    var t := SkipSpace(s);
    if t == [] then None
    else if t[0] == ']' then Some((JArray(if trailing then acc + [JNull] else acc), t[1..]))
    else if t[0] == ',' || t[0] == ';' then ParseArray(t[1..], acc + [JNull], true)
    else
      match ParseValue(t)
      case None => None
      case Some((v, u)) => ArrayAfter(acc + [v], SkipSpace(u))
  }

  /** What `readArray` accepts after an element: the closing `]`, or a separator and more. */
  function ArrayAfter(acc: seq<Json>, w: string): (r: Option<(Json, string)>)
    ensures r.Some? ==> |r.value.1| < |w|
    decreases |w|, 1
  {
    if w == [] then None
    else if w[0] == ']' then Some((JArray(acc), w[1..]))
    else if w[0] == ',' || w[0] == ';' then ParseArray(w[1..], acc, true)
    else None
  }

  /** `readObject` after the `{`. */
  function ParseObject(s: string): (r: Option<(Json, string)>)
    ensures r.Some? ==> |r.value.1| < |s|
    decreases |s|, 2
  {
    var t := SkipSpace(s);
    if t != [] && t[0] == '}' then Some((JObject([]), t[1..])) else ParseMembers(t, [])
  }

  /**
   * The pairs of `readObject`: a string name, `:` or `=` (optionally
   * followed by `>`), a value, then `}` or a `,`/`;` before the next pair.
   * A repeated name replaces the earlier value where it stands.
   */
  function ParseMembers(s: string, acc: seq<Field>): (r: Option<(Json, string)>)
    ensures r.Some? ==> |r.value.1| < |s|
    decreases |s|, 1
  {
    match ParseValue(s)
    case Some((JString(name), u)) =>
      var w := SkipSpace(u);
      if w == [] || (w[0] != ':' && w[0] != '=') then None
      else ParseMember(name, if |w| > 1 && w[1] == '>' then w[2..] else w[1..], acc)
    case _ => None
  }

  /** The value of the pair named `name`, which it puts into the object read so far. */
  function ParseMember(name: string, x: string, acc: seq<Field>): (r: Option<(Json, string)>)
    ensures r.Some? ==> |r.value.1| < |x|
    decreases |x|, 1
  {
    match ParseValue(x)
    case None => None
    case Some((v, y)) => MembersAfter(Put(acc, name, v), SkipSpace(y))
  }

  /** What `readObject` accepts after a pair: the closing `}`, or a separator and more pairs. */
  function MembersAfter(fields: seq<Field>, z: string): (r: Option<(Json, string)>)
    ensures r.Some? ==> |r.value.1| < |z|
    decreases |z|, 1
  {
    if z == [] then None
    else if z[0] == '}' then Some((JObject(fields), z[1..]))
    else if z[0] == ',' || z[0] == ';' then ParseMembers(z[1..], fields)
    else None
  }

  /** `JSONObject(String)`: the text must start with an object; what follows it is ignored. */
  function ParseObjectText(s: string): Option<seq<Field>> {
    match ParseValue(s)
    case Some((JObject(fs), _)) => Some(fs)
    case _ => None
  }

  /** `JSONArray(String)`: the text must start with an array; what follows it is ignored. */
  function ParseArrayText(s: string): Option<seq<Json>> {
    match ParseValue(s)
    case Some((JArray(items), _)) => Some(items)
    case _ => None
  }

  // ---------------------------------------------------------------------
  // Accessors
  // ---------------------------------------------------------------------

  /** `JSON.toString`: a string as it is, anything else as its `toString()` (`null` reads `"null"`). */
  function AsString(v: Json): string {
    if v.JString? then v.s else Serialize(v)
  }

  /** A string that `Double.parseDouble` reads as an integer exactly: decimal digits, at most 2^53. */
  function NumericString(s: string): (r: Option<int>)
    ensures r.Some? ==> -0x20_0000_0000_0000 <= r.value <= 0x20_0000_0000_0000
  {
    match Text.ParseDecimal(s)
    case Some(n) => if -0x20_0000_0000_0000 <= n <= 0x20_0000_0000_0000 then Some(n) else None
    case None => None
  }

  /** `JSON.toLong`: a number, or a numeric string. */
  function AsLong(v: Json): Option<int> {
    match v
    case JNumber(n) => Some(n)
    case JString(s) => NumericString(s)
    case _ => None
  }

  /** `JSON.toInteger`: `intValue()` of a number (two's-complement truncation), or a numeric string clamped to `Int`. */
  function AsInt(v: Json): (r: Option<int>)
    ensures r.Some? ==> Text.IsInt32(r.value)
  {
    match v
    case JNumber(n) => Some(Text.WrapInt32(n))
    case JString(s) =>
      (match NumericString(s)
       case Some(n) => Some(if n > 0x7FFF_FFFF then 0x7FFF_FFFF else if n < -0x8000_0000 then -0x8000_0000 else n)
       case None => None)
    case _ => None
  }

  /** `JSON.toBoolean`: a boolean, or `"true"`/`"false"` in any case. */
  function AsBoolean(v: Json): Option<bool> {
    match v
    case JBool(b) => Some(b)
    case JString(s) =>
      if Text.EqualsIgnoreCase(s, "true") then Some(true)
      else if Text.EqualsIgnoreCase(s, "false") then Some(false)
      else None
    case _ => None
  }

  /** `has(name)`. */
  predicate Has(fs: seq<Field>, key: string) {
    Get(fs, key).Some?
  }

  /** `isNull(name)`: absent, or the `null` value. */
  predicate IsNull(fs: seq<Field>, key: string) {
    Get(fs, key).None? || Get(fs, key) == Some(JNull)
  }

  /** `getString(name)`; `None` is the exception for a missing key. */
  function GetString(fs: seq<Field>, key: string): Option<string> {
    match Get(fs, key)
    case Some(v) => Some(AsString(v))
    case None => None
  }

  /** `optString(name, fallback)`; `optString(name)` has the fallback `""`. */
  function OptString(fs: seq<Field>, key: string, fallback: string): string {
    match Get(fs, key)
    case Some(v) => AsString(v)
    case None => fallback
  }

  /** `getLong(name)`; `None` is the exception for a missing key or a value that is not a number. */
  function GetLong(fs: seq<Field>, key: string): Option<int> {
    match Get(fs, key)
    case Some(v) => AsLong(v)
    case None => None
  }

  /** `optLong(name)`, whose fallback is `0`. */
  function OptLong(fs: seq<Field>, key: string): int {
    match Get(fs, key)
    case Some(v) => AsLong(v).GetOr(0)
    case None => 0
  }

  /** `optInt(name, fallback)`. */
  function OptInt(fs: seq<Field>, key: string, fallback: int): (r: int)
    ensures Text.IsInt32(fallback) ==> Text.IsInt32(r)
  {
    match Get(fs, key)
    case Some(v) => AsInt(v).GetOr(fallback)
    case None => fallback
  }

  /** `optBoolean(name, fallback)`. */
  function OptBoolean(fs: seq<Field>, key: string, fallback: bool): bool {
    match Get(fs, key)
    case Some(v) => AsBoolean(v).GetOr(fallback)
    case None => fallback
  }

  /** `optJSONObject(name)`: the pairs of a nested object, if the value is one. */
  function OptObject(fs: seq<Field>, key: string): Option<seq<Field>> {
    match Get(fs, key)
    case Some(JObject(inner)) => Some(inner)
    case _ => None
  }

  /** `JSONArray.optJSONObject(index)`. */
  function OptObjectAt(items: seq<Json>, i: nat): Option<seq<Field>> {
    if i < |items| && items[i].JObject? then Some(items[i].fields) else None
  }

  // ---------------------------------------------------------------------
  // Reading back what was written
  // ---------------------------------------------------------------------

  /** Text after which a literal ends: nothing, or a character of `LiteralEnd`. */
  predicate EndsLiteral(rest: string) {
    rest == [] || rest[0] in LiteralEnd
  }

  /** Characters for which `readLiteral` stops nowhere inside `lit` and right after it. */
  lemma {:induction false} LiteralSpan(lit: string, rest: string)
    requires forall k :: 0 <= k < |lit| ==> lit[k] !in LiteralEnd
    requires EndsLiteral(rest)
    ensures LiteralLength(lit + rest) == |lit|
    decreases |lit|
  {
    if lit == [] {
      assert lit + rest == rest;
    } else {
      assert (lit + rest)[0] == lit[0];
      assert (lit + rest)[1..] == lit[1..] + rest;
      LiteralSpan(lit[1..], rest);
    }
  }

  /** Decimal text starts with `0` only for zero itself. */
  lemma {:induction false} LeadingZero(n: nat)
    ensures Text.NatToString(n)[0] == '0' <==> n == 0
  {
    if n >= 10 {
      LeadingZero(n / 10);
      assert Text.NatToString(n)[0] == Text.NatToString(n / 10)[0];
    }
  }

  /** The first character of a serialised value, which tells the tokenizer what follows. */
  lemma SerializeStart(v: Json)
    ensures |Serialize(v)| > 0
    ensures var c := Serialize(v)[0];
      !IsCleanSpace(c) && c != ']' && c != '}' && c != ',' && c != ';' && c != '>'
      && (v.JNumber? ==> c == '-' || Text.IsDigit(c))
  {
    if v.JNumber? {
      var n := v.n;
      if n < 0 {
        assert Serialize(v)[0] == '-';
      } else {
        assert Serialize(v)[0] == Text.NatToString(n)[0];
      }
    }
  }

  /** An unquoted literal reads back as its value, and the text after it is left alone. */
  lemma LiteralRoundTrip(lit: string, v: Json, rest: string)
    requires lit != [] && !IsCleanSpace(lit[0]) && lit[0] !in {'{', '[', '"', '\''}
    requires forall k :: 0 <= k < |lit| ==> lit[k] !in LiteralEnd
    requires ReadLiteral(lit) == Some(v)
    requires EndsLiteral(rest)
    ensures ParseValue(lit + rest) == Some((v, rest))
  {
    var s := lit + rest;
    LiteralSpan(lit, rest);
    assert s[0] == lit[0];
    assert SkipSpace(s) == s;
    assert s[..|lit|] == lit && s[|lit|..] == rest;
  }

  /** The text of an integer in the `Long` range is a literal of that integer. */
  lemma NumberLiteral(n: int)
    requires Text.IsInt64(n)
    ensures ReadLiteral(Text.IntToString(n)) == Some(JNumber(n))
  {
    var lit := Text.IntToString(n);
    SerializeStart(JNumber(n));
    assert Text.Lower(lit)[0] == lit[0];
    assert Text.Lower("null")[0] == 'n' && Text.Lower("true")[0] == 't' && Text.Lower("false")[0] == 'f';
    assert !(lit[0] == '0' && |lit| > 1) by {
      if n >= 0 {
        LeadingZero(n);
        if n == 0 {
          assert lit == "0";
        }
      }
    }
    Text.IntToStringRoundTrip(n);
  }

  /** An integer's text reads back as that integer. */
  lemma NumberRoundTrip(n: int, rest: string)
    requires Text.IsInt64(n) && EndsLiteral(rest)
    ensures ParseValue(Text.IntToString(n) + rest) == Some((JNumber(n), rest))
  {
    var lit := Text.IntToString(n);
    SerializeStart(JNumber(n));
    assert forall k :: 0 <= k < |lit| ==> lit[k] == '-' || Text.IsDigit(lit[k]) by {
      if n < 0 {
        assert forall k :: 0 < k < |lit| ==> lit[k] == Text.NatToString(-n)[k - 1];
      }
    }
    NumberLiteral(n);
    LiteralRoundTrip(lit, JNumber(n), rest);
  }

  /** `null`, `true` and `false` read back as themselves. */
  lemma KeywordRoundTrip(v: Json, rest: string)
    requires v.JNull? || v.JBool?
    requires EndsLiteral(rest)
    ensures ParseValue(Serialize(v) + rest) == Some((v, rest))
  {
    assert Text.Lower("null") == "null" && Text.Lower("true") == "true" && Text.Lower("false") == "false";
    LiteralRoundTrip(Serialize(v), v, rest);
  }

  /** One written character reads back as itself, before whatever follows. */
  lemma EscapeCharRoundTrip(c: char, tail: string)
    ensures ParseString(EscapeChar(c) + tail, '"') == Prepend(c, ParseString(tail, '"'))
  {
    var s := EscapeChar(c) + tail;
    if c == '"' || c == '\\' || c == '/' || c == '\t' || c == '\U{8}' || c == '\n' || c == '\r' || c == '\U{C}' {
      assert s[0] == '\\' && s[2..] == tail;
    } else if c as int <= 0x1F {
      var hi, lo := c as int / 16, c as int % 16;
      var digits := "00" + [HexDigitChar(hi), HexDigitChar(lo)];
      assert s[0] == '\\' && s[1] == 'u' && s[2..6] == digits && s[6..] == tail;
      assert Text.HexNumber(digits) == c as int by {
        assert digits[..3][..2][..1][..0] == [];
        assert Text.HexNumber(digits[..3][..2][..1]) == 0;
        assert Text.HexNumber(digits[..3][..2]) == 0;
        assert Text.HexNumber(digits[..3]) == hi;
      }
    } else {
      assert s[0] == c && s[1..] == tail;
    }
  }

  lemma {:induction false} EscapeRoundTrip(str: string, rest: string)
    ensures ParseString(Escape(str) + "\"" + rest, '"') == Some((str, rest))
    decreases |str|
  {
    if str == [] {
      assert Escape(str) + "\"" + rest == "\"" + rest;
    } else {
      var tail := Escape(str[1..]) + "\"" + rest;
      assert Escape(str) + "\"" + rest == EscapeChar(str[0]) + tail;
      EscapeCharRoundTrip(str[0], tail);
      EscapeRoundTrip(str[1..], rest);
      assert [str[0]] + str[1..] == str;
    }
  }

  /** A quoted string reads back as that string. */
  lemma StringRoundTrip(str: string, rest: string)
    ensures ParseValue(Quote(str) + rest) == Some((JString(str), rest))
  {
    var s := Quote(str) + rest;
    assert SkipSpace(s) == s;
    assert s[1..] == Escape(str) + "\"" + rest;
    EscapeRoundTrip(str, rest);
  }

  /**
   * What `toString()` writes, the tokenizer reads back: the same value,
   * and the text that follows it untouched.
   */
  lemma {:induction false} SerializeRoundTrip(v: Json, rest: string)
    requires WellFormed(v) && EndsLiteral(rest)
    ensures ParseValue(Serialize(v) + rest) == Some((v, rest))
    decreases v, 2
  {
    match v
    case JNull => KeywordRoundTrip(v, rest);
    case JBool(_) => KeywordRoundTrip(v, rest);
    case JNumber(n) => NumberRoundTrip(n, rest);
    case JString(str) => StringRoundTrip(str, rest);
    case JArray(items) => ArrayRoundTrip(items, rest);
    case JObject(fs) => ObjectRoundTrip(fs, rest);
  }

  lemma {:induction false} ArrayRoundTrip(items: seq<Json>, rest: string)
    requires ItemsWellFormed(items)
    ensures ParseValue(Serialize(JArray(items)) + rest) == Some((JArray(items), rest))
    decreases items, 3
  {
    var s := Serialize(JArray(items)) + rest;
    assert s == "[" + (SerializeItems(items) + "]" + rest);
    assert SkipSpace(s) == s;
    if items == [] {
      assert SerializeItems(items) + "]" + rest == "]" + rest;
    } else {
      ItemsRoundTrip(items, [], false, rest);
      assert [] + items == items;
    }
  }

  lemma {:induction false} ObjectRoundTrip(fs: seq<Field>, rest: string)
    requires DistinctKeys(fs) && FieldsWellFormed(fs)
    ensures ParseValue(Serialize(JObject(fs)) + rest) == Some((JObject(fs), rest))
    decreases fs, 3
  {
    var s := Serialize(JObject(fs)) + rest;
    assert s == "{" + (SerializeFields(fs) + "}" + rest);
    assert SkipSpace(s) == s;
    if fs == [] {
      assert SerializeFields(fs) + "}" + rest == "}" + rest;
    } else {
      SerializeFieldsStart(fs);
      FieldsRoundTrip(fs, [], rest);
      assert [] + fs == fs;
    }
  }

  /** One element of an array and the `]` or `,` after it. */
  lemma ItemStep(text: string, v: Json, after: string, acc: seq<Json>, trailing: bool)
    requires text != [] && !IsCleanSpace(text[0]) && text[0] != ']' && text[0] != ',' && text[0] != ';'
    requires ParseValue(text + after) == Some((v, after))
    requires after != [] && (after[0] == ']' || after[0] == ',')
    ensures ParseArray(text + after, acc, trailing) == ArrayAfter(acc + [v], after)
  {
    assert (text + after)[0] == text[0];
    assert SkipSpace(text + after) == text + after;
    assert SkipSpace(after) == after;
  }

  /** Moving the first element of `s` onto `a` keeps the concatenation. */
  lemma ShiftHead<T>(a: seq<T>, s: seq<T>)
    requires s != []
    ensures a + [s[0]] + s[1..] == a + s
  {
    assert [s[0]] + s[1..] == s;
  }

  /** A written element, then the `]` or `,` after it. */
  lemma {:induction false} ItemHead(v: Json, after: string, acc: seq<Json>, trailing: bool)
    requires WellFormed(v)
    requires after != [] && (after[0] == ']' || after[0] == ',')
    ensures ParseArray(Serialize(v) + after, acc, trailing) == ArrayAfter(acc + [v], after)
    decreases v, 3
  {
    SerializeStart(v);
    SerializeRoundTrip(v, after);
    ItemStep(Serialize(v), v, after, acc, trailing);
  }

  /** The first element of a written array, read onto what was read before. */
  lemma {:induction false} ItemsHead(items: seq<Json>, acc: seq<Json>, trailing: bool, rest: string)
    requires items != [] && WellFormed(items[0])
    ensures ParseArray(SerializeItems(items) + "]" + rest, acc, trailing)
      == if |items| == 1 then Some((JArray(acc + items), rest))
         else ParseArray(SerializeItems(items[1..]) + "]" + rest, acc + [items[0]], true)
    decreases items, 1
  {
    var acc1 := acc + [items[0]];
    if |items| == 1 {
      var after := "]" + rest;
      assert SerializeItems(items) + "]" + rest == Serialize(items[0]) + after;
      ItemHead(items[0], after, acc, trailing);
      assert ArrayAfter(acc1, after) == Some((JArray(acc1), rest));
      assert acc1 == acc + items;
    } else {
      var more := SerializeItems(items[1..]) + "]" + rest;
      var after := "," + more;
      assert SerializeItems(items) + "]" + rest == Serialize(items[0]) + after;
      ItemHead(items[0], after, acc, trailing);
      assert ArrayAfter(acc1, after) == ParseArray(more, acc1, true);
    }
  }

  /** The elements of an array, then its `]`, read back onto what was read before. */
  lemma {:induction false} ItemsRoundTrip(items: seq<Json>, acc: seq<Json>, trailing: bool, rest: string)
    requires items != [] && ItemsWellFormed(items)
    ensures ParseArray(SerializeItems(items) + "]" + rest, acc, trailing) == Some((JArray(acc + items), rest))
    decreases items, 2
  {
    ItemsHead(items, acc, trailing, rest);
    if |items| > 1 {
      ItemsRoundTrip(items[1..], acc + [items[0]], true, rest);
      ShiftHead(acc, items);
    }
  }

  /** A serialised member list starts with the quote of its first name. */
  lemma SerializeFieldsStart(fs: seq<Field>)
    requires fs != []
    ensures SerializeFields(fs)[0] == '"'
  {
  }

  /** A quoted name and a `:` lead to the value of the pair. */
  lemma MemberName(key: string, x: string, acc: seq<Field>)
    requires x != [] && x[0] != '>'
    ensures ParseMembers(Quote(key) + ":" + x, acc) == ParseMember(key, x, acc)
  {
    var afterName := ":" + x;
    assert Quote(key) + ":" + x == Quote(key) + afterName;
    StringRoundTrip(key, afterName);
    assert SkipSpace(afterName) == afterName;
    assert afterName[1..] == x;
  }

  /** One pair of an object and the `}` or `,` after it. */
  lemma MemberStep(key: string, text: string, v: Json, after: string, acc: seq<Field>)
    requires text != [] && !IsCleanSpace(text[0]) && text[0] != '>'
    requires ParseValue(text + after) == Some((v, after))
    requires after != [] && (after[0] == '}' || after[0] == ',')
    ensures ParseMembers(Quote(key) + ":" + text + after, acc) == MembersAfter(Put(acc, key, v), after)
  {
    assert (text + after)[0] == text[0];
    MemberName(key, text + after, acc);
    assert Quote(key) + ":" + text + after == Quote(key) + ":" + (text + after);
    assert SkipSpace(after) == after;
  }

  /** A written pair, then the `}` or `,` after it. */
  lemma {:induction false} FieldHead(f: Field, after: string, acc: seq<Field>)
    requires WellFormed(f.value) && f.key !in Keys(acc)
    requires after != [] && (after[0] == '}' || after[0] == ',')
    ensures ParseMembers(Quote(f.key) + ":" + Serialize(f.value) + after, acc) == MembersAfter(acc + [f], after)
    decreases f, 0
  {
    assert Put(acc, f.key, f.value) == acc + [f];
    SerializeStart(f.value);
    SerializeRoundTrip(f.value, after);
    MemberStep(f.key, Serialize(f.value), f.value, after, acc);
  }

  /** The first pair of a written object, read after pairs with other names. */
  lemma {:induction false} FieldsHead(fs: seq<Field>, acc: seq<Field>, rest: string)
    requires fs != [] && WellFormed(fs[0].value) && fs[0].key !in Keys(acc)
    ensures ParseMembers(SerializeFields(fs) + "}" + rest, acc)
      == if |fs| == 1 then Some((JObject(acc + fs), rest))
         else ParseMembers(SerializeFields(fs[1..]) + "}" + rest, acc + [fs[0]])
    decreases fs, 1
  {
    var f := fs[0];
    var acc1 := acc + [f];
    if |fs| == 1 {
      var after := "}" + rest;
      assert SerializeFields(fs) + "}" + rest == Quote(f.key) + ":" + Serialize(f.value) + after;
      FieldHead(f, after, acc);
      assert MembersAfter(acc1, after) == Some((JObject(acc1), rest));
      assert acc1 == acc + fs;
    } else {
      var more := SerializeFields(fs[1..]) + "}" + rest;
      var after := "," + more;
      assert SerializeFields(fs) + "}" + rest == Quote(f.key) + ":" + Serialize(f.value) + after;
      FieldHead(f, after, acc);
      assert MembersAfter(acc1, after) == ParseMembers(more, acc1);
    }
  }

  /** The pairs of an object, then its `}`, read back after pairs with other names. */
  lemma {:induction false} FieldsRoundTrip(fs: seq<Field>, acc: seq<Field>, rest: string)
    requires fs != [] && DistinctKeys(fs) && FieldsWellFormed(fs)
    requires Keys(acc) !! Keys(fs)
    ensures ParseMembers(SerializeFields(fs) + "}" + rest, acc) == Some((JObject(acc + fs), rest))
    decreases fs, 2
  {
    FieldsHead(fs, acc, rest);
    if |fs| > 1 {
      SerializeFieldsStart(fs[1..]);
      KeysAppend(acc, [fs[0]]);
      FieldsRoundTrip(fs[1..], acc + [fs[0]], rest);
      ShiftHead(acc, fs);
    }
  }

  lemma {:induction false} AllItemsWellFormed(items: seq<Json>)
    requires forall i :: 0 <= i < |items| ==> WellFormed(items[i])
    ensures ItemsWellFormed(items)
    decreases |items|
  {
    if items != [] {
      forall i | 0 <= i < |items[1..]| ensures WellFormed(items[1..][i]) {
        assert items[1..][i] == items[i + 1];
      }
      AllItemsWellFormed(items[1..]);
    }
  }

  lemma {:induction false} AllFieldsWellFormed(fs: seq<Field>)
    requires forall i :: 0 <= i < |fs| ==> WellFormed(fs[i].value)
    ensures FieldsWellFormed(fs)
    decreases |fs|
  {
    if fs != [] {
      forall i | 0 <= i < |fs[1..]| ensures WellFormed(fs[1..][i].value) {
        assert fs[1..][i] == fs[i + 1];
      }
      AllFieldsWellFormed(fs[1..]);
    }
  }

  /** `JSONObject(obj.toString())` has the pairs of `obj`, in order. */
  lemma ObjectTextRoundTrip(fs: seq<Field>)
    requires WellFormed(JObject(fs))
    ensures ParseObjectText(Serialize(JObject(fs))) == Some(fs)
  {
    SerializeRoundTrip(JObject(fs), "");
    assert Serialize(JObject(fs)) + "" == Serialize(JObject(fs));
  }

  /** `JSONArray(arr.toString())` has the elements of `arr`, in order. */
  lemma ArrayTextRoundTrip(items: seq<Json>)
    requires WellFormed(JArray(items))
    ensures ParseArrayText(Serialize(JArray(items))) == Some(items)
  {
    SerializeRoundTrip(JArray(items), "");
    assert Serialize(JArray(items)) + "" == Serialize(JArray(items));
  }

  /**
   * An object built by putting pairs with distinct names, then written out,
   * reads back as exactly those pairs.
   */
  lemma BuiltObjectRoundTrip(fs: seq<Field>)
    requires DistinctKeys(fs) && FieldsWellFormed(fs)
    ensures PutPairs([], fs) == fs
    ensures ParseObjectText(Serialize(JObject(PutPairs([], fs)))) == Some(fs)
  {
    PutPairsFresh([], fs);
    assert [] + fs == fs;
    ObjectTextRoundTrip(fs);
  }
}
