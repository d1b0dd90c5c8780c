/**
 * The IRC wire parser: one raw line (without CR LF) becomes an `IrcMessage`
 * holding IRCv3 message tags, the optional prefix, the command, the middle
 * parameters and the optional trailing parameter, following the message
 * grammar of section 2.3.1 of RFC 1459 / RFC 2812 with the IRCv3 Message
 * Tags extension.
 *
 * `Parse`, `ParseTags` and `UnescapeTagValue` walk an index through the line
 * as the client does; each is proved equal to a specification function
 * (`ParsedLine`, `ParsedTags`, `Unescaped`), and the properties of the
 * grammar are lemmas about those functions.
 */
module IrcParser {
  import opened Wrappers
  import opened Text

  datatype IrcMessage = IrcMessage(
    raw: string,
    tags: map<string, string>,
    prefix: Option<string>,
    command: string,
    params: seq<string>,
    trailing: Option<string>)

  // ---------------------------------------------------------------------
  // Specification of the grammar
  // ---------------------------------------------------------------------

  /** The first index at or after `i` that is not a space (only ' ' counts). */
  function SkipSpaces(s: string, i: nat): (j: nat)
    requires i <= |s|
    ensures i <= j <= |s|
    ensures j == |s| || s[j] != ' '
    decreases |s| - i
  {
    if i < |s| && s[i] == ' ' then SkipSpaces(s, i + 1) else i
  }

  /** The first index at or after `i` that holds a space, or `|s|`. */
  function TokenEnd(s: string, i: nat): (j: nat)
    requires i <= |s|
    ensures i <= j <= |s|
    ensures j == |s| || s[j] == ' '
    decreases |s| - i
  {
    if i < |s| && s[i] != ' ' then TokenEnd(s, i + 1) else i
  }

  /** Everything `SkipSpaces` steps over is a space. */
  lemma {:induction false} SkipSpacesSpan(s: string, i: nat)
    requires i <= |s|
    ensures forall k :: i <= k < SkipSpaces(s, i) ==> s[k] == ' '
    decreases |s| - i
  {
    if i < |s| && s[i] == ' ' {
      SkipSpacesSpan(s, i + 1);
    }
  }

  /** Everything `TokenEnd` steps over is a non-space. */
  lemma {:induction false} TokenEndSpan(s: string, i: nat)
    requires i <= |s|
    ensures forall k :: i <= k < TokenEnd(s, i) ==> s[k] != ' '
    decreases |s| - i
  {
    if i < |s| && s[i] != ' ' {
      TokenEndSpan(s, i + 1);
    }
  }

  /** A run of non-spaces from `i` to a space (or the end) at `j` is a token ending at `j`. */
  lemma {:induction false} TokenEndAt(s: string, i: nat, j: nat)
    requires i <= j <= |s|
    requires forall k :: i <= k < j ==> s[k] != ' '
    requires j == |s| || s[j] == ' '
    ensures TokenEnd(s, i) == j
    decreases j - i
  {
    if i < j {
      TokenEndAt(s, i + 1, j);
    }
  }

  /** Only spaces from `i` to the end: nothing is left after skipping them. */
  lemma {:induction false} SkipSpacesToEnd(s: string, i: nat)
    requires i <= |s|
    requires forall k :: i <= k < |s| ==> s[k] == ' '
    ensures SkipSpaces(s, i) == |s|
    decreases |s| - i
  {
    if i < |s| {
      SkipSpacesToEnd(s, i + 1);
    }
  }

  /** `s.indexOf(' ', i)`, with None for -1. */
  function SpaceFrom(s: string, i: nat): Option<nat>
    requires i <= |s|
  {
    var e := TokenEnd(s, i);
    if e < |s| then Some(e) else None
  }

  /**
   * Middle parameters and trailing parameter of the text from index `i` on:
   * runs of spaces separate tokens, and a token starting with ':' opens the
   * trailing parameter, which is the rest of the line taken verbatim.
   */
  function ParamsFrom(s: string, i: nat): (seq<string>, Option<string>)
    requires i <= |s|
    decreases |s| - i
  {
    var j := SkipSpaces(s, i);
    if j == |s| then ([], None)
    else if s[j] == ':' then ([], Some(s[j + 1..]))
    else
      var e := TokenEnd(s, j);
      var rest := ParamsFrom(s, e);
      ([s[j..e]] + rest.0, rest.1)
  }

  /** The tag section `@tags ` must be closed by a space; the index is where the rest begins. */
  function TagSection(line: string): (r: Option<(map<string, string>, nat)>)
    ensures r.Some? ==> r.value.1 <= |line|
  {
    if line != [] && line[0] == '@' then
      match SpaceFrom(line, 0)
      case None => None
      case Some(e) => Some((ParsedTags(line[1..e]), e + 1))
    else Some((map[], 0))
  }

  /** The prefix section `:prefix ` must be closed by a space; the index is where the rest begins. */
  function PrefixSection(line: string, i: nat): (r: Option<(Option<string>, nat)>)
    requires i <= |line|
    ensures r.Some? ==> i <= r.value.1 <= |line|
  {
    if i < |line| && line[i] == ':' then
      match SpaceFrom(line, i)
      case None => None
      case Some(e) => Some((Some(line[i + 1..e]), e + 1))
    else Some((None, i))
  }

  /** The message a line parses to, or None for a malformed line. */
  function ParsedLine(line: string): Option<IrcMessage> {
    match TagSection(line)
    case None => None
    case Some((tags, i1)) => AfterTags(line, tags, i1)
  }

  /** The rest of the parse once the tags are read and the rest begins at `i1`. */
  function AfterTags(line: string, tags: map<string, string>, i1: nat): Option<IrcMessage>
    requires i1 <= |line|
  {
    match PrefixSection(line, i1)
    case None => None
    case Some((prefix, i2)) => AfterPrefix(line, tags, prefix, i2)
  }

  /** The rest of the parse once the prefix is read: the command from after the spaces at `i2`, then the parameters. */
  function AfterPrefix(line: string, tags: map<string, string>, prefix: Option<string>, i2: nat): Option<IrcMessage>
    requires i2 <= |line|
  {
    var c := SkipSpaces(line, i2);
    if c == |line| then None
    else
      var e := TokenEnd(line, c);
      var ps := ParamsFrom(line, e);
      Some(IrcMessage(line, tags, prefix, line[c..e], ps.0, ps.1))
  }

  // --- tags ---

  /** The key of a tag entry: everything before its first '='. */
  function KeyOf(part: string): string {
    match FindChar(part, '=')
    case None => part
    case Some(eq) => part[..eq]
  }

  /** The value of a tag entry: the unescaped text after its first '=', or "". */
  function ValueOf(part: string): string {
    match FindChar(part, '=')
    case None => ""
    case Some(eq) => Unescaped(part[eq + 1..])
  }

  /** One `;`-separated entry added to the tag map; an empty entry is skipped. */
  function AddTag(m: map<string, string>, part: string): map<string, string> {
    if part == [] then m else m[KeyOf(part) := ValueOf(part)]
  }

  /** The map built from the entries, left to right, later keys overwriting. */
  function FoldTags(parts: seq<string>): map<string, string> {
    if parts == [] then map[] else AddTag(FoldTags(parts[..|parts| - 1]), parts[|parts| - 1])
  }

  function ParsedTags(tags: string): map<string, string> {
    if tags == [] then map[] else FoldTags(Split(tags, ';'))
  }

  // --- tag value escaping (IRCv3 Message Tags, "Escaping values") ---

  predicate IsKnownEscape(c: char) {
    c == ':' || c == 's' || c == 'r' || c == 'n' || c == '\\'
  }

  function EscapeTarget(c: char): char
    requires IsKnownEscape(c)
  {
    match c
    case ':' => ';'
    case 's' => ' '
    case 'r' => '\r'
    case 'n' => '\n'
    case _ => '\\'
  }

  /**
   * Tag-value unescaping as the client does it: the five known escapes are
   * decoded, and any other backslash (also a trailing one) is kept.
   */
  function Unescaped(s: string): string
    decreases |s|
  {
    if s == [] then []
    else if s[0] == '\\' && |s| >= 2 && IsKnownEscape(s[1]) then [EscapeTarget(s[1])] + Unescaped(s[2..])
    else [s[0]] + Unescaped(s[1..])
  }

  /** The escaping a server applies to a tag value: the partner of `Unescaped`. */
  function Escaped(v: string): string {
    if v == [] then []
    else
      var c := v[0];
      var e := if c == ';' then "\\:"
               else if c == ' ' then "\\s"
               else if c == '\r' then "\\r"
               else if c == '\n' then "\\n"
               else if c == '\\' then "\\\\"
               else [c];
      e + Escaped(v[1..])
  }

  // ---------------------------------------------------------------------
  // The parser as the client runs it
  // ---------------------------------------------------------------------

  /** `while (idx < len && line[idx] == ' ') idx++`. */
  method SkipSpacesLoop(line: string, start: nat) returns (idx: nat)
    requires start <= |line|
    ensures idx == SkipSpaces(line, start)
  {
    idx := start;
    while idx < |line| && line[idx] == ' '
      invariant start <= idx <= |line|
      invariant SkipSpaces(line, idx) == SkipSpaces(line, start)
    {
      idx := idx + 1;
    }
  }

  /** `while (idx < len && line[idx] != ' ') idx++`. */
  method TokenLoop(line: string, start: nat) returns (idx: nat)
    requires start <= |line|
    ensures idx == TokenEnd(line, start)
  {
    idx := start;
    while idx < |line| && line[idx] != ' '
      invariant start <= idx <= |line|
      invariant TokenEnd(line, idx) == TokenEnd(line, start)
    {
      idx := idx + 1;
    }
  }

  /** `IrcParser.parse`. */
  method Parse(line: string) returns (r: Option<IrcMessage>)
    ensures r == ParsedLine(line)
  {
    var idx := 0;
    var len := |line|;
    var tags: map<string, string> := map[];
    var prefix: Option<string> := None;

    // IRCv3 message tags
    if idx < len && line[idx] == '@' {
      var end := SpaceFrom(line, idx);
      if end.None? {
        return None;
      }
      tags := ParseTags(line[idx + 1..end.value]);
      idx := end.value + 1;
    }
    assert TagSection(line) == Some((tags, idx));
    ghost var i1 := idx;

    // Optional prefix
    if idx < len && line[idx] == ':' {
      var end := SpaceFrom(line, idx);
      if end.None? {
        return None;
      }
      prefix := Some(line[idx + 1..end.value]);
      idx := end.value + 1;
    }
    assert PrefixSection(line, i1) == Some((prefix, idx));
    r := ParseCommand(line, tags, prefix, idx);
  }

  /** The part of `IrcParser.parse` after the prefix: extra spaces, the command, then the parameters. */
  method ParseCommand(line: string, tags: map<string, string>, prefix: Option<string>, start: nat)
    returns (r: Option<IrcMessage>)
    requires start <= |line|
    ensures r == AfterPrefix(line, tags, prefix, start)
  {
    // Skip extra spaces
    var idx := SkipSpacesLoop(line, start);
    if idx >= |line| {
      return None;
    }

    // Command
    var cmdStart := idx;
    idx := TokenLoop(line, idx);
    var command := line[cmdStart..idx];

    // Params and trailing
    var params, trailing := ReadParams(line, idx);
    return Some(IrcMessage(line, tags, prefix, command, params, trailing));
  }

  /** The parameter loop of `IrcParser.parse`, from index `start` to the end of the line. */
  method ReadParams(line: string, start: nat) returns (params: seq<string>, trailing: Option<string>)
    requires start <= |line|
    ensures (params, trailing) == ParamsFrom(line, start)
  {
    var idx := start;
    var len := |line|;
    params := [];
    trailing := None;
    assert params + ParamsFrom(line, idx).0 == ParamsFrom(line, idx).0;
    while idx < len
      invariant idx <= len
      invariant (params + ParamsFrom(line, idx).0, ParamsFrom(line, idx).1) == ParamsFrom(line, start)
      invariant trailing == None
    {
      ghost var from := idx;
      idx := SkipSpacesLoop(line, idx);
      if idx >= len {
        assert ParamsFrom(line, from) == ([], None);
        assert params + [] == params;
        return;
      }
      if line[idx] == ':' {
        trailing := Some(line[idx + 1..]);
        assert ParamsFrom(line, from) == ([], trailing);
        assert params + [] == params;
        return;
      }
      var pStart := idx;
      ghost var before := params;
      idx := TokenLoop(line, idx);
      assert ParamsFrom(line, from) == ([line[pStart..idx]] + ParamsFrom(line, idx).0, ParamsFrom(line, idx).1);
      params := params + [line[pStart..idx]];
      assert params + ParamsFrom(line, idx).0 == before + ParamsFrom(line, from).0;
    }
    assert ParamsFrom(line, idx) == ([], None) && params + [] == params;
  }

  /** `IrcParser.parseTags`. */
  method ParseTags(tags: string) returns (m: map<string, string>)
    ensures m == ParsedTags(tags)
  {
    if tags == [] {
      return map[];
    }
    m := map[];
    var parts := Split(tags, ';');
    for i := 0 to |parts|
      invariant m == FoldTags(parts[..i])
    {
      assert parts[..i + 1][..i] == parts[..i];
      var part := parts[i];
      if part == [] {
        continue;
      }
      var eq := FindChar(part, '=');
      if eq.None? {
        m := m[part := ""];
      } else {
        var key := part[..eq.value];
        var value := UnescapeTagValue(part[eq.value + 1..]);
        m := m[key := value];
      }
    }
    assert parts[..|parts|] == parts;
  }

  lemma AppendAssoc(a: string, b: string, c: string)
    ensures a + b + c == a + (b + c)
  {
  }

  /** One step of `Unescaped` at index `i`. */
  lemma UnescapedAt(s: string, i: nat)
    requires i < |s|
    ensures Unescaped(s[i..]) ==
      if s[i] == '\\' && i + 1 < |s| && IsKnownEscape(s[i + 1])
      then [EscapeTarget(s[i + 1])] + Unescaped(s[i + 2..])
      else [s[i]] + Unescaped(s[i + 1..])
  {
    var t := s[i..];
    assert t[0] == s[i];
    if i + 1 < |s| {
      assert t[1] == s[i + 1] && t[2..] == s[i + 2..];
    }
    assert t[1..] == s[i + 1..];
  }

  /** `IrcParser.unescapeTagValue`. */
  method UnescapeTagValue(s: string) returns (r: string)
    ensures r == Unescaped(s)
  {
    var sb := "";
    var i := 0;
    while i < |s|
      invariant 0 <= i <= |s|
      invariant sb + Unescaped(s[i..]) == Unescaped(s)
    {
      UnescapedAt(s, i);
      var c := s[i];
      if c == '\\' && i + 1 < |s| && IsKnownEscape(s[i + 1]) {
        AppendAssoc(sb, [EscapeTarget(s[i + 1])], Unescaped(s[i + 2..]));
        sb := sb + [EscapeTarget(s[i + 1])];
        i := i + 2;
      } else {
        AppendAssoc(sb, [c], Unescaped(s[i + 1..]));
        sb := sb + [c];
        i := i + 1;
      }
    }
    assert s[|s|..] == [];
    r := sb;
  }

  /** `IrcParser.serverTimeMillis`; `parseInstant` stands for `Instant.parse(...).toEpochMilli()`. */
  function ServerTimeMillis(msg: IrcMessage, defaultNow: int, parseInstant: string -> Option<int>): (r: int)
    ensures "time" !in msg.tags ==> r == defaultNow
    ensures "time" in msg.tags && parseInstant(msg.tags["time"]).None? ==> r == defaultNow
    ensures "time" in msg.tags && parseInstant(msg.tags["time"]).Some? ==> r == parseInstant(msg.tags["time"]).value
  {
    if "time" !in msg.tags then defaultNow
    else match parseInstant(msg.tags["time"])
      case Some(ms) => ms
      case None => defaultNow
  }

  /** `IrcParser.nickFromPrefix`: the text before the first '!', or the whole prefix. */
  function NickFromPrefix(prefix: Option<string>): (r: Option<string>)
    ensures r.None? <==> prefix.None?
    ensures r.Some? ==> StartsWith(prefix.value, r.value) && '!' !in r.value
    ensures r.Some? && |r.value| < |prefix.value| ==> prefix.value[|r.value|] == '!'
  {
    match prefix
    case None => None
    case Some(p) =>
      match FindChar(p, '!')
      case None => Some(p)
      case Some(bang) => Some(p[..bang])
  }

  // ---------------------------------------------------------------------
  // Properties of the grammar
  // ---------------------------------------------------------------------

  /** A tag section without a closing space is malformed. */
  lemma TagsWithoutSpaceRejected(line: string)
    requires line != [] && line[0] == '@' && ' ' !in line
    ensures ParsedLine(line) == None
  {
    TokenEndAt(line, 0, |line|);
  }

  /** A prefix without a closing space is malformed, with or without tags before it. */
  lemma PrefixWithoutSpaceRejected(line: string, tags: string)
    requires ' ' !in line && line != [] && line[0] == ':'
    requires ' ' !in tags
    ensures ParsedLine(line) == None
    ensures ParsedLine("@" + tags + " " + line) == None
  {
    TokenEndAt(line, 0, |line|);
    var l := "@" + tags + " " + line;
    assert l[|tags| + 1] == ' ';
    forall k | 0 <= k < |tags| + 1 ensures l[k] != ' ' {
      if k > 0 { assert l[k] == tags[k - 1]; }
    }
    TokenEndAt(l, 0, |tags| + 1);
    forall k | |tags| + 2 <= k < |l| ensures l[k] != ' ' {
      assert l[k] == line[k - |tags| - 2];
    }
    assert l[|tags| + 2] == ':';
    TokenEndAt(l, |tags| + 2, |l|);
  }

  /** Nothing but spaces where the command should be is malformed. */
  lemma NoCommandRejected(line: string)
    requires forall i :: 0 <= i < |line| ==> line[i] == ' '
    ensures ParsedLine(line) == None
  {
    SkipSpacesToEnd(line, 0);
  }

  /** The `raw` field of a parsed message is the line itself. */
  lemma RawIsLine(line: string)
    requires ParsedLine(line).Some?
    ensures ParsedLine(line).value.raw == line
  {
  }

  predicate IsMiddleParam(p: string) {
    p != [] && p[0] != ':' && ' ' !in p
  }

  /** Middle parameters are non-empty, hold no space and do not start with ':'. */
  lemma {:induction false} MiddleParamsWellFormed(s: string, i: nat)
    requires i <= |s|
    ensures forall k :: 0 <= k < |ParamsFrom(s, i).0| ==> IsMiddleParam(ParamsFrom(s, i).0[k])
    decreases |s| - i
  {
    var j := SkipSpaces(s, i);
    if j < |s| && s[j] != ':' {
      var e := TokenEnd(s, j);
      TokenEndSpan(s, j);
      MiddleParamsWellFormed(s, e);
      assert IsMiddleParam(s[j..e]);
    }
  }

  /** A ':' at `j`, at or after `i`, that starts a token (it follows a space or sits at `i`). */
  predicate OpensTrailing(s: string, i: nat, j: nat) {
    i <= j < |s| && s[j] == ':' && (j == i || s[j - 1] == ' ')
  }

  /** The trailing parameter is the verbatim rest of the line after a ':' that opens a token. */
  lemma {:induction false} TrailingIsVerbatimSuffix(s: string, i: nat)
    requires i <= |s|
    requires ParamsFrom(s, i).1.Some?
    ensures exists j :: OpensTrailing(s, i, j) && ParamsFrom(s, i).1.value == s[j + 1..]
    decreases |s| - i
  {
    var j := SkipSpaces(s, i);
    SkipSpacesSpan(s, i);
    if s[j] == ':' {
      assert OpensTrailing(s, i, j);
    } else {
      var e := TokenEnd(s, j);
      TrailingIsVerbatimSuffix(s, e);
      var w :| OpensTrailing(s, e, w) && ParamsFrom(s, e).1.value == s[w + 1..];
      assert s[e] == ' ';
      assert ParamsFrom(s, i).1 == ParamsFrom(s, e).1;
      assert OpensTrailing(s, i, w);
    }
  }

  /** The canonical text of middle parameters and trailing parameter, each after one space. */
  function ParamsText(ps: seq<string>, trailing: Option<string>): string {
    if ps == [] then (if trailing.Some? then " :" + trailing.value else "")
    else " " + ps[0] + ParamsText(ps[1..], trailing)
  }

  /** Skipping spaces is unaffected by text before the start index. */
  lemma {:induction false} SkipSpacesShift(pre: string, x: string, k: nat)
    requires k <= |x|
    ensures SkipSpaces(pre + x, |pre| + k) == |pre| + SkipSpaces(x, k)
    decreases |x| - k
  {
    if k < |x| {
      assert (pre + x)[|pre| + k] == x[k];
      if x[k] == ' ' {
        SkipSpacesShift(pre, x, k + 1);
      }
    }
  }

  /** Finding the end of a token is unaffected by text before the start index. */
  lemma {:induction false} TokenEndShift(pre: string, x: string, k: nat)
    requires k <= |x|
    ensures TokenEnd(pre + x, |pre| + k) == |pre| + TokenEnd(x, k)
    decreases |x| - k
  {
    if k < |x| {
      assert (pre + x)[|pre| + k] == x[k];
      if x[k] != ' ' {
        TokenEndShift(pre, x, k + 1);
      }
    }
  }

  /** Parameters are read the same whatever precedes the start index. */
  lemma {:induction false} ParamsShift(pre: string, x: string, k: nat)
    requires k <= |x|
    ensures ParamsFrom(pre + x, |pre| + k) == ParamsFrom(x, k)
    decreases |x| - k
  {
    var s := pre + x;
    SkipSpacesShift(pre, x, k);
    var j := SkipSpaces(x, k);
    if j < |x| {
      assert s[|pre| + j] == x[j];
      if x[j] == ':' {
        assert s[|pre| + j + 1..] == x[j + 1..];
      } else {
        TokenEndShift(pre, x, j);
        var e := TokenEnd(x, j);
        assert s[|pre| + j..|pre| + e] == x[j..e];
        ParamsShift(pre, x, e);
      }
    }
  }

  /** Printing parameters canonically and parsing them back gives the same parameters. */
  lemma {:induction false} ParamsRoundTrip(ps: seq<string>, trailing: Option<string>)
    requires forall i :: 0 <= i < |ps| ==> IsMiddleParam(ps[i])
    ensures ParamsFrom(ParamsText(ps, trailing), 0) == (ps, trailing)
    decreases |ps|
  {
    if ps == [] {
      ParamsTextEmpty(trailing);
    } else {
      ParamsRoundTrip(ps[1..], trailing);
      ParamsTextStep(ps, trailing);
    }
  }

  lemma ParamsTextEmpty(trailing: Option<string>)
    ensures ParamsFrom(ParamsText([], trailing), 0) == ([], trailing)
  {
    var s := ParamsText([], trailing);
    if trailing.Some? {
      assert SkipSpaces(s, 1) == 1;
      assert s[2..] == trailing.value;
    } else {
      assert SkipSpaces(s, 0) == 0;
    }
  }

  lemma ParamsTextStep(ps: seq<string>, trailing: Option<string>)
    requires ps != [] && IsMiddleParam(ps[0])
    requires ParamsFrom(ParamsText(ps[1..], trailing), 0) == (ps[1..], trailing)
    ensures ParamsFrom(ParamsText(ps, trailing), 0) == (ps, trailing)
  {
    assert [ps[0]] + ps[1..] == ps;
    var rest := ParamsText(ps[1..], trailing);
    assert rest == [] || rest[0] == ' ';
    assert ParamsText(ps, trailing) == " " + ps[0] + rest;
    ParamsStep(ps[0], rest);
  }

  /** One middle parameter after a space is read, then reading goes on after it. */
  lemma ParamsStep(p: string, rest: string)
    requires IsMiddleParam(p)
    requires rest == [] || rest[0] == ' '
    ensures ParamsFrom(" " + p + rest, 0) == ([p] + ParamsFrom(rest, 0).0, ParamsFrom(rest, 0).1)
  {
    var pre := " " + p;
    var s := pre + rest;
    assert SkipSpaces(s, 1) == 1;
    assert SkipSpaces(s, 0) == 1;
    forall k | 1 <= k < |pre| ensures s[k] != ' ' {
      assert s[k] == p[k - 1];
    }
    TokenEndAt(s, 1, |pre|);
    assert s[1..|pre|] == p;
    ParamsShift(pre, rest, 0);
  }

  /** A single `k=v` entry whose value needs no unescaping gives the map {k: v}. */
  lemma SingleTag(k: string, v: string)
    requires ';' !in k && '=' !in k
    requires ';' !in v && '\\' !in v
    ensures ParsedTags(k + "=" + v) == map[k := v]
  {
    SingleEntry(k, v);
    EntryParts(k, v);
    OneEntryMap(k + "=" + v);
  }

  /** `k=v` is one `;`-separated entry when neither side holds a ';'. */
  lemma SingleEntry(k: string, v: string)
    requires ';' !in k && ';' !in v
    ensures Split(k + "=" + v, ';') == [k + "=" + v]
  {
    var tagText := k + "=" + v;
    forall i | 0 <= i < |tagText| ensures tagText[i] != ';' {
      if i < |k| { assert tagText[i] == k[i]; }
      else if i > |k| { assert tagText[i] == v[i - |k| - 1]; }
    }
  }

  /** The key of `k=v` is k and its value is v, when k holds no '=' and v no backslash. */
  lemma EntryParts(k: string, v: string)
    requires '=' !in k && '\\' !in v
    ensures KeyOf(k + "=" + v) == k && ValueOf(k + "=" + v) == v
  {
    var tagText := k + "=" + v;
    assert tagText[|k|] == '=';
    forall i | 0 <= i < |k| ensures tagText[i] != '=' {
      assert tagText[i] == k[i];
    }
    assert FindChar(tagText, '=') == Some(|k|);
    assert tagText[..|k|] == k && tagText[|k| + 1..] == v;
    UnescapedWithoutBackslash(v);
  }

  /** A single non-empty entry gives a map of its key alone. */
  lemma OneEntryMap(part: string)
    requires part != []
    ensures FoldTags([part]) == map[KeyOf(part) := ValueOf(part)]
  {
    assert [part][..0] == [];
  }

  /** Every index of a space-free segment `line[i..j]` holds a non-space. */
  lemma SpaceFreeSegment(line: string, i: nat, j: nat, seg: string)
    requires i <= j <= |line| && line[i..j] == seg && ' ' !in seg
    ensures forall k :: i <= k < j ==> line[k] != ' '
  {
    forall k | i <= k < j ensures line[k] != ' ' {
      assert line[k] == seg[k - i];
    }
  }

  /** A tag section `@tagText ` at the start of `line`, closed by the space at `e1`. */
  lemma TagSectionAt(line: string, tagText: string, e1: nat)
    requires e1 < |line| && line[0] == '@' && line[e1] == ' '
    requires 1 <= e1 && line[1..e1] == tagText && ' ' !in tagText
    ensures TagSection(line) == Some((ParsedTags(tagText), e1 + 1))
  {
    SpaceFreeSegment(line, 1, e1, tagText);
    TokenEndAt(line, 0, e1);
  }

  /** A prefix section `:p ` at index `i` of `line`, closed by the space at `e2`. */
  lemma PrefixSectionAt(line: string, i: nat, p: string, e2: nat)
    requires i < e2 < |line| && line[i] == ':' && line[e2] == ' '
    requires line[i + 1..e2] == p && ' ' !in p
    ensures PrefixSection(line, i) == Some((Some(p), e2 + 1))
  {
    SpaceFreeSegment(line, i + 1, e2, p);
    TokenEndAt(line, i, e2);
  }

  /** The command and parameters after the prefix, when the command `cmd` occupies `c..e`. */
  lemma AfterPrefixAt(line: string, tags: map<string, string>, prefix: Option<string>, c: nat, cmd: string, e: nat)
    requires c <= e <= |line| && line[c..e] == cmd && cmd != [] && ' ' !in cmd
    requires e == |line| || line[e] == ' '
    ensures AfterPrefix(line, tags, prefix, c) ==
      Some(IrcMessage(line, tags, prefix, cmd, ParamsFrom(line, e).0, ParamsFrom(line, e).1))
  {
    SpaceFreeSegment(line, c, e, cmd);
    TokenEndAt(line, c, e);
  }

  /** The prefix and command after the tags: `:p` from `i` to the space at `e2`, then `cmd` up to `e`. */
  lemma AfterTagsAt(line: string, tags: map<string, string>, i: nat, p: string, e2: nat, cmd: string, e: nat)
    requires i < e2 < e <= |line|
    requires line[i] == ':' && line[e2] == ' ' && line[i + 1..e2] == p && ' ' !in p
    requires line[e2 + 1..e] == cmd && cmd != [] && ' ' !in cmd
    requires e == |line| || line[e] == ' '
    ensures AfterTags(line, tags, i) ==
      Some(IrcMessage(line, tags, Some(p), cmd, ParamsFrom(line, e).0, ParamsFrom(line, e).1))
  {
    AfterPrefixAt(line, tags, Some(p), e2 + 1, cmd, e);
    PrefixSectionAt(line, i, p, e2);
  }

  /**
   * The sections of a line laid out as `@tagText :p cmd...`: tags closed by
   * the space at `e1`, a prefix closed by the space at `e2`, a command ending at `e`.
   */
  lemma SectionsAt(line: string, tagText: string, p: string, cmd: string, e1: nat, e2: nat, e: nat)
    requires 1 <= e1 && e1 + 1 < e2 < e <= |line|
    requires line[0] == '@' && line[e1] == ' ' && line[e1 + 1] == ':' && line[e2] == ' '
    requires e == |line| || line[e] == ' '
    requires line[1..e1] == tagText && line[e1 + 2..e2] == p && line[e2 + 1..e] == cmd
    requires ' ' !in tagText && ' ' !in p && cmd != [] && ' ' !in cmd
    ensures ParsedLine(line) == Some(IrcMessage(line, ParsedTags(tagText), Some(p), cmd, ParamsFrom(line, e).0, ParamsFrom(line, e).1))
  {
    AfterTagsAt(line, ParsedTags(tagText), e1 + 1, p, e2, cmd, e);
    TagSectionAt(line, tagText, e1);
  }

  lemma SliceInPrefix(a: string, b: string, i: nat, j: nat)
    requires i <= j <= |a|
    ensures (a + b)[i..j] == a[i..j]
  {
  }

  lemma AppendedPart(a: string, b: string)
    ensures (a + b)[|a|..|a| + |b|] == b
  {
  }

  lemma TagTextOf(k: string, v: string)
    ensures ("@" + k + "=" + v)[1..] == k + "=" + v
  {
  }

  lemma ParamsAfter(line: string, pre: string, rest: string)
    requires line == pre + rest
    ensures ParamsFrom(line, |pre|) == ParamsFrom(rest, 0)
  {
    ParamsShift(pre, rest, 0);
  }

  /** The text of `@k=v :p CMD rest`, assembled left to right. */
  function LineOf(k: string, v: string, p: string, cmd: string, rest: string): string {
    "@" + k + "=" + v + " :" + p + " " + cmd + rest
  }

  /** Where the tag text, the prefix and the command sit in `LineOf(k, v, p, cmd, rest)`. */
  predicate PartsAt(line: string, k: string, v: string, p: string, cmd: string, rest: string, e1: nat, e2: nat, e: nat) {
    e1 == |k| + |v| + 2 && e2 == e1 + 2 + |p| && e == e2 + 1 + |cmd| &&
    |line| == e + |rest| && line[1..e1] == k + "=" + v && line[e1 + 2..e2] == p && line[e2 + 1..e] == cmd &&
    line[e..] == rest
  }

  predicate SeparatorsAt(line: string, e1: nat, e2: nat, e: nat) {
    e1 + 1 < e2 < e <= |line| && line[0] == '@' && line[e1] == ' ' && line[e1 + 1] == ':' && line[e2] == ' ' && (e == |line| || line[e] == ' ')
  }

  lemma {:induction false} LineSlices(k: string, v: string, p: string, cmd: string, rest: string)
    ensures PartsAt(LineOf(k, v, p, cmd, rest), k, v, p, cmd, rest, |k| + |v| + 2, |k| + |v| + 4 + |p|, |k| + |v| + 5 + |p| + |cmd|)
  {
    var l1 := "@" + k;
    var l2 := l1 + "=";
    var l3 := l2 + v;
    var l4 := l3 + " :";
    var l5 := l4 + p;
    var l6 := l5 + " ";
    var l7 := l6 + cmd;
    TagSlice(l3, l4, l5, l6, l7, LineOf(k, v, p, cmd, rest), k, v, p, cmd, rest);
    PrefixSlice(l4, l5, l6, l7, LineOf(k, v, p, cmd, rest), p, cmd, rest);
    SliceInPrefix(l7, rest, |l6|, |l7|);
    AppendedPart(l6, cmd);
    assert (l7 + rest)[|l7|..] == rest;
  }

  lemma TagSlice(l3: string, l4: string, l5: string, l6: string, l7: string, line: string,
                 k: string, v: string, p: string, cmd: string, rest: string)
    requires l3 == "@" + k + "=" + v && l4 == l3 + " :" && l5 == l4 + p && l6 == l5 + " " && l7 == l6 + cmd
    requires line == l7 + rest
    ensures line[1..|l3|] == k + "=" + v
  {
    SliceInPrefix(l7, rest, 1, |l3|);
    SliceInPrefix(l6, cmd, 1, |l3|);
    SliceInPrefix(l5, " ", 1, |l3|);
    SliceInPrefix(l4, p, 1, |l3|);
    SliceInPrefix(l3, " :", 1, |l3|);
    TagTextOf(k, v);
  }

  lemma PrefixSlice(l4: string, l5: string, l6: string, l7: string, line: string, p: string, cmd: string, rest: string)
    requires l5 == l4 + p && l6 == l5 + " " && l7 == l6 + cmd
    requires line == l7 + rest
    ensures line[|l4|..|l5|] == p
  {
    SliceInPrefix(l7, rest, |l4|, |l5|);
    SliceInPrefix(l6, cmd, |l4|, |l5|);
    SliceInPrefix(l5, " ", |l4|, |l5|);
    AppendedPart(l4, p);
  }

  /**
   * How `@k=v :p CMD rest` is split: one tag, the prefix, the command, and
   * the parameters read from `rest`, whatever `rest` holds after its leading space.
   */
  lemma LineSections(k: string, v: string, p: string, cmd: string, rest: string)
    ensures LineParts(k, v, p, cmd, rest) ==>
      var line := LineOf(k, v, p, cmd, rest);
      ParsedLine(line) == Some(IrcMessage(line, map[k := v], Some(p), cmd, ParamsFrom(rest, 0).0, ParamsFrom(rest, 0).1))
  {
    LineLayout(k, v, p, cmd, rest);
    LineSectionsFor(LineOf(k, v, p, cmd, rest), k, v, p, cmd, rest, |k| + |v| + 2, |k| + |v| + 4 + |p|, |k| + |v| + 5 + |p| + |cmd|);
  }

  /** The pieces of `LineOf(k, v, p, cmd, rest)` hold no character that would end them early. */
  predicate LineParts(k: string, v: string, p: string, cmd: string, rest: string) {
    ' ' !in k && ';' !in k && '=' !in k &&
    ' ' !in v && ';' !in v && '\\' !in v &&
    ' ' !in p &&
    cmd != [] && ' ' !in cmd &&
    (rest == [] || rest[0] == ' ')
  }

  lemma LineLayout(k: string, v: string, p: string, cmd: string, rest: string)
    ensures LineParts(k, v, p, cmd, rest) ==>
      var e1 := |k| + |v| + 2;
      var e2 := |k| + |v| + 4 + |p|;
      var e := |k| + |v| + 5 + |p| + |cmd|;
      PartsAt(LineOf(k, v, p, cmd, rest), k, v, p, cmd, rest, e1, e2, e) && SeparatorsAt(LineOf(k, v, p, cmd, rest), e1, e2, e)
  {
    if LineParts(k, v, p, cmd, rest) {
      LineSlices(k, v, p, cmd, rest);
      LinePunctuation(k, v, p, cmd, rest);
    }
  }

  /** `LineSections` for a line described only by where its parts sit. */
  lemma LineSectionsFor(line: string, k: string, v: string, p: string, cmd: string, rest: string, e1: nat, e2: nat, e: nat)
    ensures LineParts(k, v, p, cmd, rest) && PartsAt(line, k, v, p, cmd, rest, e1, e2, e) && SeparatorsAt(line, e1, e2, e) ==>
      ParsedLine(line) == Some(IrcMessage(line, map[k := v], Some(p), cmd, ParamsFrom(rest, 0).0, ParamsFrom(rest, 0).1))
  {
    if LineParts(k, v, p, cmd, rest) && PartsAt(line, k, v, p, cmd, rest, e1, e2, e) && SeparatorsAt(line, e1, e2, e) {
      SectionsAt(line, k + "=" + v, p, cmd, e1, e2, e);
      SingleTag(k, v);
      assert line == line[..e] + rest;
      ParamsAfter(line, line[..e], rest);
    }
  }

  /** The separators of `LineOf(k, v, p, cmd, rest)`: '@', the spaces and the ':' of the prefix. */
  lemma LinePunctuation(k: string, v: string, p: string, cmd: string, rest: string)
    requires cmd != []
    requires rest == [] || rest[0] == ' '
    ensures SeparatorsAt(LineOf(k, v, p, cmd, rest), |k| + |v| + 2, |k| + |v| + 4 + |p|, |k| + |v| + 5 + |p| + |cmd|)
  {
  }

  /**
   * Round trip of a whole line: `@k=v :p CMD p1 ... pn :t` parses back to
   * exactly tag k with value v, prefix p, command CMD, the params and trailing t,
   * when v needs no escaping and no piece holds a space where that would end it.
   */
  lemma LineRoundTrip(k: string, v: string, p: string, cmd: string, ps: seq<string>, t: string)
    requires ' ' !in k && ';' !in k && '=' !in k
    requires ' ' !in v && ';' !in v && '\\' !in v
    requires ' ' !in p
    requires cmd != [] && ' ' !in cmd
    requires forall i :: 0 <= i < |ps| ==> IsMiddleParam(ps[i])
    ensures
      var line := "@" + k + "=" + v + " :" + p + " " + cmd + ParamsText(ps, Some(t));
      ParsedLine(line) == Some(IrcMessage(line, map[k := v], Some(p), cmd, ps, Some(t)))
  {
    var rest := ParamsText(ps, Some(t));
    assert rest[0] == ' ';
    assert LineParts(k, v, p, cmd, rest);
    LineSections(k, v, p, cmd, rest);
    assert LineOf(k, v, p, cmd, rest) == "@" + k + "=" + v + " :" + p + " " + cmd + rest;
    ParamsRoundTrip(ps, Some(t));
  }

  // --- unescaping ---

  /** Unescaping never lengthens a value. */
  lemma {:induction false} UnescapedNotLonger(s: string)
    ensures |Unescaped(s)| <= |s|
    decreases |s|
  {
    if s != [] {
      if s[0] == '\\' && |s| >= 2 && IsKnownEscape(s[1]) {
        UnescapedNotLonger(s[2..]);
      } else {
        UnescapedNotLonger(s[1..]);
      }
    }
  }

  /** A value without a backslash is returned unchanged. */
  lemma {:induction false} UnescapedWithoutBackslash(s: string)
    requires '\\' !in s
    ensures Unescaped(s) == s
    decreases |s|
  {
    if s != [] {
      assert s[0] != '\\';
      assert '\\' !in s[1..];
      UnescapedWithoutBackslash(s[1..]);
    }
  }

  /** The five escapes decode to `;`, space, CR, LF and backslash. */
  lemma KnownEscapes(rest: string)
    ensures Unescaped("\\:" + rest) == ";" + Unescaped(rest)
    ensures Unescaped("\\s" + rest) == " " + Unescaped(rest)
    ensures Unescaped("\\r" + rest) == "\r" + Unescaped(rest)
    ensures Unescaped("\\n" + rest) == "\n" + Unescaped(rest)
    ensures Unescaped("\\\\" + rest) == "\\" + Unescaped(rest)
  {
    assert ("\\:" + rest)[2..] == rest;
    assert ("\\s" + rest)[2..] == rest;
    assert ("\\r" + rest)[2..] == rest;
    assert ("\\n" + rest)[2..] == rest;
    assert ("\\\\" + rest)[2..] == rest;
  }

  /** Any other backslash — also a lone trailing one — is copied through, and so is the character after it. */
  lemma UnknownEscapeKept(c: char, rest: string)
    requires !IsKnownEscape(c)
    ensures Unescaped("\\" + [c] + rest) == "\\" + Unescaped([c] + rest)
    ensures Unescaped("\\") == "\\"
  {
    assert ("\\" + [c] + rest)[1..] == [c] + rest;
  }

  /** Unescaping undoes the IRCv3 escaping of any value. */
  lemma {:induction false} UnescapeEscaped(v: string)
    ensures Unescaped(Escaped(v)) == v
    decreases |v|
  {
    if v != [] {
      var c := v[0];
      var tail := Escaped(v[1..]);
      UnescapeEscaped(v[1..]);
      if c == ';' || c == ' ' || c == '\r' || c == '\n' || c == '\\' {
        var e := Escaped(v);
        assert e[2..] == tail;
      } else {
        assert Escaped(v) == [c] + tail;
        assert ([c] + tail)[1..] == tail;
      }
      assert [v[0]] + v[1..] == v;
    }
  }

  /** Escaped text holds no space and no ';', so it fits in a tag section. */
  lemma {:induction false} EscapedFitsTagSection(v: string)
    ensures ' ' !in Escaped(v) && ';' !in Escaped(v)
    decreases |v|
  {
    if v != [] {
      EscapedFitsTagSection(v[1..]);
    }
  }

  // --- tag maps ---

  /** Whether entry `i` is the last non-empty entry with key `k`. */
  predicate LastEntryFor(parts: seq<string>, k: string, i: int) {
    0 <= i < |parts| && parts[i] != [] && KeyOf(parts[i]) == k
    && forall j :: i < j < |parts| ==> parts[j] == [] || KeyOf(parts[j]) != k
  }

  /** A key is in the tag map exactly when some non-empty entry has it; keys are taken verbatim. */
  lemma {:induction false} FoldTagsKeys(parts: seq<string>, k: string)
    ensures k in FoldTags(parts) <==> exists i :: 0 <= i < |parts| && parts[i] != [] && KeyOf(parts[i]) == k
    decreases |parts|
  {
    if parts != [] {
      var init := parts[..|parts| - 1];
      var last := parts[|parts| - 1];
      FoldTagsKeys(init, k);
      if k in FoldTags(parts) && !(last != [] && KeyOf(last) == k) {
        var i :| 0 <= i < |init| && init[i] != [] && KeyOf(init[i]) == k;
        assert parts[i] == init[i];
      }
      if exists i :: 0 <= i < |parts| && parts[i] != [] && KeyOf(parts[i]) == k {
        var i :| 0 <= i < |parts| && parts[i] != [] && KeyOf(parts[i]) == k;
        if i < |parts| - 1 {
          assert init[i] == parts[i];
        }
      }
    }
  }

  /** The value of a key comes from the last non-empty entry that has it: later duplicates overwrite. */
  lemma {:induction false} FoldTagsLast(parts: seq<string>, k: string, i: int)
    requires LastEntryFor(parts, k, i)
    ensures k in FoldTags(parts) && FoldTags(parts)[k] == ValueOf(parts[i])
    decreases |parts|
  {
    var init := parts[..|parts| - 1];
    if i < |parts| - 1 {
      assert LastEntryFor(init, k, i);
      FoldTagsLast(init, k, i);
    }
  }

  /** An entry with no '=' maps its whole text to "". */
  lemma EntryWithoutEquals(part: string)
    requires part != [] && '=' !in part
    ensures KeyOf(part) == part && ValueOf(part) == ""
  {
  }
}
