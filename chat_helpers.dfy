/**
 * The text helpers of the chat screen (`MainActivity.kt`): whole-word
 * highlight matching, the ignore list's text form, quiet hours, the
 * moderation menu's privilege check, URL clean-up and buffer keys.
 */
module ChatHelpers {
  import opened Wrappers
  import opened Text
  import IrcModels

  // ---------------------------------------------------------------------
  // containsWord
  // ---------------------------------------------------------------------

  /** A character that continues a word: `isLetterOrDigit()` or `_`. */
  predicate IsWordChar(c: char) {
    IsLetterOrDigit(c) || c == '_'
  }

  /** `n` occurs in `s` at `j` with no word character touching it on either side. */
  predicate WordAt(s: string, n: string, j: int) {
    OccursAt(s, n, j)
    && (j == 0 || !IsWordChar(s[j - 1]))
    && (j + |n| >= |s| || !IsWordChar(s[j + |n|]))
  }

  /** Some case-insensitive occurrence of `needle` in `text` stands as a whole word. */
  predicate HasWord(text: string, needle: string) {
    exists j | 0 <= j <= |text| :: WordAt(Lower(text), Lower(needle), j)
  }

  /**
   * `containsWord`: walks the occurrences of the lower-cased needle from
   * left to right and stops at the first one bounded on both sides.
   */
  method ContainsWord(text: string, needle: string) returns (found: bool)
    requires needle != []
    ensures found <==> HasWord(text, needle)
  {
    var lower := Lower(text);
    var n := Lower(needle);
    var idx := FindSubFrom(lower, n, 0);
    while idx.Some?
      invariant idx.Some? ==> OccursAt(lower, n, idx.value)
      invariant forall j :: 0 <= j <= |lower| && (idx.None? || j < idx.value) ==> !WordAt(lower, n, j)
      decreases if idx.Some? then |lower| + 1 - idx.value else 0
    {
      var i := idx.value;
      var beforeOk := i == 0 || !IsWordChar(lower[i - 1]);
      var afterIdx := i + |n|;
      var afterOk := afterIdx >= |lower| || !IsWordChar(lower[afterIdx]);
      if beforeOk && afterOk {
        assert WordAt(lower, n, i) && i <= |text|;
        return true;
      }
      var next := FindSubFrom(lower, n, i + 1);
      forall j | 0 <= j <= |lower| && (next.None? || j < next.value)
        ensures !WordAt(lower, n, j)
      {
        if j > i {
          assert !OccursAt(lower, n, j);
        }
      }
      idx := next;
    }
    assert |lower| == |text|;
    return false;
  }

  /** A word is found in itself. */
  lemma WordInItself(w: string)
    requires w != []
    ensures HasWord(w, w)
  {
    assert Lower(w)[0..|w|] == Lower(w);
    assert WordAt(Lower(w), Lower(w), 0);
  }

  /** A word between two spaces is found, whatever surrounds the spaces. */
  lemma {:induction false} WordBetweenSpaces(pre: string, w: string, post: string)
    ensures HasWord(pre + " " + w + " " + post, w)
  {
    var text := pre + " " + w + " " + post;
    LowerAppend(pre + " " + w + " ", post);
    LowerAppend(pre + " " + w, " ");
    LowerAppend(pre + " ", w);
    LowerAppend(pre, " ");
    var lower := Lower(text);
    var j := |pre| + 1;
    assert lower == Lower(pre) + " " + Lower(w) + " " + Lower(post);
    assert lower[j..j + |w|] == Lower(w);
    assert lower[j - 1] == ' ';
    assert lower[j + |w|] == ' ';
    assert WordAt(lower, Lower(w), j);
  }

  // ---------------------------------------------------------------------
  // buildTerms / isHighlight
  // ---------------------------------------------------------------------

  /** The separators of the highlight and ignore lists. */
  const Separators: set<char> := {',', ';', ' ', '\n', '\t'}

  /** `mapNotNull { it.trim().ifEmpty { null } }`. */
  function Terms(parts: seq<string>): (r: seq<string>)
    ensures forall i :: 0 <= i < |r| ==> r[i] != [] && IsTrimmed(r[i])
  {
    if parts == [] then []
    else
      TrimIsTrimmed(parts[0]);
      (if Trim(parts[0]) == [] then [] else [Trim(parts[0])]) + Terms(parts[1..])
  }

  /** `buildTerms`: the nick, if given, then the trimmed non-empty pieces of `csv`. */
  function BuildTerms(selfNick: Option<string>, csv: string): (r: seq<string>)
    ensures selfNick.Some? ==> |r| >= 1 && r[0] == selfNick.value
    ensures forall i :: (if selfNick.Some? then 1 else 0) <= i < |r| ==> r[i] != [] && IsTrimmed(r[i])
  {
    (if selfNick.Some? then [selfNick.value] else []) + Terms(SplitAny(csv, Separators))
  }

  /** A term that highlights `text`: not blank, not among the exceptions, and present as a word. */
  predicate TermMatches(term: string, except: seq<string>, text: string) {
    !IsBlank(term)
    && !(exists e | e in except :: EqualsIgnoreCase(e, term))
    && (term != [] && HasWord(text, term))
  }

  /** `isHighlight`. */
  predicate IsHighlight(selfNick: string, text: string, highlights: string, highlightExceptions: string) {
    var terms := BuildTerms(Some(selfNick), highlights);
    var except := BuildTerms(None, highlightExceptions);
    exists t | t in terms :: TermMatches(t, except, text)
  }

  /** The own nick highlights whenever it is in the text as a word and is not an exception. */
  lemma SelfNickHighlights(selfNick: string, text: string, highlights: string, highlightExceptions: string)
    requires !IsBlank(selfNick) && HasWord(text, selfNick)
    requires forall e | e in BuildTerms(None, highlightExceptions) :: !EqualsIgnoreCase(e, selfNick)
    ensures IsHighlight(selfNick, text, highlights, highlightExceptions)
  {
    assert selfNick != [];
    assert TermMatches(selfNick, BuildTerms(None, highlightExceptions), text);
  }

  /** A term that is listed among the exceptions, in any case, never highlights. */
  lemma ExceptedNeverHighlights(selfNick: string, text: string, highlights: string, highlightExceptions: string)
    requires forall t | t in BuildTerms(Some(selfNick), highlights) ::
      exists e | e in BuildTerms(None, highlightExceptions) :: EqualsIgnoreCase(e, t)
    ensures !IsHighlight(selfNick, text, highlights, highlightExceptions)
  {
  }

  /** With a blank nick and no highlight words, nothing highlights. */
  lemma BlankTermsNeverHighlight(selfNick: string, text: string, highlights: string, highlightExceptions: string)
    requires IsBlank(selfNick)
    requires forall i :: 0 <= i < |highlights| ==> highlights[i] in Separators
    ensures !IsHighlight(selfNick, text, highlights, highlightExceptions)
  {
    OnlySelfNick(selfNick, highlights);
  }

  lemma OnlySelfNick(selfNick: string, highlights: string)
    requires forall i :: 0 <= i < |highlights| ==> highlights[i] in Separators
    ensures BuildTerms(Some(selfNick), highlights) == [selfNick]
  {
    NoTermsFromSeparators(highlights);
  }

  lemma {:induction false} NoTermsFromSeparators(s: string)
    requires forall i :: 0 <= i < |s| ==> s[i] in Separators
    ensures Terms(SplitAny(s, Separators)) == []
    decreases |s|
  {
    if s == [] {
      assert SplitAny(s, Separators) == [s];
      assert [s][1..] == [];
      assert Terms([s]) == [];
    } else {
      assert FindAny(s, Separators) == Some(0);
      var rest := s[1..];
      NoTermsFromSeparators(rest);
      assert SplitAny(s, Separators) == [[]] + SplitAny(rest, Separators);
      assert Trim([]) == [];
      assert ([[]] + SplitAny(rest, Separators))[1..] == SplitAny(rest, Separators);
    }
  }

  // ---------------------------------------------------------------------
  // Ignore list
  // ---------------------------------------------------------------------

  /** `normalizeNick`: trimmed and lower-cased. */
  function NormalizeNick(nick: string): string {
    Lower(Trim(nick))
  }

  /** A normalised piece of an ignore list: non-empty, trimmed, lower-case, no separator. */
  predicate IsToken(s: string) {
    s != [] && IsTrimmed(s) && Lower(s) == s && forall i :: 0 <= i < |s| ==> s[i] !in Separators
  }

  lemma LowerKeepsWhitespace(s: string)
    ensures |Lower(s)| == |s|
    ensures forall i :: 0 <= i < |s| ==> (IsWhitespace(Lower(s)[i]) <==> IsWhitespace(s[i]))
    ensures forall i :: 0 <= i < |s| ==> (Lower(s)[i] in Separators <==> s[i] in Separators)
  {
  }

  /** Normalising a piece without separators gives a token, or nothing when the piece is blank. */
  lemma NormalizeToken(s: string)
    requires forall i :: 0 <= i < |s| ==> s[i] !in Separators
    ensures NormalizeNick(s) == [] || IsToken(NormalizeNick(s))
    ensures IsToken(s) ==> NormalizeNick(s) == s
  {
    var t := Trim(s);
    TrimIsTrimmed(s);
    assert forall i :: 0 <= i < |t| ==> t[i] in s;
    LowerKeepsWhitespace(t);
    LowerIdempotent(t);
    if IsToken(s) {
      TrimOfTrimmed(s);
    }
  }

  /** `parseIgnoreList`: the normalised non-empty pieces of `raw`, as a set. */
  function ParseIgnoreList(raw: string): (r: set<string>)
    ensures forall x | x in r :: IsToken(x)
  {
    if IsBlank(raw) then {}
    else
      var parts := SplitAny(raw, Separators);
      assert forall i | 0 <= i < |parts| :: NormalizeNick(parts[i]) == [] || IsToken(NormalizeNick(parts[i])) by {
        forall i | 0 <= i < |parts| ensures NormalizeNick(parts[i]) == [] || IsToken(NormalizeNick(parts[i])) {
          NormalizeToken(parts[i]);
        }
      }
      set i | 0 <= i < |parts| && NormalizeNick(parts[i]) != [] :: NormalizeNick(parts[i])
  }

  /** Each piece comes strictly before the next: sorted and without repeats. */
  predicate StrictlySorted(s: seq<string>) {
    forall i :: 0 < i < |s| ==> LexLess(s[i - 1], s[i])
  }

  /** Inserts `x` before the first element it comes before. */
  function Insert(x: string, s: seq<string>): (r: seq<string>)
    requires StrictlySorted(s) && x !in s
    ensures StrictlySorted(r)
    ensures forall y :: y in r <==> y == x || y in s
    ensures r != [] && (r[0] == x || (s != [] && r[0] == s[0]))
  {
    if s == [] then [x]
    else if LexLess(x, s[0]) then [x] + s
    else
      LexLessTotal(x, s[0]);
      assert StrictlySorted(s[1..]);
      var t := Insert(x, s[1..]);
      assert t[0] == x || t[0] == s[1];
      [s[0]] + t
  }

  /** `distinct().sorted()` of strings. */
  function SortDistinct(s: seq<string>): (r: seq<string>)
    ensures StrictlySorted(r)
    ensures forall y :: y in r <==> y in s
  {
    if s == [] then []
    else
      var t := SortDistinct(s[1..]);
      if s[0] in t then t else Insert(s[0], t)
  }

  /** `y` is the normalised form of some non-blank entry. */
  predicate FromEntries(entries: seq<string>, y: string) {
    exists i | 0 <= i < |entries| :: !IsBlank(entries[i]) && y == NormalizeNick(entries[i])
  }

  /** `filter { it.isNotBlank() }.map { normalizeNick(it) }`. */
  function NormalizedEntries(entries: seq<string>): seq<string> {
    if entries == [] then []
    else (if IsBlank(entries[0]) then [] else [NormalizeNick(entries[0])]) + NormalizedEntries(entries[1..])
  }

  lemma {:induction false} NormalizedEntriesMembers(entries: seq<string>, y: string)
    ensures y in NormalizedEntries(entries) <==> FromEntries(entries, y)
    decreases |entries|
  {
    if entries != [] {
      var tail := entries[1..];
      NormalizedEntriesMembers(tail, y);
      if FromEntries(tail, y) {
        var k :| 0 <= k < |tail| && !IsBlank(tail[k]) && y == NormalizeNick(tail[k]);
        assert entries[k + 1] == tail[k];
      }
      if FromEntries(entries, y) {
        var k :| 0 <= k < |entries| && !IsBlank(entries[k]) && y == NormalizeNick(entries[k]);
        if k > 0 {
          assert tail[k - 1] == entries[k];
        }
      }
    }
  }

  /** The pieces `formatIgnoreList` joins: normalised, without repeats, sorted. */
  function IgnoreListPieces(entries: seq<string>): (r: seq<string>)
    ensures StrictlySorted(r)
    ensures forall y :: y in r <==> FromEntries(entries, y)
  {
    forall y ensures y in NormalizedEntries(entries) <==> FromEntries(entries, y) {
      NormalizedEntriesMembers(entries, y);
    }
    SortDistinct(NormalizedEntries(entries))
  }

  /** `formatIgnoreList`. */
  function FormatIgnoreList(entries: seq<string>): string {
    Join(IgnoreListPieces(entries), ",")
  }

  lemma TokenNotBlank(s: string)
    requires IsToken(s)
    ensures !IsBlank(s)
  {
    assert !IsWhitespace(s[0]);
  }

  /** For well-formed entries the pieces are exactly the distinct entries. */
  lemma PiecesOfTokens(entries: seq<string>)
    requires forall i | 0 <= i < |entries| :: IsToken(entries[i])
    ensures forall y :: y in IgnoreListPieces(entries) <==> y in entries
    ensures forall y | y in IgnoreListPieces(entries) :: IsToken(y)
  {
    forall i | 0 <= i < |entries| ensures !IsBlank(entries[i]) && NormalizeNick(entries[i]) == entries[i] {
      TokenNotBlank(entries[i]);
      NormalizeToken(entries[i]);
    }
  }

  /** Parsing the comma-joined text of some tokens gives back those tokens. */
  lemma ParseJoinedTokens(pieces: seq<string>)
    requires pieces != []
    requires forall y | y in pieces :: IsToken(y)
    ensures forall y :: y in ParseIgnoreList(Join(pieces, ",")) <==> y in pieces
  {
    var text := Join(pieces, ",");
    forall i, j | 0 <= i < |pieces| && 0 <= j < |pieces[i]| ensures pieces[i][j] !in Separators {
      assert IsToken(pieces[i]);
    }
    assert IsToken(pieces[0]);
    SplitJoin(pieces, ',', Separators);
    JoinStart(pieces, ",");
    TokenNotBlank(pieces[0]);
    assert !IsWhitespace(text[0]);
    assert !IsBlank(text);
    assert SplitAny(text, Separators) == pieces;
    forall i | 0 <= i < |pieces| ensures NormalizeNick(pieces[i]) == pieces[i] {
      NormalizeToken(pieces[i]);
    }
  }

  /** Formatting a collection of tokens and parsing the text back gives the same set. */
  lemma IgnoreListRoundTrip(entries: seq<string>)
    requires forall i | 0 <= i < |entries| :: IsToken(entries[i])
    ensures ParseIgnoreList(FormatIgnoreList(entries)) == set i | 0 <= i < |entries| :: entries[i]
  {
    var pieces := IgnoreListPieces(entries);
    PiecesOfTokens(entries);
    if pieces != [] {
      ParseJoinedTokens(pieces);
    }
  }

  lemma {:induction false} JoinStart(parts: seq<string>, sep: string)
    requires parts != [] && parts[0] != []
    ensures Join(parts, sep) != [] && Join(parts, sep)[0] == parts[0][0]
  {
  }

  // ---------------------------------------------------------------------
  // isInQuietHours
  // ---------------------------------------------------------------------

  /** `coerceIn(lo, hi)`. */
  function CoerceIn(x: int, lo: int, hi: int): (r: int)
    requires lo <= hi
    ensures lo <= r <= hi
    ensures lo <= x <= hi ==> r == x
  {
    if x < lo then lo else if x > hi then hi else x
  }

  /**
   * `isInQuietHours` at the hour of day `hour` (which the source reads from
   * the clock): from the start hour up to but not including the end hour,
   * wrapping past midnight when the start is later.
   */
  predicate IsInQuietHours(enabled: bool, startHour: int, endHour: int, hour: int)
    requires 0 <= hour < 24
  {
    var start := CoerceIn(startHour, 0, 23);
    var end := CoerceIn(endHour, 0, 23);
    enabled && start != end && (if start < end then start <= hour < end else hour >= start || hour < end)
  }

  /** Outside the window is inside the window with start and end exchanged. */
  lemma QuietHoursComplement(startHour: int, endHour: int, hour: int)
    requires 0 <= hour < 24
    requires CoerceIn(startHour, 0, 23) != CoerceIn(endHour, 0, 23)
    ensures IsInQuietHours(true, startHour, endHour, hour) <==> !IsInQuietHours(true, endHour, startHour, hour)
  {
  }

  /** The number of quiet hours among the first `n` hours of the day. */
  function QuietHoursBefore(startHour: int, endHour: int, n: nat): nat
    requires n <= 24
  {
    if n == 0 then 0
    else QuietHoursBefore(startHour, endHour, n - 1) + (if IsInQuietHours(true, startHour, endHour, n - 1) then 1 else 0)
  }

  function Min(a: int, b: int): int { if a < b then a else b }
  function Max(a: int, b: int): int { if a < b then b else a }

  lemma {:induction false} QuietHoursPrefix(startHour: int, endHour: int, n: nat)
    requires n <= 24
    ensures var s, e := CoerceIn(startHour, 0, 23), CoerceIn(endHour, 0, 23);
      QuietHoursBefore(startHour, endHour, n)
      == if s == e then 0
         else if s < e then Max(0, Min(n, e) - s)
         else Min(n, e) + Max(0, n - s)
  {
    if n > 0 {
      QuietHoursPrefix(startHour, endHour, n - 1);
    }
  }

  /** An enabled window covers `(end - start) mod 24` hours of the day, after clamping. */
  lemma QuietHoursLength(startHour: int, endHour: int)
    ensures QuietHoursBefore(startHour, endHour, 24) == (CoerceIn(endHour, 0, 23) - CoerceIn(startHour, 0, 23)) % 24
  {
    QuietHoursPrefix(startHour, endHour, 24);
  }

  // ---------------------------------------------------------------------
  // Moderation menu
  // ---------------------------------------------------------------------

  datatype ModerationAction = Op | Deop | Voice | Devoice | Kick | Ban

  /** `moderationPrivilegeRank`: owner 5, admin 4, operator 3, half-operator 2, voice 1. */
  function ModerationPrivilegeRank(mode: Option<char>): (r: int)
    ensures 0 <= r <= 5
  {
    match mode
    case Some('~') => 5
    case Some('&') => 4
    case Some('@') => 3
    case Some('%') => 2
    case Some('+') => 1
    case _ => 0
  }

  /** `canPerformModeration`. */
  predicate CanPerformModeration(action: ModerationAction, selfMode: Option<char>) {
    var rank := ModerationPrivilegeRank(selfMode);
    match action
    case Op => rank >= 3
    case Deop => rank >= 3
    case Kick => rank >= 3
    case Ban => rank >= 3
    case Voice => rank >= 2
    case Devoice => rank >= 2
  }

  /** Which own privilege symbols allow each action. */
  lemma ModerationBySymbol(action: ModerationAction, selfMode: Option<char>)
    ensures CanPerformModeration(action, selfMode) <==>
      selfMode.Some? &&
      selfMode.value in (if action == Voice || action == Devoice then {'~', '&', '@', '%'} else {'~', '&', '@'})
  {
  }

  /** A higher privilege allows everything a lower one does. */
  lemma ModerationMonotone(action: ModerationAction, lower: Option<char>, higher: Option<char>)
    requires ModerationPrivilegeRank(lower) <= ModerationPrivilegeRank(higher)
    ensures CanPerformModeration(action, lower) ==> CanPerformModeration(action, higher)
  {
  }

  // ---------------------------------------------------------------------
  // sanitizeUrlCandidate
  // ---------------------------------------------------------------------

  /** `URL_TRAILING_CHARS`. */
  const UrlTrailingChars: set<char> := {'.', ',', ')', ']', '}', '>', '"', '\'', ':', ';', '…'}

  /** The longest prefix of `s` that does not end with a trailing character. */
  function WithoutTrailing(s: string): (r: string)
    ensures |r| <= |s| && r == s[..|r|]
    ensures r == [] || r[|r| - 1] !in UrlTrailingChars
    ensures forall k :: |r| <= k < |s| ==> s[k] in UrlTrailingChars
  {
    if s != [] && s[|s| - 1] in UrlTrailingChars then WithoutTrailing(s[..|s| - 1]) else s
  }

  /** `sanitizeUrlCandidate`: steps the end back over trailing punctuation. */
  method SanitizeUrlCandidate(candidate: string) returns (r: string)
    ensures r == WithoutTrailing(candidate)
  {
    var end := |candidate|;
    assert candidate[..end] == candidate;
    while end > 0 && candidate[end - 1] in UrlTrailingChars
      invariant 0 <= end <= |candidate|
      invariant WithoutTrailing(candidate[..end]) == WithoutTrailing(candidate)
    {
      assert candidate[..end][..end - 1] == candidate[..end - 1];
      end := end - 1;
    }
    assert candidate[..end] == WithoutTrailing(candidate[..end]);
    r := candidate[..end];
  }

  /** Cleaning a cleaned candidate changes nothing. */
  lemma WithoutTrailingIdempotent(s: string)
    ensures WithoutTrailing(WithoutTrailing(s)) == WithoutTrailing(s)
  {
  }

  // ---------------------------------------------------------------------
  // Buffer keys
  // ---------------------------------------------------------------------

  const StatusChannelKey: string := "_status"

  datatype BufferType = StatusBuffer | ChannelBuffer | QueryBuffer

  /** `channelKeyOrStatus`: the lower-cased name, or the status key for null or blank. */
  function ChannelKeyOrStatus(name: Option<string>): (r: string)
    ensures Lower(r) == r
  {
    LowerIdempotent(StatusChannelKey);
    if name.Some? && !IsBlank(name.value) then
      LowerIdempotent(name.value);
      Lower(name.value)
    else StatusChannelKey
  }

  /** `bufferTypeForKey`. */
  function BufferTypeForKey(key: string): BufferType {
    if key == StatusChannelKey then StatusBuffer
    else if StartsWith(key, "#") then ChannelBuffer
    else QueryBuffer
  }

  /**
   * How a name is classified once turned into a key: no name, a blank one
   * or `_status` in any case is the status buffer; a name starting with `#`
   * is a channel; anything else is a query.
   */
  lemma KeyClassification(name: Option<string>)
    ensures BufferTypeForKey(ChannelKeyOrStatus(name)) == StatusBuffer <==>
      name.None? || IsBlank(name.value) || EqualsIgnoreCase(name.value, StatusChannelKey)
    ensures BufferTypeForKey(ChannelKeyOrStatus(name)) == ChannelBuffer <==>
      name.Some? && !IsBlank(name.value) && StartsWith(name.value, "#")
  {
    LowerIdempotent(StatusChannelKey);
    assert Lower(StatusChannelKey) == StatusChannelKey;
    if name.Some? && !IsBlank(name.value) {
      var s := name.value;
      assert StartsWith(Lower(s), "#") <==> StartsWith(s, "#") by {
        if |s| >= 1 {
          assert Lower(s)[..1] == [LowerChar(s[0])];
          assert s[..1] == [s[0]];
        }
      }
    }
  }

  // ---------------------------------------------------------------------
  // eventChannelName
  // ---------------------------------------------------------------------

  /**
   * `eventChannelName`: the buffer an event belongs to. A message to a
   * channel goes to that channel; a private message to us goes to the
   * sender's buffer; other events name their channel or target, or none.
   */
  function EventChannelName(event: IrcModels.UiEvent, selfNick: string): Option<string> {
    match event
    case Chat(nick, target, _, _) =>
      if StartsWith(target, "#") then Some(target)
      else if EqualsIgnoreCase(target, selfNick) then Some(nick)
      else Some(target)
    case Notice(nick, target, _, _) =>
      if target.None? || IsBlank(target.value) then None
      else if StartsWith(target.value, "#") then target
      else if EqualsIgnoreCase(target.value, selfNick) then nick
      else target
    case Join(_, channel, _) => Some(channel)
    case Part(_, channel, _, _) => Some(channel)
    case Kick(_, channel, _, _, _) => Some(channel)
    case Topic(channel, _, _, _, _) => Some(channel)
    case System(_, target, _) => target
    case _ => None
  }

  /** Events addressed to a channel land in that channel's buffer. */
  lemma ChannelEventsInChannelBuffer(event: IrcModels.UiEvent, selfNick: string)
    requires event.Chat? || event.Join? || event.Part? || event.Kick? || event.Topic?
    requires StartsWith(if event.Chat? then event.target else event.channel, "#")
    ensures EventChannelName(event, selfNick).Some?
    ensures BufferTypeForKey(ChannelKeyOrStatus(EventChannelName(event, selfNick))) == ChannelBuffer
  {
    var name := EventChannelName(event, selfNick);
    assert name.value[0] == '#';
    assert !IsBlank(name.value);
    KeyClassification(name);
  }

  /** A private message to us lands in the sender's buffer; nick changes and quits name no buffer. */
  lemma PrivateMessageBuffer(nick: string, target: string, text: string, time: int, selfNick: string)
    requires EqualsIgnoreCase(target, selfNick) && !StartsWith(target, "#")
    ensures EventChannelName(IrcModels.Chat(nick, target, text, time), selfNick) == Some(nick)
    ensures forall e: IrcModels.UiEvent :: e.Nick? || e.Quit? ==> EventChannelName(e, selfNick).None?
  {
  }
}
