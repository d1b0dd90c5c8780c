# A verified model of the ircAndroid client core

ircAndroid is an Android IRC client written in Kotlin. This project models the
deterministic logic underneath its user interface in Dafny, and proves
properties of that model. The logic covers:

- the wire parser for IRC lines;
- the protocol session kept by `IrcClient`;
- the mapping from parsed messages to UI events;
- the mIRC formatting scanner;
- the link-preview cache;
- the JSON mappers behind the persisted stores;
- a set of helpers from the chat screen.

Every `.dfy` file in the directory belongs to the project, and all of them are
verified together. No module uses any library.

## Layout

| file | module | models |
|---|---|---|
| `wrappers.dfy` | `Wrappers` | `Option`, the stand-in for Kotlin's nullable types, and the `?: continue` idiom |
| `text.dfy` | `Text` | the Kotlin string functions the code relies on: trim, case, `compareTo`, split, join, indexOf, number text, 32/64-bit wrap-around |
| `irc_parser.dfy` | `IrcParser` | `IrcParser.kt`: `parse`, `parseTags`, `unescapeTagValue`, `nickFromPrefix`, `serverTimeMillis` |
| `irc_models.dfy` | `IrcModels` | `IrcModels.kt`: `UiEvent`, `ChannelUser`, `modeRank`, `parseIrcLine` |
| `channel_members.dfy` | `ChannelMembers` | the channel membership table of `IrcClient.kt`: NAMES, JOIN/PART/QUIT/KICK/NICK, MODE, ISUPPORT `PREFIX`, `publishUsers` |
| `encoding.dfy` | `Encoding` | UTF-8 (`toByteArray`) and base64 with padding (`Base64.NO_WRAP`), per section 4 of RFC 4648 |
| `irc_session.dfy` | `IrcSession` | `IrcClient.kt` as a state machine over values: one function per handler |
| `session_properties.dfy` | `SessionProperties` | the properties of that state machine: CAP/SASL, PING, auto-join, rate limit, reconnect backoff |
| `irc_client.dfy` | `Client` | the `IrcClient` class itself: its fields updated in place, one method per handler |
| `irc_formatting.dfy` | `IrcFormatting` | `IrcFormatting.kt`: the control-code scanner, `currentStyle`, `mircPalette`, the trim loop of `findLinks`, `normalizeLinkUrl` |
| `link_preview_cache.dfy` | `PreviewCache` | `LinkPreviewCache.kt`: an access-ordered map of at most 64 entries with a time to live of ten minutes |
| `json.dfy` | `Json` | the parts of `org.json` the stores use: `put`, `opt*`, `toString()` and the tokenizer |
| `persisted_event_mapper.dfy` | `EventMapper` | `persistence/PersistedEventMapper.kt` |
| `network_profiles_store.dfy` | `NetworkProfiles` | `NetworkProfilesStore.kt` |
| `mentions_store.dfy` | `Mentions` | `MentionsStore.kt` |
| `chat_helpers.dfy` | `ChatHelpers` | the pure helpers of `MainActivity.kt`: highlights, the ignore list, quiet hours, moderation rights, URL sanitising, buffer keys |
| `chat_screen.dfy` | `ChatScreen` | the per-buffer state of `MainActivity.kt` that is changed in place: the input history and `handleSelfKick` |

## How the model is built

- **Loop-based code becomes methods proved against a function.** This covers
  `parse`, `parseTags`, `unescapeTagValue`, the formatting scanner, the
  `findLinks` trim, `parseProfiles`, `parseMentions`, `jsonObject`,
  `containsWord`, `sanitizeUrlCandidate`, `handleSelfKick` and the ISUPPORT and
  NAMES loops. Each method's `ensures` says its result or new state equals a
  specification function of its inputs. The properties the code promises are
  then proved as lemmas about that function.

- **`IrcClient` is a class.** The Dafny class `Client.IrcClient` groups the
  fields the Kotlin class declares into four records:
  - `roster`: `autoJoinChannel`, `namesBuffer`, `usersMap`, `trackedChannel`,
    `modeToSymbol` and the published users list;
  - `handshake`: `wantCaps`, `capsAcked`, `negotiatingCaps`, `saslPending` and
    the echo-message flag;
  - `link`: `lastConfig`, `userInitiatedDisconnect`, `reconnectJob`,
    `reconnectAttempts`, `networkAvailable`, `nextForcedDelayMs` and the
    connected flag;
  - `outbox`: every line `sendRaw` has been asked to write, oldest first.

  Each handler is a method that updates these fields in place. It is proved to
  leave them as the matching function of `IrcSession` says.
  `SessionProperties` states what the handlers promise over those functions:
  - the invariant every handler keeps (a well-formed table, a valid NAMES
    buffer, at most 10 attempts);
  - at most one `CAP END` and one auto-join per session;
  - the reconnect delays.

  The pending reconnect job is a record holding the configuration, the delay
  chosen and the attempt it was scheduled for. Its firing is a separate method
  (`ReconnectJobFires`).

  Three handlers of the source have defects, listed under "## Findings". For
  each, the session functions and the class run the corrected handler, and
  the handler as written is modelled next to it:
  - `AUTHENTICATE`: the model answers a `+` prompt given as the first middle
    parameter too (`IrcSession.HandleAuthenticate`). The source, as
    `IrcSession.HandleAuthenticateAsWritten`, answers only a trailing `+`.
  - `KICK`: the model republishes whenever the victim was in the table
    (`ChannelMembers.KickChangeFixed`). The source, as
    `ChannelMembers.KickChange`, republishes only when the victim had a symbol.
  - The reconnect job: the model keeps the bumped counter across `connect`
    (`IrcSession.ReconnectFires`). The source, as
    `IrcSession.ReconnectFiresAsWritten`, zeroes it again.

  So on those three inputs `LineStep`, `Run` and the class methods built on
  them describe the corrected client, not the source as written. "## Left
  out" lists each affected member.

- **The membership table is two values.** It is modelled as a map from the
  exact nick to its privilege symbol, together with the order in which nicks
  were first inserted. That order is the one in which the `LinkedHashMap`
  behind `mutableMapOf` iterates its entries. The sort in `publishUsers` then
  overrides it, except that the sort is stable
  (`ChannelMembers.SortUsersStable`): entries with the same rank and nicks
  equal ignoring case keep their table order. What is proved about the
  published list (sorted, and exactly the table's entries) does not depend on
  that order.

- **Inputs the code takes from the platform become parameters:**
  - the clock: `now` for the cache and `defaultNow` for `serverTimeMillis`;
  - the jitter in `0..500`;
  - the hour of day for quiet hours;
  - the fresh UUIDs (`freshId` / `freshIds`);
  - `Instant.parse` (`parseInstant`);
  - the regular-expression fallbacks of `parseIrcLine`;
  - the URL pattern's matches in `findLinks`;
  - a DataStore that cannot be read, which is `None`.

- **JSON objects are ordered pair lists, not maps.** `JSONObject` keeps its
  names in insertion order, and the text `toString()` writes depends on that
  order. So an object here is a list of name/value pairs:
  - `put` replaces the value of a present name where it stands, or appends;
  - `opt` finds a name's value;
  - with distinct names, the list is exactly the map the code sees, and the
    round-trip lemmas say so.

  The DataStore preferences are a `map<string, string>`.

- **Integer widths are written out.** Kotlin's `Int` and `Long` are
  unbounded integers here, with their widths made explicit where they matter:
  - the `Long` shift of the backoff formula;
  - `now - timestamp` in the cache, which wraps at 64 bits;
  - `optInt` of a `Long`;
  - the `%` of the palette guard, which truncates toward zero.

## Model

| member | source | states |
|---|---|---|
| IrcParser.SkipSpaces | app/src/main/java/com/example/ircclient/IrcParser.kt:38 | the index reached is at or after the start and is the end of the line or a non-space |
| IrcParser.SkipSpacesSpan | app/src/main/java/com/example/ircclient/IrcParser.kt:38 | every character stepped over is a space |
| IrcParser.SkipSpacesLoop | app/src/main/java/com/example/ircclient/IrcParser.kt:38 | the loop stops exactly where SkipSpaces does |
| IrcParser.TokenEnd | app/src/main/java/com/example/ircclient/IrcParser.kt:43 | the index reached is at or after the start and is the end of the line or a space |
| IrcParser.TokenEndSpan | app/src/main/java/com/example/ircclient/IrcParser.kt:43 | every character stepped over is a non-space |
| IrcParser.TokenLoop | app/src/main/java/com/example/ircclient/IrcParser.kt:43 | the loop stops exactly where TokenEnd does |
| IrcParser.Parse | app/src/main/java/com/example/ircclient/IrcParser.kt:15-70 | the index-walking parser returns exactly the message ParsedLine describes, or null where it does |
| IrcParser.ParseCommand | app/src/main/java/com/example/ircclient/IrcParser.kt:37-69 | after the prefix: a line with no command is rejected, otherwise command and parameters as AfterPrefix describes |
| IrcParser.ReadParams | app/src/main/java/com/example/ircclient/IrcParser.kt:47-60 | the parameter loop yields the middle parameters and trailing parameter that ParamsFrom describes |
| IrcParser.TagsWithoutSpaceRejected | app/src/main/java/com/example/ircclient/IrcParser.kt:22-24 | a line opening a tag section with no space anywhere is rejected |
| IrcParser.PrefixWithoutSpaceRejected | app/src/main/java/com/example/ircclient/IrcParser.kt:30-32 | a prefix with no closing space is rejected, with or without tags before it |
| IrcParser.NoCommandRejected | app/src/main/java/com/example/ircclient/IrcParser.kt:38-39 | a line of nothing but spaces is rejected |
| IrcParser.RawIsLine | app/src/main/java/com/example/ircclient/IrcParser.kt:62-63 | a parsed message keeps the whole line as its raw text |
| IrcParser.MiddleParamsWellFormed | app/src/main/java/com/example/ircclient/IrcParser.kt:50-59 | every middle parameter is non-empty, holds no space and does not start with ':' |
| IrcParser.TrailingIsVerbatimSuffix | app/src/main/java/com/example/ircclient/IrcParser.kt:53-55 | the trailing parameter is the rest of the line after a ':' that starts a token |
| IrcParser.ParamsRoundTrip | app/src/main/java/com/example/ircclient/IrcParser.kt:47-60 | well-formed middle parameters and any trailing text, printed one space apart, parse back to themselves |
| IrcParser.LineRoundTrip | app/src/main/java/com/example/ircclient/IrcParser.kt:15-88 | a whole line of one tag, a prefix, a command and parameters parses back to exactly those parts |
| IrcParser.ParseTags | app/src/main/java/com/example/ircclient/IrcParser.kt:72-88 | the entry loop builds exactly the map ParsedTags describes |
| IrcParser.SingleTag | app/src/main/java/com/example/ircclient/IrcParser.kt:72-88 | one k=v entry whose value needs no unescaping gives the map holding k to v alone |
| IrcParser.FoldTagsKeys | app/src/main/java/com/example/ircclient/IrcParser.kt:76-86 | a key is in the tag map exactly when some non-empty entry has that key |
| IrcParser.FoldTagsLast | app/src/main/java/com/example/ircclient/IrcParser.kt:76-86 | a key maps to the value of its last non-empty entry: later duplicates overwrite |
| IrcParser.EntryWithoutEquals | app/src/main/java/com/example/ircclient/IrcParser.kt:78-80 | an entry without '=' is a key with the empty value |
| IrcParser.UnescapeTagValue | app/src/main/java/com/example/ircclient/IrcParser.kt:91-109 | the character loop computes Unescaped of its input |
| IrcParser.UnescapedNotLonger | app/src/main/java/com/example/ircclient/IrcParser.kt:91-109 | unescaping never makes a value longer |
| IrcParser.UnescapedWithoutBackslash | app/src/main/java/com/example/ircclient/IrcParser.kt:91-109 | a value without a backslash is returned unchanged |
| IrcParser.KnownEscapes | app/src/main/java/com/example/ircclient/IrcParser.kt:96-102 | the escapes of ';', space, CR, LF and backslash decode to those characters |
| IrcParser.UnknownEscapeKept | app/src/main/java/com/example/ircclient/IrcParser.kt:96-106 | any other backslash, also a lone trailing one, is copied through with the character after it |
| IrcParser.UnescapeEscaped | app/src/main/java/com/example/ircclient/IrcParser.kt:90-109 | unescaping undoes the message-tags escaping of any value |
| IrcParser.EscapedFitsTagSection | app/src/main/java/com/example/ircclient/IrcParser.kt:90-102 | an escaped value holds no space and no ';', so it cannot end a tag section or entry early |
| IrcParser.ServerTimeMillis | app/src/main/java/com/example/ircclient/IrcParser.kt:111-114 | the time tag's instant when it parses, else the default time; also when the tag is missing |
| IrcParser.NickFromPrefix | app/src/main/java/com/example/ircclient/IrcParser.kt:116-120 | null exactly for a null prefix; otherwise the part of the prefix before its first '!', or the whole prefix |
| IrcModels.ModeRank | app/src/main/java/com/example/ircclient/IrcModels.kt:17-24 | a rank from 0 to 5, positive exactly for the five privilege symbols |
| IrcModels.ModeRankOrder | app/src/main/java/com/example/ircclient/IrcModels.kt:17-24 | the symbols ~ & @ % + rank 5, 4, 3, 2, 1 in that order |
| IrcModels.ModeRankInjective | app/src/main/java/com/example/ircclient/IrcModels.kt:17-24 | two privilege symbols share a rank only when they are the same symbol |
| IrcModels.ActionText | app/src/main/java/com/example/ircclient/IrcModels.kt:47-51 | a text wrapped as a CTCP ACTION is unwrapped so that wrapping it again gives the text back; any other text is kept |
| IrcModels.ActionRoundTrip | app/src/main/java/com/example/ircclient/IrcModels.kt:49-51 | wrapping a body as an ACTION and unwrapping it gives the body back |
| IrcModels.SetAt | app/src/main/java/com/example/ircclient/IrcModels.kt:116 | a set-at time, when present, is a 64-bit value (the seconds times 1000 with Long wrap-around) |
| IrcModels.ParseIrcLine | app/src/main/java/com/example/ircclient/IrcModels.kt:36-38 | PING lines and NAMES replies give no event |
| IrcModels.StructuredWins | app/src/main/java/com/example/ircclient/IrcModels.kt:40-96 | when the parser accepts the line and a command branch decides, that branch's event (or null) is the answer |
| IrcModels.FinalFallback | app/src/main/java/com/example/ircclient/IrcModels.kt:125-189 | when neither the structured path nor any regex decides, the line becomes a system event stamped now |
| IrcModels.PrivmsgIsChat | app/src/main/java/com/example/ircclient/IrcModels.kt:45-53 | PRIVMSG in any case is a chat line to parameter 0 with the trailing text, unwrapped exactly when it is an ACTION |
| IrcModels.JoinChannel | app/src/main/java/com/example/ircclient/IrcModels.kt:59-62 | JOIN takes its channel from parameter 0, else from the trailing text, and yields an event exactly when it is not blank |
| IrcModels.BlankReasonIsNull | app/src/main/java/com/example/ircclient/IrcModels.kt:63-80 | PART, QUIT and KICK events have no reason exactly when the trailing text is missing or blank |
| IrcModels.KickNeedsChannelAndTarget | app/src/main/java/com/example/ircclient/IrcModels.kt:72-80 | KICK yields an event exactly when channel and victim are both present and not blank; a blank sender is a null kicker |
| IrcModels.NumericIsNoCommand | app/src/main/java/com/example/ircclient/IrcModels.kt:44-98 | a three-digit command never reaches a named branch |
| IrcModels.NumericKinds | app/src/main/java/com/example/ircclient/IrcModels.kt:98-121 | numeric replies yield only system lines and topics |
| IrcModels.SystemNumericDefault | app/src/main/java/com/example/ircclient/IrcModels.kt:100-107 | only the three-digit commands 001, 375, 372, 376 and 422 have a default text |
| IrcModels.SystemNumerics | app/src/main/java/com/example/ircclient/IrcModels.kt:100-107 | those numerics show the trailing text, or their default when there is none |
| IrcModels.OtherNumericsNull | app/src/main/java/com/example/ircclient/IrcModels.kt:120 | every other numeric except 332 and 333 yields null and ends the parse |
| IrcModels.TopicWhoTime | app/src/main/java/com/example/ircclient/IrcModels.kt:112-118 | 333 yields a topic with the setter from parameter 2 and the time set, in milliseconds, from parameter 3 |
| ChannelMembers.Put | app/src/main/java/com/example/ircclient/IrcClient.kt:47 | an assignment sets the nick's symbol, keeps an existing key in place and leaves every other nick as it was |
| ChannelMembers.PutIfAbsent | app/src/main/java/com/example/ircclient/IrcClient.kt:221 | a nick with a symbol is left alone; otherwise it gets the given symbol; no other nick changes |
| ChannelMembers.Remove | app/src/main/java/com/example/ircclient/IrcClient.kt:230 | the nick leaves the table and every other nick keeps its symbol |
| ChannelMembers.EntriesOf | app/src/main/java/com/example/ircclient/IrcClient.kt:212-213 | the listed users are exactly the table's entries with their symbols |
| ChannelMembers.EntriesOfOnce | app/src/main/java/com/example/ircclient/IrcClient.kt:212-213 | with distinct keys, each table entry is listed exactly once and nothing else is listed |
| Text.LexLessAsymmetric | app/src/main/java/com/example/ircclient/IrcClient.kt:214 | the nick order of `compareTo` is strict: no two strings come before each other |
| Text.LexLessTransitive | app/src/main/java/com/example/ircclient/IrcClient.kt:214 | the nick order of `compareTo` is transitive |
| ChannelMembers.BeforeAsymmetric | app/src/main/java/com/example/ircclient/IrcClient.kt:214 | higher rank first, then lower-cased nick, is a strict order |
| ChannelMembers.Insert | app/src/main/java/com/example/ircclient/IrcClient.kt:214 | inserting into a sorted list keeps it sorted and adds exactly one element |
| ChannelMembers.SortUsers | app/src/main/java/com/example/ircclient/IrcClient.kt:214 | the sorted list is a permutation of its input and sorted by rank then nick |
| ChannelMembers.BeforeThenNotBefore | app/src/main/java/com/example/ircclient/IrcClient.kt:214 | strictly before an entry that a third does not precede means strictly before the third |
| ChannelMembers.InsertStable | app/src/main/java/com/example/ircclient/IrcClient.kt:214 | inserting into a sorted list puts the new entry behind every entry the comparator ties with it |
| ChannelMembers.SortUsersStable | app/src/main/java/com/example/ircclient/IrcClient.kt:214 | `sortedWith` is stable: entries with equal rank and equal lower-cased nick keep the table's insertion order |
| ChannelMembers.PublishedIsTable | app/src/main/java/com/example/ircclient/IrcClient.kt:351-355 | the published list is sorted and is a permutation of the table's nick and symbol pairs: each pair appears exactly once, and nothing else appears |
| ChannelMembers.NamesEntry | app/src/main/java/com/example/ircclient/IrcClient.kt:191-197 | a 353 word gives a non-blank nick with the leading privilege symbol taken off, or nothing when no nick is left |
| ChannelMembers.NamesOfEntries | app/src/main/java/com/example/ircclient/IrcClient.kt:186-201 | everything a 353 line buffers has a non-blank nick and at most a privilege symbol |
| ChannelMembers.CollapseKeys | app/src/main/java/com/example/ircclient/IrcClient.kt:204-211 | after the 366 loop the table holds the nicks it held plus exactly those of the batch |
| ChannelMembers.CollapseRank | app/src/main/java/com/example/ircclient/IrcClient.kt:205-211 | each nick ends with a symbol that outranks each of its batch entries and comes from one of them or the old table |
| ChannelMembers.CollapseAbsorbs | app/src/main/java/com/example/ircclient/IrcClient.kt:206-210 | a batch already absorbed in the table leaves it unchanged |
| ChannelMembers.CollapseAppend | app/src/main/java/com/example/ircclient/IrcClient.kt:206-210 | processing two batches one after the other is processing their concatenation |
| ChannelMembers.NamesBatchTwice | app/src/main/java/com/example/ircclient/IrcClient.kt:186-216 | a NAMES batch that arrives twice before its 366 gives the same table as once |
| ChannelMembers.EndOfNamesTable | app/src/main/java/com/example/ircclient/IrcClient.kt:202-216 | the new table is well formed and holds exactly the batch's nicks, each with its highest symbol |
| ChannelMembers.ZipModes | app/src/main/java/com/example/ircclient/IrcClient.kt:275-278 | the installed map has exactly the mode letters as keys |
| ChannelMembers.ZipModesAt | app/src/main/java/com/example/ircclient/IrcClient.kt:276-277 | with distinct letters each letter maps to the symbol at its own index |
| ChannelMembers.DefaultZip | app/src/main/java/com/example/ircclient/IrcClient.kt:49-56 | the default map is the one PREFIX=(qaohv)~&@%+ would install |
| ChannelMembers.PrefixMap | app/src/main/java/com/example/ircclient/IrcClient.kt:269-279 | a token installs a map exactly when it starts with PREFIX and has equally long non-empty mode and symbol lists; the map's keys are the modes |
| ChannelMembers.StandardPrefix | app/src/main/java/com/example/ircclient/IrcClient.kt:270-278 | the usual PREFIX=(qaohv)~&@%+ installs exactly the default map |
| ChannelMembers.EmptyPrefixToken | app/src/main/java/com/example/ircclient/IrcClient.kt:269-274 | a bare PREFIX= is read through the PREFIX fallback and installs '=' to '=' |
| ChannelMembers.IsupportMap | app/src/main/java/com/example/ircclient/IrcClient.kt:265-282 | the map after an ISUPPORT reply is the old one or the one some token installs |
| ChannelMembers.IsupportWithoutPrefix | app/src/main/java/com/example/ircclient/IrcClient.kt:268-281 | tokens that install nothing leave the map as it was |
| ChannelMembers.ApplyModeChange | app/src/main/java/com/example/ircclient/IrcClient.kt:331-349 | a mode change keeps the table well formed and touches no other nick |
| ChannelMembers.GrantRaises | app/src/main/java/com/example/ircclient/IrcClient.kt:333-341 | a + mode never lowers a rank and lands on the mode's symbol exactly when that outranks the old one or there was none |
| ChannelMembers.RevokeOnlyOwnSymbol | app/src/main/java/com/example/ircclient/IrcClient.kt:343-347 | a - mode clears the symbol only when it is the mode's own, and otherwise changes nothing |
| ChannelMembers.GrantThenRevoke | app/src/main/java/com/example/ircclient/IrcClient.kt:331-349 | giving a plain member a status mode and taking it away restores the table |
| ChannelMembers.ModeLetters | app/src/main/java/com/example/ircclient/IrcClient.kt:292-308 | the letter loop keeps the table well formed |
| ChannelMembers.ModeUpdate | app/src/main/java/com/example/ircclient/IrcClient.kt:284-310 | the table is updated only for a MODE with a mode string on the tracked channel, and stays well formed |
| ChannelMembers.NickRenames | app/src/main/java/com/example/ircclient/IrcClient.kt:312-320 | a known nick is re-keyed with its symbol and republished, other nicks untouched; an unknown nick changes nothing |
| ChannelMembers.KickOfPlainMemberNotPublished | app/src/main/java/com/example/ircclient/IrcClient.kt:322-328 | as written, kicking a member with no symbol removes it from the table but the published list still shows it |
| ChannelMembers.KickChangeFixed | app/src/main/java/com/example/ircclient/IrcClient.kt:322-328 | the corrected kick changes the table as the source does |
| ChannelMembers.KickFixedPublishesChange | app/src/main/java/com/example/ircclient/IrcClient.kt:322-328 | with the fix every kick that changes the table republishes it, so the list no longer shows the victim |
| ChannelMembers.JoinChange | app/src/main/java/com/example/ircclient/IrcClient.kt:218-226 | a JOIN line with a nick adds it as a plain member if absent and republishes; other lines change nothing |
| ChannelMembers.JoinKeepsSymbol | app/src/main/java/com/example/ircclient/IrcClient.kt:218-226 | a JOIN never overwrites a symbol the table has and always leaves the nick present |
| ChannelMembers.PartChange | app/src/main/java/com/example/ircclient/IrcClient.kt:227-235 | a PART or QUIT line with a nick removes it and republishes; other lines change nothing |
| IrcSession.DefaultConfig | app/src/main/java/com/example/ircclient/IrcClient.kt:28-39 | a configuration given only server and nick has no SASL credentials and no channel |
| IrcSession.InitialInvariant | app/src/main/java/com/example/ircclient/IrcClient.kt:41-70 | a new client starts with a well-formed empty table and no attempts |
| IrcSession.NonBlankKeeps | app/src/main/java/com/example/ircclient/IrcClient.kt:362 | the filter keeps exactly the non-blank words |
| IrcSession.FirstStsFinds | app/src/main/java/com/example/ircclient/IrcClient.kt:366 | the STS token found is an sts= offer from the list, and none is found only when there is none |
| IrcSession.RequestedSpec | app/src/main/java/com/example/ircclient/IrcClient.kt:377-382 | CAP REQ asks for echo-message, server-time and sasl in that order, each when offered and not acked, sasl only with both credentials |
| SessionProperties.ShiftWithinCap | app/src/main/java/com/example/ircclient/IrcClient.kt:503 | within the attempt cap the Long shift neither wraps nor loses bits |
| SessionProperties.BaseDelayValues | app/src/main/java/com/example/ircclient/IrcClient.kt:503 | the base delay is 1 s doubled per attempt, held at 60 s from the sixth attempt |
| SessionProperties.BaseDelayMonotone | app/src/main/java/com/example/ircclient/IrcClient.kt:503 | the base delay never shrinks as attempts grow and doubles while under the cap |
| SessionProperties.ScheduleChoosesDelay | app/src/main/java/com/example/ircclient/IrcClient.kt:496-507 | no job without a config, after a user disconnect or while connected; otherwise a job with the last config whose delay is the forced one, else 0 when immediate, else backoff plus jitter |
| SessionProperties.ConnectKeepsInvariant | app/src/main/java/com/example/ircclient/IrcClient.kt:87-134 | connect and session set-up keep the invariant |
| SessionProperties.ScheduleKeepsInvariant | app/src/main/java/com/example/ircclient/IrcClient.kt:496-521 | scheduling a reconnect keeps the invariant |
| SessionProperties.ReconnectFiresKeepsInvariant | app/src/main/java/com/example/ircclient/IrcClient.kt:509-519 | the reconnect coroutine's action keeps the attempt counter capped at 10 |
| SessionProperties.ClosingKeepsInvariant | app/src/main/java/com/example/ircclient/IrcClient.kt:250-260 | closing, disconnect, quit, reconnectNow and network changes keep the invariant |
| SessionProperties.DisconnectStopsReconnect | app/src/main/java/com/example/ircclient/IrcClient.kt:473-488 | after disconnect neither the socket closing nor the network returning schedules a reconnect |
| SessionProperties.ImmediateRetry | app/src/main/java/com/example/ircclient/IrcClient.kt:490-494 | reconnectNow and a returning network retry at once, from attempt zero, with the last config |
| SessionProperties.ReconnectWaitsForNetwork | app/src/main/java/com/example/ircclient/IrcClient.kt:511-517 | a lost network keeps a due reconnect waiting |
| SessionProperties.BackoffResetByConnect | app/src/main/java/com/example/ircclient/IrcClient.kt:92 | as written, connect zeroes the counter just bumped, so each failed reconnect waits about a second again |
| SessionProperties.BackoffGrows | app/src/main/java/com/example/ircclient/IrcClient.kt:518 | with the counter surviving connect, each failed reconnect waits longer than the last, up to the cap |
| SessionProperties.RateLimitCooldown | app/src/main/java/com/example/ircclient/IrcClient.kt:143-151 | a rate-limit line closes the socket and the next reconnect waits the 10-minute cooldown, once |
| SessionProperties.CapEndAtMostOncePerSession | app/src/main/java/com/example/ircclient/IrcClient.kt:438-444 | over a session CAP END goes out at most once, and never when no capabilities were requested |
| SessionProperties.AutoJoinAtMostOncePerSession | app/src/main/java/com/example/ircclient/IrcClient.kt:236-245 | over a session the auto-join JOIN goes out at most once, only for the configured channel |
| SessionProperties.LineStepKeepsInvariant | app/src/main/java/com/example/ircclient/IrcClient.kt:137-246 | every line keeps the table well formed, the NAMES buffer valid and the counter capped |
| SessionProperties.PingAnswered | app/src/main/java/com/example/ircclient/IrcClient.kt:157-161 | a PING :token line is answered with PONG token before anything else |
| SessionProperties.WelcomeJoinsChannel | app/src/main/java/com/example/ircclient/IrcClient.kt:237-245 | the first 001 or 376 line joins the configured channel, asks for its names and tracks it |
| SessionProperties.SaslResultEndsNegotiation | app/src/main/java/com/example/ircclient/IrcClient.kt:176-183 | a SASL result numeric ends the wait and, while negotiating, sends CAP END |
| SessionProperties.OfferedName | app/src/main/java/com/example/ircclient/IrcClient.kt:364 | an offered word names the capability before its first '=' |
| SessionProperties.CapRequestFollowsOffer | app/src/main/java/com/example/ircclient/IrcClient.kt:361-388 | an offer without STS sends one CAP REQ for the wanted unacked capabilities, or ends negotiation |
| SessionProperties.StsUpgradeReconnects | app/src/main/java/com/example/ircclient/IrcClient.kt:366-375 | an STS offer on a plain session closes it and the reconnect uses TLS on the advertised port |
| SessionProperties.PortItemFirstDecides | app/src/main/java/com/example/ircclient/IrcClient.kt:415-424 | the first port= item of an STS value decides, even when its number does not parse |
| SessionProperties.PortItemAbsent | app/src/main/java/com/example/ircclient/IrcClient.kt:415-424 | an STS value without a port= item gives no port |
| SessionProperties.SaslResponseDecodes | app/src/main/java/com/example/ircclient/IrcClient.kt:426-435 | the AUTHENTICATE response decodes to the PLAIN message of account, account, password |
| SessionProperties.PromptLine | app/src/main/java/com/example/ircclient/IrcClient.kt:428 | in AUTHENTICATE + the + is a middle parameter, not a trailing one |
| SessionProperties.PromptIgnored | app/src/main/java/com/example/ircclient/IrcClient.kt:428 | as written, the client never answers that prompt, so SASL stalls |
| SessionProperties.PromptAnswered | app/src/main/java/com/example/ircclient/IrcClient.kt:426-435 | the corrected handler answers the prompt with the encoded credentials whether + is trailing or not |
| Client.IrcClient.constructor | app/src/main/java/com/example/ircclient/IrcClient.kt:41-70 | the fields start as the source declares them, and the invariant holds |
| Client.IrcClient.SendRaw | app/src/main/java/com/example/ircclient/IrcClient.kt:446-457 | the line is appended to what has been written and nothing else changes |
| Client.IrcClient.SendMessage | app/src/main/java/com/example/ircclient/IrcClient.kt:459-461 | exactly one PRIVMSG target :text line is written |
| Client.IrcClient.Join | app/src/main/java/com/example/ircclient/IrcClient.kt:463 | exactly one JOIN line is written |
| Client.IrcClient.Part | app/src/main/java/com/example/ircclient/IrcClient.kt:464 | exactly one PART line is written |
| Client.IrcClient.RequestNames | app/src/main/java/com/example/ircclient/IrcClient.kt:466 | exactly one NAMES line is written |
| Client.IrcClient.PublishUsers | app/src/main/java/com/example/ircclient/IrcClient.kt:351-355 | the published list becomes the sorted table, the rest of the roster is untouched |
| Client.IrcClient.HandleIsupport | app/src/main/java/com/example/ircclient/IrcClient.kt:265-282 | the token loop leaves the mode map that the tokens install in order, and only that field changes |
| Client.IrcClient.ApplyUserModeChange | app/src/main/java/com/example/ircclient/IrcClient.kt:331-349 | only the table changes, by one grant or revoke |
| Client.IrcClient.HandleMode | app/src/main/java/com/example/ircclient/IrcClient.kt:284-310 | the fields move as the MODE handler of the session model says |
| Client.IrcClient.HandleNick | app/src/main/java/com/example/ircclient/IrcClient.kt:312-320 | the fields move by the rename change for this NICK |
| Client.IrcClient.HandleKick | app/src/main/java/com/example/ircclient/IrcClient.kt:322-328 | the fields move by the corrected kick change, which republishes whenever the victim was in the table; the source republishes only when the victim had a symbol (see "## Left out") |
| Client.IrcClient.CollectNames | app/src/main/java/com/example/ircclient/IrcClient.kt:187-201 | any line containing " 353 " buffers the names after its " :", whatever channel it names; any other line leaves the roster |
| Client.IrcClient.EndOfNames | app/src/main/java/com/example/ircclient/IrcClient.kt:202-216 | any line containing " 366 " rebuilds the table from the buffer, publishes it and empties the buffer, whatever channel it names |
| Client.IrcClient.TrackJoin | app/src/main/java/com/example/ircclient/IrcClient.kt:218-226 | the roster moves by the JOIN change of the line |
| Client.IrcClient.TrackPart | app/src/main/java/com/example/ircclient/IrcClient.kt:227-235 | the roster moves by the PART or QUIT change of the line |
| Client.IrcClient.AutoJoin | app/src/main/java/com/example/ircclient/IrcClient.kt:237-245 | the fields move as the auto-join step says |
| Client.IrcClient.EndCapIfReady | app/src/main/java/com/example/ircclient/IrcClient.kt:438-444 | CAP END is sent and negotiation ends only when negotiating and no SASL is pending |
| Client.IrcClient.HandleCap | app/src/main/java/com/example/ircclient/IrcClient.kt:357-413 | the fields and the close flag move as the CAP handler says |
| Client.IrcClient.HandleAuthenticate | app/src/main/java/com/example/ircclient/IrcClient.kt:426-436 | the fields move as the corrected AUTHENTICATE handler says, which also answers a `+` given as a middle parameter; the source answers only a trailing `+` (see "## Left out") |
| Client.IrcClient.HandleLine | app/src/main/java/com/example/ircclient/IrcClient.kt:137-246 | one pass of the read loop moves the fields as one line step, with the corrected KICK and AUTHENTICATE handlers, and keeps the invariant |
| Client.IrcClient.ReadLoop | app/src/main/java/com/example/ircclient/IrcClient.kt:137-248 | the loop over the lines ends in the state the run of the corrected line steps gives, invariant kept |
| Client.IrcClient.Connect | app/src/main/java/com/example/ircclient/IrcClient.kt:87-93 | the guards and resets of connect, invariant kept |
| Client.IrcClient.RunSession | app/src/main/java/com/example/ircclient/IrcClient.kt:120-261 | registration, the read loop over the corrected line steps and the finally block, in that order, invariant kept |
| Client.IrcClient.ConnectionClosed | app/src/main/java/com/example/ircclient/IrcClient.kt:250-261 | the finally block marks the link down and schedules a reconnect when one is due, invariant kept |
| Client.IrcClient.ScheduleReconnect | app/src/main/java/com/example/ircclient/IrcClient.kt:496-521 | the recorded job and delay are the ones the schedule function chooses |
| Client.IrcClient.ReconnectJobFires | app/src/main/java/com/example/ircclient/IrcClient.kt:509-519 | the due job bumps the counter once and reconnects with the last config, invariant kept; the bumped counter survives `connect`, which corrects the source (see "## Findings") |
| Client.IrcClient.Disconnect | app/src/main/java/com/example/ircclient/IrcClient.kt:473-488 | the user flag is set, any pending reconnect is cancelled and the link marked down |
| Client.IrcClient.Quit | app/src/main/java/com/example/ircclient/IrcClient.kt:468-471 | QUIT with the message is written, then the client disconnects |
| Client.IrcClient.ReconnectNow | app/src/main/java/com/example/ircclient/IrcClient.kt:490-494 | the user flag and counter are reset and an immediate reconnect is scheduled, invariant kept |
| Client.IrcClient.OnNetworkAvailable | app/src/main/java/com/example/ircclient/IrcClient.kt:523-530 | the network flag is recorded and a regained network retries at once when a reconnect was due |
| Encoding.Utf8Char | app/src/main/java/com/example/ircclient/IrcClient.kt:433 | one character takes one to four bytes, one exactly for ASCII, and a zero byte only for NUL |
| Encoding.Utf8Append | app/src/main/java/com/example/ircclient/IrcClient.kt:433 | the UTF-8 of a concatenation is the concatenation of the encodings |
| Encoding.Utf8ZeroFree | app/src/main/java/com/example/ircclient/IrcClient.kt:432-433 | the bytes of the payload hold a zero exactly where the text holds a NUL, so the three PLAIN fields stay separable when none holds one |
| Encoding.DecodeChar | app/src/main/java/com/example/ircclient/IrcClient.kt:433 | a decoded character consumes between one byte and the whole input |
| Encoding.DecodeCharOf | app/src/main/java/com/example/ircclient/IrcClient.kt:433 | a character's own bytes decode back to it, whatever follows |
| Encoding.Utf8RoundTrip | app/src/main/java/com/example/ircclient/IrcClient.kt:433 | decoding the UTF-8 of any string gives the string back |
| Encoding.Base64Char | app/src/main/java/com/example/ircclient/IrcClient.kt:433 | every 6-bit value has an alphabet character other than the pad |
| Encoding.Base64Value | app/src/main/java/com/example/ircclient/IrcClient.kt:433 | reading an alphabet character gives the value it encodes |
| Encoding.Base64ValueOfChar | app/src/main/java/com/example/ircclient/IrcClient.kt:433 | reading the character of a value gives that value back |
| Encoding.Base64Encode | app/src/main/java/com/example/ircclient/IrcClient.kt:433 | the NO_WRAP output is a whole number of four-character groups |
| Encoding.FullBlockRoundTrip | app/src/main/java/com/example/ircclient/IrcClient.kt:433 | a three-byte group decodes back to its bytes |
| Encoding.OneByteRoundTrip | app/src/main/java/com/example/ircclient/IrcClient.kt:433 | a group padded with == decodes back to its one byte |
| Encoding.TwoByteRoundTrip | app/src/main/java/com/example/ircclient/IrcClient.kt:433 | a group padded with = decodes back to its two bytes |
| Encoding.ShortRoundTrip | app/src/main/java/com/example/ircclient/IrcClient.kt:433 | one or two bytes round-trip through base64 |
| Encoding.OneGroupRoundTrip | app/src/main/java/com/example/ircclient/IrcClient.kt:433 | three bytes round-trip through base64 |
| Encoding.LeadingGroup | app/src/main/java/com/example/ircclient/IrcClient.kt:433 | a full leading group decodes in front of whatever the rest decodes to |
| Encoding.Base64RoundTrip | app/src/main/java/com/example/ircclient/IrcClient.kt:433 | decoding the base64 of any byte sequence gives it back |
| IrcFormatting.Toggle | app/src/main/java/com/example/ircclient/IrcFormatting.kt:70-104 | each toggle code flips exactly its own flag and leaves the rest and the colours |
| IrcFormatting.ToggleTwice | app/src/main/java/com/example/ircclient/IrcFormatting.kt:70-104 | the same toggle code twice restores the state |
| IrcFormatting.CurrentStyle | app/src/main/java/com/example/ircclient/IrcFormatting.kt:34-55 | weight, italics and decoration follow the flags; stripping or disabled backgrounds drop colours; inverse swaps in the background as text colour |
| IrcFormatting.KotlinRem | app/src/main/java/com/example/ircclient/IrcFormatting.kt:198 | the remainder of Kotlin's % has the dividend's sign and is smaller than the divisor |
| IrcFormatting.MircPalette | app/src/main/java/com/example/ircclient/IrcFormatting.kt:196-218 | a code maps to the opaque table colour at its guarded index modulo 16 |
| IrcFormatting.MircPaletteOfCode | app/src/main/java/com/example/ircclient/IrcFormatting.kt:217 | the codes 0 to 99 pick the table entry of their remainder modulo 16 |
| IrcFormatting.MircPalettePeriodic | app/src/main/java/com/example/ircclient/IrcFormatting.kt:198 | through the guard the palette repeats every 100 codes, negative ones included |
| IrcFormatting.RemGuard | app/src/main/java/com/example/ircclient/IrcFormatting.kt:198 | the guard gives the non-negative remainder modulo 100 |
| IrcFormatting.SixHexDigits | app/src/main/java/com/example/ircclient/IrcFormatting.kt:159-167 | six hex digits always fit in the 24 colour bits |
| IrcFormatting.NumberAt | app/src/main/java/com/example/ircclient/IrcFormatting.kt:122-130 | readNumber reads at most two digits, returns null exactly when no digit is there, and its value is the digits read |
| IrcFormatting.HexAt | app/src/main/java/com/example/ircclient/IrcFormatting.kt:152-158 | readHex returns a value and moves six places exactly when six hex digits follow, else nothing is consumed |
| IrcFormatting.ColorArgs | app/src/main/java/com/example/ircclient/IrcFormatting.kt:118-148 | the 0x03 branch changes only the colours, clears both without arguments or when stripping, and sets the palette colour of the number read |
| IrcFormatting.HexArgs | app/src/main/java/com/example/ircclient/IrcFormatting.kt:149-171 | the 0x04 branch changes only the colours, clears both without arguments or when stripping, and sets the opaque hex colour read |
| IrcFormatting.Control | app/src/main/java/com/example/ircclient/IrcFormatting.kt:69-175 | every control code moves the scanner forward |
| IrcFormatting.ResetClears | app/src/main/java/com/example/ircclient/IrcFormatting.kt:105-117 | 0x0F returns to the initial state whatever came before |
| IrcFormatting.StripKeepsColorless | app/src/main/java/com/example/ircclient/IrcFormatting.kt:118-171 | with stripColors no control code ever sets a colour |
| IrcFormatting.Flush | app/src/main/java/com/example/ircclient/IrcFormatting.kt:57-65 | flush appends one run with the open style exactly when text is open |
| IrcFormatting.FormatIrcAnnotated | app/src/main/java/com/example/ircclient/IrcFormatting.kt:15-181 | the scanning loop emits exactly the runs of the reference scanner |
| IrcFormatting.ControlStep | app/src/main/java/com/example/ircclient/IrcFormatting.kt:69-171 | the when branch for a control code gives the reference state and resume point |
| IrcFormatting.ColorStep | app/src/main/java/com/example/ircclient/IrcFormatting.kt:118-148 | the 0x03 code updates as the colour-argument reading says |
| IrcFormatting.HexStep | app/src/main/java/com/example/ircclient/IrcFormatting.kt:149-171 | the 0x04 code updates as the hex-argument reading says |
| IrcFormatting.ReadNumber | app/src/main/java/com/example/ircclient/IrcFormatting.kt:122-130 | the local readNumber reads what NumberAt describes |
| IrcFormatting.ReadHex | app/src/main/java/com/example/ircclient/IrcFormatting.kt:152-158 | the local readHex reads what HexAt describes |
| IrcFormatting.FormatFromClean | app/src/main/java/com/example/ircclient/IrcFormatting.kt:66-181 | from any point, every emitted run is non-empty and free of control codes |
| IrcFormatting.FormatClean | app/src/main/java/com/example/ircclient/IrcFormatting.kt:15-181 | the formatted text holds no control code and no empty run |
| IrcFormatting.FormatFromPlain | app/src/main/java/com/example/ircclient/IrcFormatting.kt:66-181 | once no control code follows, the open text comes out as a single run |
| IrcFormatting.PlainLineUnchanged | app/src/main/java/com/example/ircclient/IrcFormatting.kt:15-181 | a line without control codes comes out unchanged in the plain style |
| IrcFormatting.FormatFromSubsequence | app/src/main/java/com/example/ircclient/IrcFormatting.kt:66-181 | from any point the emitted text is the rest of the input with characters deleted |
| IrcFormatting.FormatSubsequence | app/src/main/java/com/example/ircclient/IrcFormatting.kt:15-181 | the formatted text is a subsequence of the input |
| IrcFormatting.ControlSpan | app/src/main/java/com/example/ircclient/IrcFormatting.kt:69-174 | in every style state, the scanner resumes exactly where the code and its arguments end |
| IrcFormatting.FormatFromText | app/src/main/java/com/example/ircclient/IrcFormatting.kt:66-181 | from any point the emitted text is the open text followed by the rest of the input with each code and its arguments deleted |
| IrcFormatting.FormatText | app/src/main/java/com/example/ircclient/IrcFormatting.kt:15-181 | the formatted text is exactly the input with each control code and its arguments deleted and nothing else, whatever the two switches say |
| IrcFormatting.StrippedSubsequence | app/src/main/java/com/example/ircclient/IrcFormatting.kt:118-174 | deleting the codes and their arguments leaves a subsequence of the input |
| IrcFormatting.ResetSplits | app/src/main/java/com/example/ircclient/IrcFormatting.kt:105-117 | the text of two halves joined by a reset code is the text of each half formatted alone |
| IrcFormatting.TrimLinkEnd | app/src/main/java/com/example/ircclient/IrcFormatting.kt:233-237 | the trim stops at the start or at a character outside the trailing punctuation, and drops only such punctuation |
| IrcFormatting.FindLinks | app/src/main/java/com/example/ircclient/IrcFormatting.kt:223-240 | one range per match, starting at the match, ending at the trimmed end, with the trimmed text as URL |
| IrcFormatting.NormalizeLinkUrl | app/src/main/java/com/example/ircclient/IrcFormatting.kt:242-250 | www. links get an http:// scheme and every other link is kept |
| IrcFormatting.WwwIsNoScheme | app/src/main/java/com/example/ircclient/IrcFormatting.kt:243-248 | a www. link starts with none of the schemes tested before it, so the www. branch is reached |
| PreviewCache.Lookup | app/src/main/java/com/example/ircclient/LinkPreviewCache.kt:34 | a URL is found exactly when some entry is stored under it |
| PreviewCache.Remove | app/src/main/java/com/example/ircclient/LinkPreviewCache.kt:36 | no entry is left under the removed URL and nothing is added |
| PreviewCache.RemoveLookup | app/src/main/java/com/example/ircclient/LinkPreviewCache.kt:44 | after a remove the URL is gone and every other URL finds what it found before |
| PreviewCache.RemoveDistinct | app/src/main/java/com/example/ircclient/LinkPreviewCache.kt:16-20 | removing keeps the keys distinct and adds no key |
| PreviewCache.RemoveLength | app/src/main/java/com/example/ircclient/LinkPreviewCache.kt:36 | removing a stored URL drops exactly one entry; removing an absent one changes nothing |
| PreviewCache.LookupSnoc | app/src/main/java/com/example/ircclient/LinkPreviewCache.kt:16 | an entry appended under a new key is found under that key and nothing else changes |
| PreviewCache.PutThenLookup | app/src/main/java/com/example/ircclient/LinkPreviewCache.kt:24 | a stored value is what the next lookup finds, and it is the most recently used entry |
| PreviewCache.PutKeepsOthers | app/src/main/java/com/example/ircclient/LinkPreviewCache.kt:16-20 | storing leaves every other URL as it was, except the least recently used one when a new key overflows the map |
| PreviewCache.PutKeepsBounded | app/src/main/java/com/example/ircclient/LinkPreviewCache.kt:16-20 | keys stay distinct and at most 64 are kept; a replaced key keeps the size, a new one grows it unless the map is full |
| PreviewCache.GetMissing | app/src/main/java/com/example/ircclient/LinkPreviewCache.kt:34 | get of an absent URL answers null and changes nothing |
| PreviewCache.GetFresh | app/src/main/java/com/example/ircclient/LinkPreviewCache.kt:33-39 | an entry at most ten minutes old is returned and becomes the most recently used, every lookup unchanged |
| PreviewCache.GetExpired | app/src/main/java/com/example/ircclient/LinkPreviewCache.kt:35-37 | an entry older than ten minutes is dropped and null is answered |
| PreviewCache.GetKeepsBounded | app/src/main/java/com/example/ircclient/LinkPreviewCache.kt:33-39 | get keeps the keys distinct and the size at most 64 |
| PreviewCache.StoredPreviewLifetime | app/src/main/java/com/example/ircclient/LinkPreviewCache.kt:33-39 | a stored preview is returned up to ten minutes later, the last millisecond included, and not after |
| PreviewCache.LinkPreviewCache.constructor | app/src/main/java/com/example/ircclient/LinkPreviewCache.kt:15-20 | the cache starts empty |
| PreviewCache.LinkPreviewCache.PutSuccess | app/src/main/java/com/example/ircclient/LinkPreviewCache.kt:22-25 | a successful fetch is stored with its preview and time, evicting as the map does |
| PreviewCache.LinkPreviewCache.PutFailure | app/src/main/java/com/example/ircclient/LinkPreviewCache.kt:27-30 | a failed fetch is stored with no preview and its time |
| PreviewCache.LinkPreviewCache.Get | app/src/main/java/com/example/ircclient/LinkPreviewCache.kt:32-40 | the answer and the new entries are those of a get at that time |
| PreviewCache.LinkPreviewCache.Invalidate | app/src/main/java/com/example/ircclient/LinkPreviewCache.kt:42-45 | the URL is forgotten and every other lookup is unchanged |
| PreviewCache.LinkPreviewCache.Clear | app/src/main/java/com/example/ircclient/LinkPreviewCache.kt:47-50 | the cache is empty afterwards |
| Json.KeysAppend | app/src/main/java/com/example/ircclient/NetworkProfilesStore.kt:71-75 | the names of two pair lists joined are the names of both |
| Json.Get | app/src/main/java/com/example/ircclient/NetworkProfilesStore.kt:78-80 | opt finds a value exactly for the object's names |
| Json.Put | app/src/main/java/com/example/ircclient/NetworkProfilesStore.kt:71-75 | put appends a new name at the end, keeps the length for a present one, and adds exactly that name |
| Json.GetPut | app/src/main/java/com/example/ircclient/NetworkProfilesStore.kt:71-75 | after a put the name finds the value put and every other name what it found before |
| Json.PutDistinct | app/src/main/java/com/example/ircclient/NetworkProfilesStore.kt:71-75 | put keeps an object's names distinct |
| Json.PutPairsFresh | app/src/main/java/com/example/ircclient/NetworkProfilesStore.kt:88-108 | putting pairs with new distinct names appends them in order |
| Json.KeysMember | app/src/main/java/com/example/ircclient/NetworkProfilesStore.kt:71-75 | a name belongs to an object exactly when some pair has it |
| Json.NamesDistinctTail | app/src/main/java/com/example/ircclient/NetworkProfilesStore.kt:88-108 | the pairs after the first keep distinct names and exclude the first name |
| Json.NamesDistinctKeys | app/src/main/java/com/example/ircclient/NetworkProfilesStore.kt:88-108 | names distinct position by position are distinct names |
| Json.GetIndex | app/src/main/java/com/example/ircclient/NetworkProfilesStore.kt:110-130 | in an object without repeated names opt finds each pair's own value |
| Json.HexDigitChar | app/src/main/java/com/example/ircclient/MentionsStore.kt:47-54 | an escape digit written is a hex digit of the same value |
| Json.SkipSpace | app/src/main/java/com/example/ircclient/NetworkProfilesStore.kt:61 | the tokenizer skips leading white space and nothing else |
| Json.LiteralLength | app/src/main/java/com/example/ircclient/NetworkProfilesStore.kt:61 | a literal runs to the first character that ends literals |
| Json.ParseString | app/src/main/java/com/example/ircclient/NetworkProfilesStore.kt:61 | a string read consumes at least its quote |
| Json.ParseValue | app/src/main/java/com/example/ircclient/NetworkProfilesStore.kt:61 | a value read consumes some text |
| Json.LiteralSpan | app/src/main/java/com/example/ircclient/NetworkProfilesStore.kt:61 | a literal followed by an end character is read to exactly its end |
| Json.LeadingZero | app/src/main/java/com/example/ircclient/MentionsStore.kt:66 | decimal text starts with 0 only for zero itself |
| Json.SerializeStart | app/src/main/java/com/example/ircclient/NetworkProfilesStore.kt:48 | a written value always starts with a character that tells the tokenizer what follows |
| Json.LiteralRoundTrip | app/src/main/java/com/example/ircclient/NetworkProfilesStore.kt:61 | an unquoted literal reads back as its value and leaves what follows |
| Json.NumberLiteral | app/src/main/java/com/example/ircclient/MentionsStore.kt:66 | the text of an integer in the Long range is a literal of it |
| Json.NumberRoundTrip | app/src/main/java/com/example/ircclient/MentionsStore.kt:52-66 | an integer written reads back as the same integer |
| Json.KeywordRoundTrip | app/src/main/java/com/example/ircclient/MentionsStore.kt:68 | null, true and false read back as themselves |
| Json.EscapeCharRoundTrip | app/src/main/java/com/example/ircclient/MentionsStore.kt:47-54 | one written character reads back as itself before whatever follows |
| Json.EscapeRoundTrip | app/src/main/java/com/example/ircclient/MentionsStore.kt:47-54 | an escaped string and its closing quote read back as the string |
| Json.StringRoundTrip | app/src/main/java/com/example/ircclient/MentionsStore.kt:62-65 | a quoted string reads back as that string |
| Json.SerializeRoundTrip | app/src/main/java/com/example/ircclient/NetworkProfilesStore.kt:48-61 | what toString writes the tokenizer reads back as the same value, untouched text after it |
| Json.ArrayRoundTrip | app/src/main/java/com/example/ircclient/NetworkProfilesStore.kt:46-61 | a written array reads back as the same elements |
| Json.ObjectRoundTrip | app/src/main/java/com/example/ircclient/NetworkProfilesStore.kt:71-75 | a written object reads back as the same pairs in order |
| Json.ItemStep | app/src/main/java/com/example/ircclient/NetworkProfilesStore.kt:61-63 | one element then its ] or , is read onto the elements before it |
| Json.ShiftHead | app/src/main/java/com/example/ircclient/NetworkProfilesStore.kt:61-63 | moving the first element onto the read part keeps the concatenation |
| Json.ItemHead | app/src/main/java/com/example/ircclient/NetworkProfilesStore.kt:61-63 | a written element then its ] or , is read onto the elements before |
| Json.ItemsHead | app/src/main/java/com/example/ircclient/NetworkProfilesStore.kt:61-63 | the first element of a written array is read and the rest follow |
| Json.ItemsRoundTrip | app/src/main/java/com/example/ircclient/NetworkProfilesStore.kt:61-63 | the elements of an array and its ] read back onto what was read before |
| Json.SerializeFieldsStart | app/src/main/java/com/example/ircclient/NetworkProfilesStore.kt:71-75 | a written pair list starts with the quote of its first name |
| Json.MemberName | app/src/main/java/com/example/ircclient/NetworkProfilesStore.kt:77-80 | a quoted name and : lead to the value of the pair |
| Json.MemberStep | app/src/main/java/com/example/ircclient/NetworkProfilesStore.kt:77-80 | one pair and the } or , after it are read into the object so far |
| Json.FieldHead | app/src/main/java/com/example/ircclient/NetworkProfilesStore.kt:77-80 | a written pair and its } or , are appended to the pairs before |
| Json.FieldsHead | app/src/main/java/com/example/ircclient/NetworkProfilesStore.kt:77-80 | the first pair of a written object is read after pairs with other names |
| Json.FieldsRoundTrip | app/src/main/java/com/example/ircclient/NetworkProfilesStore.kt:77-80 | the pairs of an object and its } read back after pairs with other names |
| Json.AllItemsWellFormed | app/src/main/java/com/example/ircclient/NetworkProfilesStore.kt:46-48 | elements well formed one by one make a well-formed element list |
| Json.AllFieldsWellFormed | app/src/main/java/com/example/ircclient/NetworkProfilesStore.kt:88-108 | values well formed one by one make a well-formed pair list |
| Json.ObjectTextRoundTrip | app/src/main/java/com/example/ircclient/persistence/PersistedEventMapper.kt:69-75 | JSONObject of an object's text has the pairs of the object, in order |
| Json.ArrayTextRoundTrip | app/src/main/java/com/example/ircclient/NetworkProfilesStore.kt:48-61 | JSONArray of an array's text has the elements of the array, in order |
| Json.BuiltObjectRoundTrip | app/src/main/java/com/example/ircclient/NetworkProfilesStore.kt:71-108 | an object built by puts with distinct names, written and read back, is exactly those pairs |
| Json.NumericString | app/src/main/java/com/example/ircclient/MentionsStore.kt:66 | a numeric string read as an exact double is an integer of magnitude at most 2^53 |
| Json.AsInt | app/src/main/java/com/example/ircclient/NetworkProfilesStore.kt:112 | an Int read from JSON fits in 32 bits |
| Json.OptInt | app/src/main/java/com/example/ircclient/NetworkProfilesStore.kt:112-129 | optInt keeps results within 32 bits when the fallback is |
| EventMapper.JsonObject | app/src/main/java/com/example/ircclient/persistence/PersistedEventMapper.kt:133-139 | the loop puts exactly the non-null pairs, in order |
| EventMapper.PairsTail | app/src/main/java/com/example/ircclient/persistence/PersistedEventMapper.kt:133-139 | the pairs after the first keep distinct names and well-formed values |
| EventMapper.PresentKeys | app/src/main/java/com/example/ircclient/persistence/PersistedEventMapper.kt:133-139 | a name no pair has is not in the object |
| EventMapper.PresentDistinct | app/src/main/java/com/example/ircclient/persistence/PersistedEventMapper.kt:133-139 | pairs with distinct names give an object with distinct names |
| EventMapper.PresentWellFormed | app/src/main/java/com/example/ircclient/persistence/PersistedEventMapper.kt:133-139 | pairs with well-formed values give a well-formed object |
| EventMapper.PresentGet | app/src/main/java/com/example/ircclient/persistence/PersistedEventMapper.kt:133-139 | each pair's name finds that pair's value, and a null pair's name is absent |
| EventMapper.PayloadRoundTrip | app/src/main/java/com/example/ircclient/persistence/PersistedEventMapper.kt:66-139 | a payload written out reads back as exactly its non-null pairs |
| EventMapper.EventPairs | app/src/main/java/com/example/ircclient/persistence/PersistedEventMapper.kt:21-65 | every event gets one of the nine type tags and a payload with distinct names |
| EventMapper.ToEntity | app/src/main/java/com/example/ircclient/persistence/PersistedEventMapper.kt:20-72 | the row keeps the buffer key and time, gets no id, and its type tag names the event's kind, one tag per kind |
| EventMapper.ToUiEvent | app/src/main/java/com/example/ircclient/persistence/PersistedEventMapper.kt:74-131 | a restored event keeps the row's time; an unknown tag or an unreadable payload gives null |
| EventMapper.MissingRequiredKey | app/src/main/java/com/example/ircclient/persistence/PersistedEventMapper.kt:77-128 | a payload missing a name its type reads with getString gives null rather than a failure |
| EventMapper.StorablePairs | app/src/main/java/com/example/ircclient/persistence/PersistedEventMapper.kt:55-60 | an event whose timestamp fits a Long has a well-formed payload |
| EventMapper.EntityPayload | app/src/main/java/com/example/ircclient/persistence/PersistedEventMapper.kt:20-72 | a row's payload reads back as the event's non-null fields |
| EventMapper.NullFieldLeftOut | app/src/main/java/com/example/ircclient/persistence/PersistedEventMapper.kt:136 | a null optional field is left out of the payload entirely |
| EventMapper.MessagesFromFields | app/src/main/java/com/example/ircclient/persistence/PersistedEventMapper.kt:77-93 | chat, notice and join events are rebuilt from objects holding their fields |
| EventMapper.DeparturesFromFields | app/src/main/java/com/example/ircclient/persistence/PersistedEventMapper.kt:94-111 | part, quit and kick events are rebuilt from objects holding their fields |
| EventMapper.ChangesFromFields | app/src/main/java/com/example/ircclient/persistence/PersistedEventMapper.kt:112-128 | nick, topic and system events are rebuilt from objects holding their fields |
| EventMapper.EventRoundTrip | app/src/main/java/com/example/ircclient/persistence/PersistedEventMapper.kt:20-131 | every storable event comes back from its row unchanged |
| NetworkProfiles.ConfigValues | app/src/main/java/com/example/ircclient/NetworkProfilesStore.kt:88-108 | one value per saved name |
| NetworkProfiles.ConfigFields | app/src/main/java/com/example/ircclient/NetworkProfilesStore.kt:88-108 | one pair per saved name |
| NetworkProfiles.ToConfig | app/src/main/java/com/example/ircclient/NetworkProfilesStore.kt:110-130 | every saved key that is missing from the object reads as its `SavedConfig` default, the two switches toJson does not write always read as their defaults, and an empty object reads as the default configuration |
| NetworkProfiles.ConfigKeysDistinct | app/src/main/java/com/example/ircclient/NetworkProfilesStore.kt:88-108 | toJson never puts the same name twice |
| NetworkProfiles.ConfigValuesWellFormed | app/src/main/java/com/example/ircclient/NetworkProfilesStore.kt:88-108 | every value put can be written and read back |
| NetworkProfiles.ConfigFieldsWellFormed | app/src/main/java/com/example/ircclient/NetworkProfilesStore.kt:88-108 | the configuration object has distinct names and writable values |
| NetworkProfiles.ConfigGets | app/src/main/java/com/example/ircclient/NetworkProfilesStore.kt:88-108 | each saved name finds its own value in the object |
| NetworkProfiles.ReadServer | app/src/main/java/com/example/ircclient/NetworkProfilesStore.kt:111-113 | server, port and tls read back as written |
| NetworkProfiles.ReadIdentity | app/src/main/java/com/example/ircclient/NetworkProfilesStore.kt:114-116 | nick, user and real name read back as written |
| NetworkProfiles.ReadMiddle | app/src/main/java/com/example/ircclient/NetworkProfilesStore.kt:117-123 | channel, highlight, ignore and SASL fields read back as written |
| NetworkProfiles.ReadLast | app/src/main/java/com/example/ircclient/NetworkProfilesStore.kt:124-129 | display and quiet-hours fields read back as written |
| NetworkProfiles.ConfigRead | app/src/main/java/com/example/ircclient/NetworkProfilesStore.kt:88-130 | toConfig of the written pairs is the configuration with the two unsaved switches reset |
| NetworkProfiles.ConfigRoundTrip | app/src/main/java/com/example/ircclient/NetworkProfilesStore.kt:88-130 | a configuration written, serialised, parsed and read is the same but for the two unsaved switches |
| NetworkProfiles.ToProfile | app/src/main/java/com/example/ircclient/NetworkProfilesStore.kt:77-86 | a profile is read exactly when the name is non-blank and a config object is there; it keeps that name and config, and the stored id when it is non-blank, otherwise the fresh one |
| NetworkProfiles.ProfileObject | app/src/main/java/com/example/ircclient/NetworkProfilesStore.kt:71-75 | the profile object holds exactly id, name and config, once each |
| NetworkProfiles.ProfileWellFormed | app/src/main/java/com/example/ircclient/NetworkProfilesStore.kt:71-75 | a profile's object can be written and read back |
| NetworkProfiles.ProfileRoundTrip | app/src/main/java/com/example/ircclient/NetworkProfilesStore.kt:71-86 | toProfile of toJson gives the profile back, unless its name is blank, with a blank id reissued |
| NetworkProfiles.ProfileReads | app/src/main/java/com/example/ircclient/NetworkProfilesStore.kt:62-67 | one reading per array item, each the item's profile if it is an accepted object |
| NetworkProfiles.ProfilesNamed | app/src/main/java/com/example/ircclient/NetworkProfilesStore.kt:58-69 | every parsed profile has a non-blank name |
| NetworkProfiles.ParseProfiles | app/src/main/java/com/example/ircclient/NetworkProfilesStore.kt:58-69 | the loop collects the accepted objects' profiles in order, and nothing for text that is not an array |
| NetworkProfiles.ProfilesJson | app/src/main/java/com/example/ircclient/NetworkProfilesStore.kt:46-47 | one array item per profile |
| NetworkProfiles.Saved | app/src/main/java/com/example/ircclient/NetworkProfilesStore.kt:40-56 | an empty list removes both keys, otherwise entries is set and active is set exactly when an id is given; other keys are untouched |
| NetworkProfiles.SaveNetworkProfiles | app/src/main/java/com/example/ircclient/NetworkProfilesStore.kt:40-56 | the edit gives the store described by Saved |
| NetworkProfiles.Load | app/src/main/java/com/example/ircclient/NetworkProfilesStore.kt:31-38 | an unreadable store or one without entries loads as the empty state; otherwise the active id is the stored one |
| NetworkProfiles.ReloadedAll | app/src/main/java/com/example/ircclient/NetworkProfilesStore.kt:31-69 | one reloaded result per saved profile |
| NetworkProfiles.ProfilesTextRoundTrip | app/src/main/java/com/example/ircclient/NetworkProfilesStore.kt:48-61 | the saved array text parses back to the same items |
| NetworkProfiles.ReadsReloaded | app/src/main/java/com/example/ircclient/NetworkProfilesStore.kt:46-67 | each item written reads back as its profile reloaded |
| NetworkProfiles.SaveLoad | app/src/main/java/com/example/ircclient/NetworkProfilesStore.kt:31-69 | after a save, load gives the empty state for no profiles, else the profiles in order less blank-named ones, blank ids reissued, with the saved active id |
| NetworkProfiles.SaveLoadNamed | app/src/main/java/com/example/ircclient/NetworkProfilesStore.kt:31-69 | profiles with non-blank names and ids load back in order, unchanged but for the two unsaved switches |
| Mentions.KindOf | app/src/main/java/com/example/ircclient/MentionsStore.kt:67 | valueOf only accepts a constant's own name |
| Mentions.KindRoundTrip | app/src/main/java/com/example/ircclient/MentionsStore.kt:50-67 | every kind's name reads back as that kind |
| Mentions.MentionFrom | app/src/main/java/com/example/ircclient/MentionsStore.kt:61-71 | an object is kept exactly when source, buffer name and text are non-empty |
| Mentions.MentionDefaults | app/src/main/java/com/example/ircclient/MentionsStore.kt:64-68 | a missing or unknown kind reads as CHANNEL, a missing time as 0, a missing dismissed flag as false |
| Mentions.MentionObject | app/src/main/java/com/example/ircclient/MentionsStore.kt:47-54 | toJson puts six distinct names and a writable object |
| Mentions.MentionGets | app/src/main/java/com/example/ircclient/MentionsStore.kt:47-54 | each field is stored under its own name |
| Mentions.MentionRoundTrip | app/src/main/java/com/example/ircclient/MentionsStore.kt:47-71 | a written mention reads back as itself when it has the three texts, else is dropped |
| Mentions.MentionReads | app/src/main/java/com/example/ircclient/MentionsStore.kt:60-61 | one reading per array item |
| Mentions.MentionsListed | app/src/main/java/com/example/ircclient/MentionsStore.kt:56-75 | every parsed mention has a source, buffer name and text |
| Mentions.ParseMentions | app/src/main/java/com/example/ircclient/MentionsStore.kt:56-75 | the loop collects the kept objects in order, and nothing for text that is not an array |
| Mentions.MentionsJson | app/src/main/java/com/example/ircclient/MentionsStore.kt:40-41 | one array item per entry |
| Mentions.Saved | app/src/main/java/com/example/ircclient/MentionsStore.kt:35-45 | the entries key is present exactly for a non-empty list; every other key is untouched |
| Mentions.SaveMentions | app/src/main/java/com/example/ircclient/MentionsStore.kt:35-45 | the edit gives the store described by Saved |
| Mentions.Load | app/src/main/java/com/example/ircclient/MentionsStore.kt:29-33 | an unreadable store or one without entries loads as nothing |
| Mentions.ReloadedAll | app/src/main/java/com/example/ircclient/MentionsStore.kt:29-75 | one reloaded result per saved entry |
| Mentions.MentionsTextRoundTrip | app/src/main/java/com/example/ircclient/MentionsStore.kt:42-59 | the saved array text parses back to the same items |
| Mentions.ReadsReloaded | app/src/main/java/com/example/ircclient/MentionsStore.kt:40-71 | each item written reads back as its entry reloaded |
| Mentions.SaveLoad | app/src/main/java/com/example/ircclient/MentionsStore.kt:29-75 | after a save the entries load back in order, those without the three texts dropped |
| Mentions.SaveLoadListed | app/src/main/java/com/example/ircclient/MentionsStore.kt:29-75 | entries that all have their three texts load back unchanged |
| ChatHelpers.ContainsWord | app/src/main/java/com/example/ircclient/MainActivity.kt:2839-2851 | the walk over the occurrences answers true exactly when some case-insensitive occurrence has no letter, digit or _ on either side |
| ChatHelpers.WordInItself | app/src/main/java/com/example/ircclient/MainActivity.kt:2839-2851 | a non-empty word is found in itself |
| ChatHelpers.WordBetweenSpaces | app/src/main/java/com/example/ircclient/MainActivity.kt:2839-2851 | a word between two spaces is found whatever surrounds them |
| ChatHelpers.Terms | app/src/main/java/com/example/ircclient/MainActivity.kt:2819 | every term kept is non-empty and trimmed |
| ChatHelpers.BuildTerms | app/src/main/java/com/example/ircclient/MainActivity.kt:2818-2821 | a given nick comes first, followed by the trimmed non-empty pieces |
| ChatHelpers.SelfNickHighlights | app/src/main/java/com/example/ircclient/MainActivity.kt:2853-2865 | the own nick, present as a word and not an exception, highlights |
| ChatHelpers.ExceptedNeverHighlights | app/src/main/java/com/example/ircclient/MainActivity.kt:2858 | when every term is an exception in some case, nothing highlights |
| ChatHelpers.BlankTermsNeverHighlight | app/src/main/java/com/example/ircclient/MainActivity.kt:2856-2857 | with a blank nick and a highlight list of only separators, nothing highlights |
| ChatHelpers.OnlySelfNick | app/src/main/java/com/example/ircclient/MainActivity.kt:2818-2821 | a list of only separators adds no term after the nick |
| ChatHelpers.NoTermsFromSeparators | app/src/main/java/com/example/ircclient/MainActivity.kt:2819 | splitting text of only separators yields no term |
| ChatHelpers.NormalizeToken | app/src/main/java/com/example/ircclient/MainActivity.kt:2837 | normalising a piece without separators gives a token or nothing, and leaves a token as it is |
| ChatHelpers.ParseIgnoreList | app/src/main/java/com/example/ircclient/MainActivity.kt:2823-2828 | every entry of the parsed set is a normalised non-empty token |
| Text.LexLessIrreflexive | app/src/main/java/com/example/ircclient/MainActivity.kt:2834 | no string sorts before itself |
| Text.LexLessTotal | app/src/main/java/com/example/ircclient/MainActivity.kt:2834 | of two different strings one sorts before the other |
| ChatHelpers.Insert | app/src/main/java/com/example/ircclient/MainActivity.kt:2834 | inserting a new string keeps the list strictly sorted |
| ChatHelpers.SortDistinct | app/src/main/java/com/example/ircclient/MainActivity.kt:2833-2834 | distinct then sorted gives a strictly sorted list of the same strings |
| ChatHelpers.NormalizedEntriesMembers | app/src/main/java/com/example/ircclient/MainActivity.kt:2831-2832 | the mapped list holds exactly the normalised forms of the non-blank entries |
| ChatHelpers.IgnoreListPieces | app/src/main/java/com/example/ircclient/MainActivity.kt:2830-2834 | the joined pieces are strictly sorted and exactly the normalised non-blank entries |
| ChatHelpers.TokenNotBlank | app/src/main/java/com/example/ircclient/MainActivity.kt:2831 | a token is never blank |
| ChatHelpers.PiecesOfTokens | app/src/main/java/com/example/ircclient/MainActivity.kt:2830-2834 | for token entries the pieces are exactly the distinct entries |
| ChatHelpers.ParseJoinedTokens | app/src/main/java/com/example/ircclient/MainActivity.kt:2823-2835 | parsing the comma-joined text of tokens gives the set of those tokens |
| ChatHelpers.IgnoreListRoundTrip | app/src/main/java/com/example/ircclient/MainActivity.kt:2823-2835 | formatting an ignore list of tokens and parsing it back gives the same set |
| ChatHelpers.JoinStart | app/src/main/java/com/example/ircclient/MainActivity.kt:2835 | joined text starts with the first piece's first character |
| ChatHelpers.CoerceIn | app/src/main/java/com/example/ircclient/MainActivity.kt:2807-2808 | the value is clamped into the range, and kept when already in it |
| ChatHelpers.QuietHoursComplement | app/src/main/java/com/example/ircclient/MainActivity.kt:2805-2816 | outside a non-empty window is inside the window with start and end exchanged |
| ChatHelpers.QuietHoursPrefix | app/src/main/java/com/example/ircclient/MainActivity.kt:2805-2816 | the count of quiet hours among the first n hours of the day, in closed form for both window shapes |
| ChatHelpers.QuietHoursLength | app/src/main/java/com/example/ircclient/MainActivity.kt:2805-2816 | an enabled window covers (end - start) mod 24 hours of the day after clamping |
| ChatHelpers.ModerationPrivilegeRank | app/src/main/java/com/example/ircclient/MainActivity.kt:2734-2741 | the rank is between 0 and 5 |
| ChatHelpers.ModerationBySymbol | app/src/main/java/com/example/ircclient/MainActivity.kt:2743-2753 | voice and devoice need ~ & @ or %, every other action ~ & or @ |
| ChatHelpers.ModerationMonotone | app/src/main/java/com/example/ircclient/MainActivity.kt:2734-2753 | a higher privilege allows everything a lower one does |
| ChatHelpers.WithoutTrailing | app/src/main/java/com/example/ircclient/MainActivity.kt:2545-2567 | the result is a prefix that does not end with a trailing character |
| ChatHelpers.SanitizeUrlCandidate | app/src/main/java/com/example/ircclient/MainActivity.kt:2561-2567 | the loop gives the longest prefix that does not end in trailing punctuation |
| ChatHelpers.WithoutTrailingIdempotent | app/src/main/java/com/example/ircclient/MainActivity.kt:2561-2567 | sanitising a sanitised candidate changes nothing |
| ChatHelpers.ChannelKeyOrStatus | app/src/main/java/com/example/ircclient/MainActivity.kt:2995 | every key is lower-case |
| ChatHelpers.KeyClassification | app/src/main/java/com/example/ircclient/MainActivity.kt:2988-3029 | a key is the status buffer exactly for no name, a blank one or _status in any case, and a channel exactly for a non-blank name starting with # |
| ChatHelpers.ChannelEventsInChannelBuffer | app/src/main/java/com/example/ircclient/MainActivity.kt:3002-3029 | messages, joins, parts, kicks and topics addressed to a # channel land in a channel buffer |
| ChatHelpers.PrivateMessageBuffer | app/src/main/java/com/example/ircclient/MainActivity.kt:3003-3006 | a private message to us lands in the sender's buffer |
| ChatScreen.UnmatchedMembers | app/src/main/java/com/example/ircclient/MainActivity.kt:3093-3099 | exactly the entries not equal to the name ignoring case are kept, and no more than there were |
| ChatScreen.UnmatchedNoMatch | app/src/main/java/com/example/ircclient/MainActivity.kt:3093-3099 | with no entry matching, the channel list is unchanged |
| ChatScreen.UnmatchedIdempotent | app/src/main/java/com/example/ircclient/MainActivity.kt:3093-3099 | removing the matches a second time removes nothing |
| ChatScreen.HistoryAfterShape | app/src/main/java/com/example/ircclient/MainActivity.kt:1916-1919 | a sent line keeps the history's shape and sits at slot 1; if it was not already there older lines move down one slot and only the oldest can fall off |
| ChatScreen.HistoryAfterRepeat | app/src/main/java/com/example/ircclient/MainActivity.kt:1918 | sending the same line twice in a row records it once |
| ChatScreen.HistoryKey | app/src/main/java/com/example/ircclient/MainActivity.kt:1915 | the history key is the buffer's name, or a non-empty fallback when that is blank |
| ChatScreen.ChatBuffers.constructor | app/src/main/java/com/example/ircclient/MainActivity.kt:1906-1907 | the buffers start with no channels, mute switches, histories or cursors, and none on screen |
| ChatScreen.ChatBuffers.RecordInput | app/src/main/java/com/example/ircclient/MainActivity.kt:1913-1920 | a blank line changes nothing; otherwise the line is recorded in the buffer's history and its cursor reset to 0; every history stays in shape |
| ChatScreen.ChatBuffers.HandleSelfKick | app/src/main/java/com/example/ircclient/MainActivity.kt:3081-3109 | matching channels are dropped, their mute switches, histories and cursors removed, and no buffer is active if the kicked channel was on screen and something was dropped |
| ChatScreen.ChatBuffers.DropChannel | app/src/main/java/com/example/ircclient/MainActivity.kt:3093-3099 | the backwards walk removes exactly the matching entries and returns the names removed |
| ChatScreen.ChatBuffers.RemoveAll | app/src/main/java/com/example/ircclient/MainActivity.kt:3101-3105 | each removed name is dropped from the three per-buffer maps and nothing else changes |
| ChatScreen.MinusKeepsShape | app/src/main/java/com/example/ircclient/MainActivity.kt:3101-3105 | dropping keys keeps every remaining history in shape |
| ChatScreen.DropStep | app/src/main/java/com/example/ircclient/MainActivity.kt:3093-3099 | one step of the backwards walk keeps the list as untouched prefix followed by filtered rest |
| ChatScreen.UnmatchedCons | app/src/main/java/com/example/ircclient/MainActivity.kt:3096 | filtering a list filters its head and then its tail |

## Left out

- Sockets, TLS and coroutines: opening the socket in `connect` (`IrcClient.kt` lines 94-118), the reader and writer, `readJob`, and cancelling jobs. A write is an append to `outbox`, on the assumption that the IO dispatcher keeps the writes in order. A closed socket is a `closes` result, and a cancelled job is one that was replaced.
- The timing of the reconnect job: the `delay` and the one-second poll while the network is down. The job is a value that fires when `ReconnectJobFires` is called. While the network is down, firing leaves it waiting.
- What the client publishes to the UI: `incoming`, `events` and the flows behind `connected`, `users` and `echoEnabled`. Only the state those values hold is modelled. `Log` calls are left out too.
- The read loop's `catch (t: Throwable)`: a socket error is modelled as the end of the line sequence.
- The regular-expression fallbacks of `parseIrcLine` (`IrcModels.kt` lines 126-188) and the URL pattern of `findLinks` are parameters. Only what the code does with their results is modelled.
- `Instant.parse`, `System.currentTimeMillis`, `Calendar`, the random jitter and `UUID.randomUUID` are parameters of the functions that use them.
- Characters are Unicode scalar values, where Kotlin strings are UTF-16. Indices and lengths agree only for text without supplementary characters. Ordering differs too: `Text.LexLess` compares scalar values, while Kotlin's `compareTo` and `sorted()` compare UTF-16 code units, so a supplementary character sorts after U+E000–U+FFFF here and before them in Kotlin. This reaches the sort of `formatIgnoreList` and the nick order of `ChannelMembers.SortUsers`.
- Case mapping, `isDigit`, `isLetterOrDigit` and `isWhitespace` follow their ASCII behaviour only. Non-ASCII letters are neither letters nor case-mapped here.
- Json.ReadLiteral: unquoted literals that `org.json`'s tokenizer also accepts are refused: hexadecimal and octal numbers, doubles and bare words. The stores never write such text. `Json.SkipSpace` skips whitespace only, while `nextClean` also skips `#`, `//` and `/* */` comments, which the stores never write either.
- Json.NumericString: `Double.parseDouble` is modelled only for decimal integers up to 2^53 in magnitude. Other numeric strings, such as `"1e3"` or `"2.5"`, do not read as numbers here.
- ChatHelpers.ContainsWord: requires a non-empty needle. With an empty needle, Java's `indexOf("", from)` returns the smaller of `from` and the text's length. So `containsWord` returns true at the first position with no letter, digit or `_` on either side (for `""` or `" x"`), and loops forever when there is no such position (for `"ab"`). The only caller, `isHighlight`, skips blank terms first.
- Mentions.MentionFrom: `MentionEntry.dismissed` is a `var` in the source. It is a plain field of a value here, because nothing in the modelled code changes it.
- IrcSession.ReconnectFires: the corrected job keeps the bumped counter across `connect`. The source has no other place that resets the counter after a successful connection, so the corrected model does not reset it either.
- Client.IrcClient.HandleKick: follows `ChannelMembers.KickChangeFixed`. Kicking a member who has no symbol republishes the list, where `IrcClient.kt` line 327 leaves it stale (see "## Findings").
- Client.IrcClient.HandleAuthenticate: follows the corrected `IrcSession.HandleAuthenticate`. It answers `AUTHENTICATE +` when the `+` is a middle parameter, where `IrcClient.kt` line 428 sends nothing (see "## Findings").
- Client.IrcClient.ReconnectJobFires: follows the corrected `IrcSession.ReconnectFires`. The bumped counter survives `connect`, where `IrcClient.kt` line 92 zeroes it again (see "## Findings").
- Client.IrcClient.HandleLine: equals `IrcSession.LineStep`, whose KICK and AUTHENTICATE branches are the two corrected handlers above. On those two inputs it differs from the source's read loop as written.
- Client.IrcClient.ReadLoop: equals `IrcSession.Run` over the corrected line steps, so it inherits both differences of `HandleLine`.
- Client.IrcClient.RunSession: runs the corrected line steps, so it inherits both differences of `HandleLine`.
- The DataStore and Room: `Prefs.kt` load/save, `ScrollbackStore.kt`, `BufferEventDao.kt` and `ChatDatabase.kt`. The stores are modelled as a `map<string, string>` and an `Option` for a failed read.
- Android UI and services: the Compose UI of `MainActivity.kt`, `ConnectedTopBar.kt`, `Theme.kt`, `NotificationHelper.kt` and `ConnectionService.kt`. This includes `handleNickRename`, `isSameDay` and `DayDivider`.
- `LinkPreview.kt`: the HTTP fetch and the HTML parsing behind a preview. A preview is an opaque record here.
- `@Synchronized` on `LinkPreviewCache`: the cache is a sequential class.
- Compose `Color`, `SpanStyle` and `AnnotatedString`: colours are unsigned 32-bit integers and a style is a record. The link annotations `addLink` attaches are left out, and so is `colorForNick`, which depends on Java's `hashCode`.

## Findings

| source | as written | input that shows it | evidently intended | confidence | as-written member | corrected member |
|---|---|---|---|---|---|---|
| app/src/main/java/com/example/ircclient/IrcClient.kt:428 | `handleAuthenticate` answers only when `msg.trailing == "+"` | the server prompt `AUTHENTICATE +`: the parser makes `+` a middle parameter and leaves `trailing` null, so SASL PLAIN is never answered and `CAP END` is never sent | answer when the first parameter or the trailing one is `+` | not executed | SessionProperties.PromptIgnored | SessionProperties.PromptAnswered |
| app/src/main/java/com/example/ircclient/IrcClient.kt:327 | `handleKick` republishes only when `usersMap.remove(target) != null` | kicking a member who has no symbol (`usersMap[nick] == null`): the map entry goes but `remove` returns null, so the published list still shows the member | republish whenever the victim was in the table | not executed | ChannelMembers.KickOfPlainMemberNotPublished | ChannelMembers.KickFixedPublishesChange |
| app/src/main/java/com/example/ircclient/IrcClient.kt:518-519 | the reconnect job bumps `reconnectAttempts` and then calls `connect`, which sets it back to 0 (line 92) | a server that refuses every connection: each retry is scheduled from attempt 0, so the delay stays at about one second and never backs off to 60 s | the bumped counter survives `connect`, so the delays double up to the cap | not executed | SessionProperties.BackoffResetByConnect | SessionProperties.BackoffGrows |
