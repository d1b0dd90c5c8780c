/**
 * The chat events the UI shows (`UiEvent`), channel members with their
 * privilege symbol, the privilege order `modeRank`, and `parseIrcLine`,
 * which turns one raw line into at most one event.
 */
module IrcModels {
  import opened Wrappers
  import Text
  import IrcParser

  /**
   * One event of a chat buffer. Times are epoch milliseconds (`Long`).
   * Dafny wants a destructor name to have one type in every variant, so the
   * optional sender and target of a notice are `noticeNick`/`noticeTarget`
   * the optional target of a system line is `systemTarget`, and the kicker
   * `by` (a Dafny keyword) is `kickedBy`.
   */
  datatype UiEvent =
    | Chat(nick: string, target: string, text: string, time: int)
    | Notice(noticeNick: Option<string>, noticeTarget: Option<string>, text: string, time: int)
    | Join(nick: string, channel: string, time: int)
    | Part(nick: string, channel: string, reason: Option<string>, time: int)
    | Quit(nick: string, reason: Option<string>, time: int)
    | Kick(kickedBy: Option<string>, channel: string, target: string, reason: Option<string>, time: int)
    | Nick(oldNick: string, newNick: string, time: int)
    | Topic(channel: string, text: string, setter: Option<string>, setAtEpoch: Option<int>, time: int)
    | System(text: string, systemTarget: Option<string>, time: int)

  /** A channel member and its highest known privilege symbol, if any. */
  datatype ChannelUser = ChannelUser(nick: string, mode: Option<char>)

  /** The privilege symbols from highest to lowest. */
  const PrivilegeSymbols: string := "~&@%+"

  /** `modeRank`: founder, admin, operator, half-operator, voice, then everyone else. */
  function ModeRank(mode: Option<char>): (r: nat)
    ensures r <= 5
    ensures r > 0 <==> mode.Some? && mode.value in PrivilegeSymbols
  {
    match mode
    case None => 0
    case Some(c) =>
      if c == '~' then 5
      else if c == '&' then 4
      else if c == '@' then 3
      else if c == '%' then 2
      else if c == '+' then 1
      else 0
  }

  /** The symbols are ranked in the order they are listed, 5 down to 1. */
  lemma ModeRankOrder()
    ensures forall i :: 0 <= i < |PrivilegeSymbols| ==> ModeRank(Some(PrivilegeSymbols[i])) == 5 - i
  {
  }

  /** Two different privilege symbols never share a rank. */
  lemma ModeRankInjective(a: char, b: char)
    requires a in PrivilegeSymbols && b in PrivilegeSymbols
    ensures ModeRank(Some(a)) == ModeRank(Some(b)) <==> a == b
  {
  }

  // --- small Kotlin idioms ---

  /** `list.getOrNull(i)`. */
  function GetOrNull(ps: seq<string>, i: nat): (r: Option<string>)
    ensures r.Some? <==> i < |ps|
    ensures r.Some? ==> r.value == ps[i]
  {
    if i < |ps| then Some(ps[i]) else None
  }

  /** `s.ifBlank { null }`. */
  function NullIfBlank(s: string): (r: Option<string>)
    ensures r.None? <==> Text.IsBlank(s)
    ensures r.Some? ==> r.value == s
  {
    if Text.IsBlank(s) then None else Some(s)
  }

  /** `s?.ifBlank { null }`. */
  function OptNullIfBlank(s: Option<string>): (r: Option<string>)
    ensures r.None? <==> s.None? || Text.IsBlank(s.value)
    ensures r.Some? ==> r == s
  {
    match s
    case None => None
    case Some(t) => NullIfBlank(t)
  }

  /** `s.isNullOrBlank()`. */
  predicate NullOrBlank(s: Option<string>) {
    s.None? || Text.IsBlank(s.value)
  }

  // --- CTCP ACTION ---

  const ActionPrefix: string := "\U{1}ACTION "
  const CtcpEnd: string := "\U{1}"

  /**
   * The text of a PRIVMSG, with a CTCP ACTION unwrapped: only when it both
   * starts with "\u0001ACTION " and ends with "\u0001".
   */
  function ActionText(text: string): (r: string)
    ensures Text.StartsWith(text, ActionPrefix) && Text.EndsWith(text, CtcpEnd) ==> ActionPrefix + r + CtcpEnd == text
    ensures !(Text.StartsWith(text, ActionPrefix) && Text.EndsWith(text, CtcpEnd)) ==> r == text
  {
    if Text.StartsWith(text, ActionPrefix) && Text.EndsWith(text, CtcpEnd) then
      assert text[|ActionPrefix| - 1] == ActionPrefix[|ActionPrefix| - 1] && text[|text| - 1] == CtcpEnd[0];
      var body := Text.RemovePrefix(text, ActionPrefix);
      assert body[|body| - 1..] == text[|text| - 1..];
      Text.RemoveSuffix(body, CtcpEnd)
    else text
  }

  /** Wrapping a body as an ACTION and unwrapping it gives the body back. */
  lemma ActionRoundTrip(body: string)
    ensures ActionText(ActionPrefix + body + CtcpEnd) == body
  {
    var text := ActionPrefix + body + CtcpEnd;
    assert text[..|ActionPrefix|] == ActionPrefix;
    assert text[|text| - 1..] == CtcpEnd;
  }

  // --- parseIrcLine ---

  /** What a branch of `parseIrcLine` decided: return this (possibly null) event, or go on. */
  datatype Outcome = Return(event: Option<UiEvent>) | FallThrough

  /** The `when (m.command.uppercase())` of `parseIrcLine`, for the named commands. */
  function CommandEvent(m: IrcParser.IrcMessage, whenMs: int): Outcome {
    var nick := IrcParser.NickFromPrefix(m.prefix).GetOr("");
    var cmd := Text.Upper(m.command);
    if cmd == "PRIVMSG" then
      Return(Some(Chat(nick, GetOrNull(m.params, 0).GetOr(""), ActionText(m.trailing.GetOr("")), whenMs)))
    else if cmd == "NOTICE" then
      Return(Some(Notice(NullIfBlank(nick), GetOrNull(m.params, 0), m.trailing.GetOr(""), whenMs)))
    else if cmd == "JOIN" then
      var ch := if |m.params| > 0 then m.params[0] else m.trailing.GetOr("");
      if !Text.IsBlank(ch) then Return(Some(Join(nick, ch, whenMs))) else FallThrough
    else if cmd == "PART" then
      var ch := GetOrNull(m.params, 0).GetOr("");
      if !Text.IsBlank(ch) then Return(Some(Part(nick, ch, OptNullIfBlank(m.trailing), whenMs))) else FallThrough
    else if cmd == "QUIT" then
      Return(Some(Quit(nick, OptNullIfBlank(m.trailing), whenMs)))
    else if cmd == "KICK" then
      var ch := GetOrNull(m.params, 0);
      var target := GetOrNull(m.params, 1);
      if !NullOrBlank(ch) && !NullOrBlank(target) then
        Return(Some(Kick(NullIfBlank(nick), ch.value, target.value, OptNullIfBlank(m.trailing), whenMs)))
      else FallThrough
    else if cmd == "NICK" then
      var oldNick := OptNullIfBlank(IrcParser.NickFromPrefix(m.prefix));
      var newNick := (if m.trailing.Some? then m.trailing else GetOrNull(m.params, 0)).GetOr("");
      if !NullOrBlank(oldNick) && !Text.IsBlank(newNick) then Return(Some(Nick(oldNick.value, newNick, whenMs)))
      else FallThrough
    else if cmd == "TOPIC" then
      var ch := GetOrNull(m.params, 0);
      if !NullOrBlank(ch) then
        Return(Some(Topic(ch.value, m.trailing.GetOr(""), NullIfBlank(nick), Some(whenMs), whenMs)))
      else FallThrough
    else FallThrough
  }

  /** A three-digit numeric command (`length == 3 && all { isDigit() }`). */
  predicate IsNumeric(cmd: string) {
    |cmd| == 3 && Text.AllDigits(cmd)
  }

  /** The numeric replies: a system line, a topic, or null for every other numeric. */
  function NumericEvent(m: IrcParser.IrcMessage, whenMs: int): Outcome {
    if !IsNumeric(m.command) then FallThrough
    else if m.command == "001" then Return(Some(System(m.trailing.GetOr("Welcome"), None, whenMs)))
    else if m.command == "375" then Return(Some(System(m.trailing.GetOr("- Message of the day -"), None, whenMs)))
    else if m.command == "372" then Return(Some(System(m.trailing.GetOr(""), None, whenMs)))
    else if m.command == "376" then Return(Some(System(m.trailing.GetOr("End of MOTD"), None, whenMs)))
    else if m.command == "422" then Return(Some(System(m.trailing.GetOr("MOTD missing"), None, whenMs)))
    else if m.command == "332" then
      var ch := GetOrNull(m.params, 1);
      Return(if !NullOrBlank(ch) then Some(Topic(ch.value, m.trailing.GetOr(""), None, None, whenMs)) else None)
    else if m.command == "333" then
      var ch := GetOrNull(m.params, 1);
      Return(if !NullOrBlank(ch) then Some(Topic(ch.value, "", GetOrNull(m.params, 2), SetAt(GetOrNull(m.params, 3)), whenMs)) else None)
    else Return(None)
  }

  /** `params.getOrNull(3)?.toLongOrNull()?.let { it * 1000 }`, with `Long` overflow. */
  function SetAt(seconds: Option<string>): (r: Option<int>)
    ensures r.Some? ==> Text.IsInt64(r.value)
  {
    match seconds
    case None => None
    case Some(s) =>
      match Text.ToLongOrNull(s)
      case None => None
      case Some(n) => Some(Text.WrapInt64(n * 1000))
  }

  /** The structured path: the named commands first, then the numerics. */
  function MessageEvent(m: IrcParser.IrcMessage, whenMs: int): Outcome {
    match CommandEvent(m, whenMs)
    case Return(e) => Return(e)
    case FallThrough => NumericEvent(m, whenMs)
  }

  /** Lines `parseIrcLine` drops before parsing: PING and the NAMES replies. */
  predicate IsIgnoredLine(line: string) {
    Text.StartsWith(line, "PING ") || Text.Contains(line, " 353 ") || Text.Contains(line, " 366 ")
  }

  /**
   * `parseIrcLine`. `now` stands for `System.currentTimeMillis()`,
   * `parseInstant` for `Instant.parse(...).toEpochMilli()`, and
   * `regexFallback` for the regular-expression fallbacks: `None` when none
   * of them matches, `Some(e)` when one matches and the function returns `e`.
   */
  function ParseIrcLine(line: string, now: int, parseInstant: string -> Option<int>,
                        regexFallback: string -> Option<Option<UiEvent>>): (r: Option<UiEvent>)
    ensures IsIgnoredLine(line) ==> r.None?
  {
    if IsIgnoredLine(line) then None
    else
      var structured :=
        match IrcParser.ParsedLine(line)
        case None => FallThrough
        case Some(m) => MessageEvent(m, IrcParser.ServerTimeMillis(m, now, parseInstant));
      match structured
      case Return(e) => e
      case FallThrough =>
        match regexFallback(line)
        case Some(e) => e
        case None => Some(System(line, None, now))
  }

  // --- properties of parseIrcLine ---

  /** A line the parser accepts and a branch decides yields that branch's event. */
  lemma StructuredWins(line: string, now: int, parseInstant: string -> Option<int>,
                       regexFallback: string -> Option<Option<UiEvent>>, m: IrcParser.IrcMessage)
    requires !IsIgnoredLine(line) && IrcParser.ParsedLine(line) == Some(m)
    requires MessageEvent(m, IrcParser.ServerTimeMillis(m, now, parseInstant)).Return?
    ensures ParseIrcLine(line, now, parseInstant, regexFallback) == MessageEvent(m, IrcParser.ServerTimeMillis(m, now, parseInstant)).event
  {
  }

  /** When neither the structured path nor any regex decides, the whole line becomes a system event. */
  lemma FinalFallback(line: string, now: int, parseInstant: string -> Option<int>,
                      regexFallback: string -> Option<Option<UiEvent>>)
    requires !IsIgnoredLine(line) && regexFallback(line).None?
    requires IrcParser.ParsedLine(line).None? ||
             MessageEvent(IrcParser.ParsedLine(line).value, IrcParser.ServerTimeMillis(IrcParser.ParsedLine(line).value, now, parseInstant)).FallThrough?
    ensures ParseIrcLine(line, now, parseInstant, regexFallback) == Some(System(line, None, now))
  {
  }

  /**
   * PRIVMSG (in any case) yields a chat line to param 0 with the trailing
   * text, unwrapped exactly when it is a CTCP ACTION.
   */
  lemma PrivmsgIsChat(m: IrcParser.IrcMessage, whenMs: int)
    requires Text.Upper(m.command) == "PRIVMSG"
    ensures MessageEvent(m, whenMs).Return? && MessageEvent(m, whenMs).event.Some?
    ensures var e := MessageEvent(m, whenMs).event.value;
      var text := m.trailing.GetOr("");
      e.Chat? && e.nick == IrcParser.NickFromPrefix(m.prefix).GetOr("") && e.time == whenMs &&
      e.target == (if |m.params| > 0 then m.params[0] else "") &&
      (if Text.StartsWith(text, ActionPrefix) && Text.EndsWith(text, CtcpEnd)
       then ActionPrefix + e.text + CtcpEnd == text else e.text == text)
  {
  }

  /**
   * JOIN takes its channel from param 0, else from the trailing text, and
   * yields an event exactly when that channel is not blank.
   */
  lemma JoinChannel(m: IrcParser.IrcMessage, whenMs: int)
    requires Text.Upper(m.command) == "JOIN"
    ensures var ch := if |m.params| > 0 then m.params[0] else m.trailing.GetOr("");
      if Text.IsBlank(ch) then MessageEvent(m, whenMs) == FallThrough
      else MessageEvent(m, whenMs) == Return(Some(Join(IrcParser.NickFromPrefix(m.prefix).GetOr(""), ch, whenMs)))
  {
    assert !IsNumeric(m.command) by {
      assert |Text.Upper(m.command)| == |m.command|;
    }
  }

  /** A PART, QUIT or KICK event has no reason exactly when the trailing text is missing or blank. */
  lemma BlankReasonIsNull(m: IrcParser.IrcMessage, whenMs: int)
    requires MessageEvent(m, whenMs).Return? && MessageEvent(m, whenMs).event.Some?
    requires var e := MessageEvent(m, whenMs).event.value; e.Part? || e.Quit? || e.Kick?
    ensures MessageEvent(m, whenMs).event.value.reason.None? <==> NullOrBlank(m.trailing)
  {
    match CommandEvent(m, whenMs)
    case FallThrough =>
      NumericKinds(m, whenMs);
    case Return(_) =>
  }

  /** The numeric branch yields only system lines and topics. */
  lemma NumericKinds(m: IrcParser.IrcMessage, whenMs: int)
    ensures var o := NumericEvent(m, whenMs); o.Return? && o.event.Some? ==> o.event.value.System? || o.event.value.Topic?
  {
  }

  /**
   * KICK yields an event exactly when param 0 (the channel) and param 1 (the
   * victim) are both present and not blank; a blank sender becomes a null kicker.
   */
  lemma KickNeedsChannelAndTarget(m: IrcParser.IrcMessage, whenMs: int)
    requires Text.Upper(m.command) == "KICK"
    ensures var ch := GetOrNull(m.params, 0);
      var target := GetOrNull(m.params, 1);
      if NullOrBlank(ch) || NullOrBlank(target) then MessageEvent(m, whenMs) == FallThrough
      else
        var nick := IrcParser.NickFromPrefix(m.prefix).GetOr("");
        MessageEvent(m, whenMs) == Return(Some(Kick(NullIfBlank(nick), ch.value, target.value, OptNullIfBlank(m.trailing), whenMs)))
  {
    assert !IsNumeric(m.command) by {
      assert |Text.Upper(m.command)| == |m.command|;
    }
  }

  /** The numerics `parseIrcLine` turns into system lines, each with its default text. */
  function SystemNumericDefault(cmd: string): (r: Option<string>)
    ensures r.Some? ==> IsNumeric(cmd)
  {
    if cmd == "001" then Some("Welcome")
    else if cmd == "375" then Some("- Message of the day -")
    else if cmd == "372" then Some("")
    else if cmd == "376" then Some("End of MOTD")
    else if cmd == "422" then Some("MOTD missing")
    else None
  }

  /** No named command is three characters long, so no numeric reaches a named branch. */
  lemma NumericIsNoCommand(m: IrcParser.IrcMessage, whenMs: int)
    requires IsNumeric(m.command)
    ensures CommandEvent(m, whenMs) == FallThrough
  {
    assert |Text.Upper(m.command)| == 3;
  }

  /** 001, 375, 372, 376 and 422 show the trailing text, or the default when there is none. */
  lemma SystemNumerics(m: IrcParser.IrcMessage, whenMs: int)
    requires SystemNumericDefault(m.command).Some?
    ensures MessageEvent(m, whenMs) == Return(Some(System(m.trailing.GetOr(SystemNumericDefault(m.command).value), None, whenMs)))
  {
    NumericIsNoCommand(m, whenMs);
  }

  /** Every other three-digit numeric, apart from the topic replies 332 and 333, yields null. */
  lemma OtherNumericsNull(m: IrcParser.IrcMessage, whenMs: int)
    requires IsNumeric(m.command) && SystemNumericDefault(m.command).None?
    requires m.command != "332" && m.command != "333"
    ensures MessageEvent(m, whenMs) == Return(None)
  {
    NumericIsNoCommand(m, whenMs);
  }

  /** 333 carries the setter in param 2 and the time it was set, in seconds, in param 3. */
  lemma TopicWhoTime(m: IrcParser.IrcMessage, whenMs: int, seconds: int)
    requires m.command == "333" && |m.params| >= 4 && !Text.IsBlank(m.params[1])
    requires m.params[3] == Text.IntToString(seconds) && Text.IsInt64(seconds * 1000)
    ensures MessageEvent(m, whenMs) == Return(Some(Topic(m.params[1], "", Some(m.params[2]), Some(seconds * 1000), whenMs)))
  {
    NumericIsNoCommand(m, whenMs);
    Text.IntToStringRoundTrip(seconds);
    assert Text.IsInt64(seconds);
  }
}
