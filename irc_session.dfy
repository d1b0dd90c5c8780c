/**
 * The protocol session of `IrcClient` as a state machine over values: one
 * function per handler, from the client's fields before the call to the
 * fields after it. Writes to the socket become appends to `outbox`; closing
 * the socket is reported as `closes`.
 */
module IrcSession {
  import opened Wrappers
  import Text
  import opened IrcModels
  import IrcParser
  import Encoding
  import opened ChannelMembers

  /** `IrcClient.Config`. */
  datatype Config = Config(
    server: string,
    port: int,
    useTls: bool,
    nick: string,
    user: string,
    realName: string,
    channel: Option<string>,
    requestCaps: bool,
    saslAccount: Option<string>,
    saslPassword: Option<string>)

  /** A `Config` given only its required `server` and `nick`. */
  function DefaultConfig(server: string, nick: string): (c: Config)
    ensures c.server == server && c.nick == nick && !HasSaslCredentials(c) && c.channel.None?
  {
    Config(server, 6667, false, nick, "android", "Android IRC", None, true, None, None)
  }

  predicate HasSaslCredentials(c: Config) {
    c.saslAccount.Some? && c.saslPassword.Some?
  }

  /** The waiting coroutine `scheduleReconnect` launched: its config, its delay and the attempt number it read. */
  datatype Reconnect = Reconnect(config: Config, delayMs: int, attempt: nat)

  /** The channel view: auto-join, the NAMES collection, the member table and the list shown to the UI. */
  datatype Roster = Roster(
    autoJoinChannel: Option<string>,
    namesBuffer: seq<ChannelUser>,
    usersMap: Members,
    trackedChannel: Option<string>,
    modeToSymbol: map<char, char>,
    users: seq<ChannelUser>)

  /** The IRCv3 capability and SASL negotiation flags. */
  datatype Handshake = Handshake(
    wantCaps: set<string>,
    capsAcked: set<string>,
    negotiatingCaps: bool,
    saslPending: bool,
    echoEnabled: bool)

  /** The connection and reconnect bookkeeping. */
  datatype Link = Link(
    lastConfig: Option<Config>,
    userInitiatedDisconnect: bool,
    reconnectJob: Option<Reconnect>,
    reconnectAttempts: nat,
    networkAvailable: bool,
    nextForcedDelayMs: Option<int>,
    connected: bool)

  /** The fields of `IrcClient` apart from the socket, its streams and the coroutine handles, grouped by concern. */
  datatype ClientState = ClientState(roster: Roster, handshake: Handshake, link: Link, outbox: seq<string>)

  /** The fields of a newly constructed client. */
  const InitialState: ClientState :=
    ClientState(
      Roster(None, [], NoMembers, None, DefaultModeToSymbol, []),
      Handshake({}, {}, false, false, false),
      Link(None, false, None, 0, true, None, false),
      [])

  /** What the class keeps true between calls. */
  ghost predicate Invariant(s: ClientState) {
    RosterOk(s.roster) && s.link.reconnectAttempts <= 10
  }

  /** The channel view's part of the invariant: a well-formed table and only real NAMES entries buffered. */
  ghost predicate RosterOk(r: Roster) {
    WellFormed(r.usersMap) && forall u :: u in r.namesBuffer ==> IsNamesEntry(u)
  }

  lemma InitialInvariant()
    ensures Invariant(InitialState)
  {
  }

  /** `sendRaw`. */
  function Send(s: ClientState, raw: string): ClientState {
    s.(outbox := s.outbox + [raw])
  }

  /** `publishUsers` after a table update, when the handler asks for it. */
  function Apply(s: ClientState, c: Change): ClientState {
    s.(roster := ApplyTo(s.roster, c))
  }

  /** The table becomes `c.members`; the UI list follows only when `c.publish`. */
  function ApplyTo(r: Roster, c: Change): Roster {
    if c.publish then r.(usersMap := c.members, users := Published(c.members)) else r.(usersMap := c.members)
  }

  // ---------------------------------------------------------------------
  // CAP and SASL
  // ---------------------------------------------------------------------

  /** `endCapIfReady`: `CAP END` only while negotiating and not waiting for SASL. */
  function EndCapIfReady(s: ClientState): ClientState {
    if !s.handshake.negotiatingCaps || s.handshake.saslPending then s else Send(s.(handshake := s.handshake.(negotiatingCaps := false)), "CAP END")
  }

  function NonBlank(ws: seq<string>): seq<string> {
    if ws == [] then []
    else (if Text.IsBlank(ws[0]) then [] else [ws[0]]) + NonBlank(ws[1..])
  }

  /** `filter { it.isNotBlank() }` keeps exactly the non-blank words. */
  lemma {:induction false} NonBlankKeeps(ws: seq<string>)
    ensures forall i :: 0 <= i < |NonBlank(ws)| ==> !Text.IsBlank(NonBlank(ws)[i])
    ensures forall w :: w in NonBlank(ws) <==> w in ws && !Text.IsBlank(w)
    decreases |ws|
  {
    if ws != [] {
      NonBlankKeeps(ws[1..]);
      assert ws == [ws[0]] + ws[1..];
    }
  }

  /** `(msg.trailing ?: "").split(' ').filter { it.isNotBlank() }`. */
  function TrailingWords(msg: IrcParser.IrcMessage): seq<string> {
    NonBlank(Text.Split(msg.trailing.GetOr(""), ' '))
  }

  /** `list.any { it.equals(w, ignoreCase = true) }`. */
  predicate AnyIgnoreCase(ws: seq<string>, w: string) {
    exists i :: 0 <= i < |ws| && Text.EqualsIgnoreCase(ws[i], w)
  }

  /** The capability names offered: each word up to its first '='. */
  function Offered(caps: seq<string>): set<string> {
    set c | c in caps :: Text.SubstringBefore(c, "=", c)
  }

  /** `capList.firstOrNull { it.startsWith("sts=") }`. */
  function FirstSts(caps: seq<string>): Option<string> {
    if caps == [] then None
    else if Text.StartsWith(caps[0], "sts=") then Some(caps[0])
    else FirstSts(caps[1..])
  }

  /** The token found is an `sts=` offer from the list; none is found only when there is none. */
  lemma {:induction false} FirstStsFinds(caps: seq<string>)
    ensures FirstSts(caps).Some? ==> FirstSts(caps).value in caps && Text.StartsWith(FirstSts(caps).value, "sts=")
    ensures FirstSts(caps).None? ==> forall c :: c in caps ==> !Text.StartsWith(c, "sts=")
    decreases |caps|
  {
    if caps != [] && !Text.StartsWith(caps[0], "sts=") {
      FirstStsFinds(caps[1..]);
      assert caps == [caps[0]] + caps[1..];
    }
  }

  /** The `for (item in items)` loop of `parseStsPort`: the first `key=value` item whose key is `port` decides. */
  function PortItem(items: seq<string>): Option<int> {
    if items == [] then None
    else
      var kv := Text.Split(items[0], '=');
      if |kv| == 2 && kv[0] == "port" then Text.ToIntOrNull(kv[1]) else PortItem(items[1..])
  }

  /** `parseStsPort`. */
  function StsPort(stsToken: string): Option<int> {
    PortItem(Text.Split(Text.SubstringAfter(stsToken, "sts=", stsToken), ','))
  }

  /** The position of a capability in the order the client asks for them. */
  function CapOrder(cap: string): nat {
    if cap == "echo-message" then 0 else if cap == "server-time" then 1 else 2
  }

  /** One candidate of the `CAP REQ` list: listed when wanted and not yet acknowledged. */
  function Candidate(cap: string, wanted: bool, acked: set<string>): seq<string> {
    if wanted && cap !in acked then [cap] else []
  }

  /** `toReq`: `echo-message`, `server-time`, `sasl` in that order, each when offered and not acked; `sasl` also needs both credentials. */
  function Requested(offered: set<string>, cfg: Config, acked: set<string>): seq<string> {
    Candidate("echo-message", "echo-message" in offered, acked)
    + Candidate("server-time", "server-time" in offered, acked)
    + Candidate("sasl", HasSaslCredentials(cfg) && "sasl" in offered, acked)
  }

  /** The list asks for exactly the wanted offers not yet acknowledged, in the client's order. */
  lemma RequestedSpec(offered: set<string>, cfg: Config, acked: set<string>)
    ensures var r := Requested(offered, cfg, acked);
      forall c :: c in r <==>
        c !in acked && c in offered
        && (c == "echo-message" || c == "server-time" || (c == "sasl" && HasSaslCredentials(cfg)))
    ensures var r := Requested(offered, cfg, acked);
      forall i, j :: 0 <= i < j < |r| ==> CapOrder(r[i]) < CapOrder(r[j])
  {
  }

  /** The port an `sts=` offer moves a plain-text session to, if it names a valid one. */
  function StsUpgrade(caps: seq<string>, cfg: Config): Option<int> {
    match FirstSts(caps)
    case None => None
    case Some(tok) =>
      if cfg.useTls then None
      else match StsPort(tok)
        case Some(p) => if 1 <= p <= 65535 then Some(p) else None
        case None => None
  }

  /** A state and whether the handler closed the socket. */
  datatype Step = Step(state: ClientState, closes: bool)

  /** `CAP LS` / `CAP NEW`. */
  function CapOffer(s: ClientState, cfg: Config, msg: IrcParser.IrcMessage): Step {
    var caps := TrailingWords(msg);
    if caps == [] then Step(s, false)
    else match StsUpgrade(caps, cfg)
      case Some(p) => Step(s.(link := s.link.(lastConfig := Some(cfg.(port := p, useTls := true)))), true)
      case None =>
        var toReq := Requested(Offered(caps), cfg, s.handshake.capsAcked);
        if toReq != [] then
          Step(Send(s.(handshake := s.handshake.(wantCaps := s.handshake.wantCaps + (set c | c in toReq))), "CAP REQ :" + Text.Join(toReq, " ")), false)
        else Step(EndCapIfReady(s), false)
  }

  /** `CAP ACK`. */
  function CapAck(s: ClientState, cfg: Config, msg: IrcParser.IrcMessage): ClientState {
    var acked := TrailingWords(msg);
    AckReply(s.(handshake := s.handshake.(capsAcked := s.handshake.capsAcked + (set c | c in acked), echoEnabled := s.handshake.echoEnabled || AnyIgnoreCase(acked, "echo-message"))), cfg, acked)
  }

  /** What `CAP ACK` does once the acknowledged names are recorded: start SASL PLAIN, or end negotiation. */
  function AckReply(s: ClientState, cfg: Config, acked: seq<string>): ClientState {
    if AnyIgnoreCase(acked, "sasl") && HasSaslCredentials(cfg) then Send(s.(handshake := s.handshake.(saslPending := true)), "AUTHENTICATE PLAIN")
    else EndCapIfReady(s)
  }

  /** The `CAP` subcommands `handleCap` tells apart, once upper-cased. */
  datatype CapSub = OfferSub | AckSub | NakSub | OtherSub

  function CapSubOf(sub: string): (r: CapSub)
    ensures r == OfferSub <==> sub == "LS" || sub == "NEW"
    ensures r == AckSub <==> sub == "ACK"
    ensures r == NakSub <==> sub == "NAK"
  {
    if sub == "LS" || sub == "NEW" then OfferSub
    else if sub == "ACK" then AckSub
    else if sub == "NAK" then NakSub
    else OtherSub
  }

  /** `handleCap`. */
  function HandleCap(s: ClientState, cfg: Config, msg: IrcParser.IrcMessage): Step {
    if |msg.params| < 2 then Step(s, false)
    else match CapSubOf(Text.Upper(msg.params[1]))
      case OfferSub => CapOffer(s, cfg, msg)
      case AckSub => Step(CapAck(s, cfg, msg), false)
      case NakSub => Step(EndCapIfReady(s), false)
      case OtherSub => Step(s, false)
  }

  /** The SASL PLAIN message of section 2 of RFC 4616, with the account as both authorization and authentication identity. */
  function SaslPayload(account: string, password: string): string {
    account + "\0" + account + "\0" + password
  }

  /** The client's `AUTHENTICATE` response: the base64 of the payload's UTF-8 bytes. */
  function AuthenticateResponse(account: string, password: string): string {
    "AUTHENTICATE " + Encoding.Base64Encode(Encoding.Utf8(SaslPayload(account, password)))
  }

  /** `handleAuthenticate` as written: only a trailing `+` counts as the server's prompt. */
  function HandleAuthenticateAsWritten(s: ClientState, cfg: Config, msg: IrcParser.IrcMessage): ClientState {
    if msg.trailing == Some("+") && s.handshake.saslPending && HasSaslCredentials(cfg) then
      Send(s, AuthenticateResponse(cfg.saslAccount.value, cfg.saslPassword.value))
    else s
  }

  /** `handleAuthenticate` as evidently intended: the prompt `+` may come as the trailing or as the first middle param. */
  function HandleAuthenticate(s: ClientState, cfg: Config, msg: IrcParser.IrcMessage): ClientState {
    var arg := if msg.trailing.Some? then msg.trailing else GetOrNull(msg.params, 0);
    if arg == Some("+") && s.handshake.saslPending && HasSaslCredentials(cfg) then
      Send(s, AuthenticateResponse(cfg.saslAccount.value, cfg.saslPassword.value))
    else s
  }

  // ---------------------------------------------------------------------
  // Lines
  // ---------------------------------------------------------------------

  /** `msg.trailing ?: msg.params.firstOrNull() ?: ""`. */
  function PingToken(msg: IrcParser.IrcMessage): string {
    if msg.trailing.Some? then msg.trailing.value else if |msg.params| > 0 then msg.params[0] else ""
  }

  predicate IsSaslResult(cmd: string) {
    cmd == "903" || cmd == "904" || cmd == "905" || cmd == "906" || cmd == "907"
  }

  /** The commands the read loop's `when` block tells apart, once upper-cased. */
  datatype Command =
    | PingCommand | WelcomeCommand | IsupportCommand | ModeCommand | NickCommand | KickCommand
    | CapCommand | AuthenticateCommand | SaslResultCommand | OtherCommand
  {
    /** The commands whose handlers write to the socket. */
    predicate Negotiates() {
      PingCommand? || CapCommand? || AuthenticateCommand? || SaslResultCommand?
    }
  }

  function CommandOf(cmd: string): (r: Command)
    ensures r == PingCommand <==> cmd == "PING"
    ensures r == CapCommand <==> cmd == "CAP"
    ensures r == AuthenticateCommand <==> cmd == "AUTHENTICATE"
    ensures r == SaslResultCommand <==> IsSaslResult(cmd)
  {
    if cmd == "PING" then PingCommand
    else if cmd == "001" then WelcomeCommand
    else if cmd == "005" then IsupportCommand
    else if cmd == "MODE" then ModeCommand
    else if cmd == "NICK" then NickCommand
    else if cmd == "KICK" then KickCommand
    else if cmd == "CAP" then CapCommand
    else if cmd == "AUTHENTICATE" then AuthenticateCommand
    else if IsSaslResult(cmd) then SaslResultCommand
    else OtherCommand
  }

  /** `handleMode`: the table changes and is republished only for a MODE on the tracked channel. */
  function HandleMode(s: ClientState, msg: IrcParser.IrcMessage): ClientState {
    match ModeUpdate(s.roster.usersMap, s.roster.modeToSymbol, s.roster.trackedChannel, msg)
    case None => s
    case Some(m) => Apply(s, Change(m, true))
  }

  /** The branches of the `when` block that write to the socket: PING and the CAP/SASL handshake. */
  function Negotiation(s: ClientState, cfg: Config, msg: IrcParser.IrcMessage, cmd: Command): Step {
    match cmd
    case PingCommand => Step(Send(s, "PONG " + PingToken(msg)), false)
    case CapCommand => HandleCap(s, cfg, msg)
    case AuthenticateCommand => Step(HandleAuthenticate(s, cfg, msg), false)
    case SaslResultCommand => Step(EndCapIfReady(s.(handshake := s.handshake.(saslPending := false))), false)
    case _ => Step(s, false)
  }

  /** The other branches of the `when` block: the `connected` flag, the ISUPPORT map and the channel table. */
  function RosterCommand(s: ClientState, msg: IrcParser.IrcMessage, cmd: Command): ClientState {
    match cmd
    case WelcomeCommand => s.(link := s.link.(connected := true))
    case IsupportCommand => s.(roster := s.roster.(modeToSymbol := IsupportMap(s.roster.modeToSymbol, IsupportWords(msg))))
    case ModeCommand => HandleMode(s, msg)
    case NickCommand => Apply(s, NickChange(s.roster.usersMap, msg))
    case KickCommand => Apply(s, KickChangeFixed(s.roster.usersMap, s.roster.trackedChannel, msg))
    case _ => s
  }

  /** The `when (msg.command.uppercase())` block of the read loop. */
  function Structured(s: ClientState, cfg: Config, msg: IrcParser.IrcMessage): Step {
    var cmd := CommandOf(Text.Upper(msg.command));
    if cmd.Negotiates() then Negotiation(s, cfg, msg, cmd) else Step(RosterCommand(s, msg, cmd), false)
  }

  /** The rate-limit phrases, looked for in the lower-cased line. */
  predicate RateLimited(l: string) {
    Text.Contains(Text.Lower(l), "too many connections") || Text.Contains(Text.Lower(l), "excess flood")
  }

  /** The 10-minute cooldown. */
  const CooldownMs: int := 600000

  /** The 353 check: the line's names go into the buffer. */
  function CollectNames(r: Roster, l: string): Roster {
    if Text.Contains(l, " 353 ") then r.(namesBuffer := r.namesBuffer + NamesInLine(l)) else r
  }

  /** The 366 check: the table becomes the collapsed buffer, is published, and the buffer empties. */
  function EndOfNames(r: Roster, l: string): Roster {
    if Text.Contains(l, " 366 ") then
      var m := Collapse(NoMembers, r.namesBuffer);
      r.(usersMap := m, users := Published(m), namesBuffer := [])
    else r
  }

  /** The auto-join check: after " 001 " or " 376 ", JOIN and NAMES the configured channel, once. */
  function AutoJoin(s: ClientState, l: string): ClientState {
    if (Text.Contains(l, " 001 ") || Text.Contains(l, " 376 ")) && s.roster.autoJoinChannel.Some? then
      var ch := s.roster.autoJoinChannel.value;
      s.(roster := s.roster.(autoJoinChannel := None, trackedChannel := Some(ch)), outbox := s.outbox + ["JOIN " + ch, "NAMES " + ch])
    else s
  }

  /** The textual checks that follow the structured block, in source order. */
  function Tracking(s: ClientState, l: string): ClientState {
    AutoJoin(s.(roster := TrackedRoster(s.roster, l)), l)
  }

  /** The checks before the auto-join one: they touch only the channel view. */
  function TrackedRoster(r: Roster, l: string): Roster {
    var r1 := EndOfNames(CollectNames(r, l), l);
    var r2 := ApplyTo(r1, JoinChange(r1.usersMap, l));
    ApplyTo(r2, PartChange(r2.usersMap, l))
  }

  /** One pass of the read loop's body, given what `IrcParser.parse` made of the line. */
  function LineStepWith(s: ClientState, cfg: Config, l: string, parsed: Option<IrcParser.IrcMessage>): Step {
    if RateLimited(l) then Step(s.(link := s.link.(nextForcedDelayMs := Some(CooldownMs))), true)
    else
      var st := if parsed.Some? then Structured(s, cfg, parsed.value) else Step(s, false);
      Step(Tracking(st.state, l), st.closes)
  }

  function LineStep(s: ClientState, cfg: Config, l: string): Step {
    LineStepWith(s, cfg, l, IrcParser.ParsedLine(l))
  }

  /** The read loop over a sequence of lines; it stops at the first line that closes the socket. */
  function Run(s: ClientState, cfg: Config, ls: seq<string>): ClientState
    decreases |ls|
  {
    if ls == [] then s
    else
      var st := LineStep(s, cfg, ls[0]);
      if st.closes then st.state else Run(st.state, cfg, ls[1..])
  }

  // ---------------------------------------------------------------------
  // Connection and reconnect bookkeeping
  // ---------------------------------------------------------------------

  /** The guards and resets of `connect` (the socket it then opens is not modelled). */
  function Connect(s: ClientState, cfg: Config): ClientState {
    if s.link.connected then s
    else s.(link := s.link.(userInitiatedDisconnect := false, reconnectJob := None, reconnectAttempts := 0, lastConfig := Some(cfg)))
  }

  /** The session set-up once the socket is open: fresh CAP state, registration, the auto-join channel. */
  function SessionStart(s: ClientState, cfg: Config): ClientState {
    Register(CapReset(s, cfg), cfg)
  }

  /** The CAP state is cleared; with `requestCaps`, `CAP LS 302` opens negotiation. */
  function CapReset(s: ClientState, cfg: Config): ClientState {
    s.(handshake := Handshake({}, {}, cfg.requestCaps, false, false),
       outbox := s.outbox + if cfg.requestCaps then ["CAP LS 302"] else [])
  }

  /** `NICK` and `USER`, then the configured channel, unless blank, is both the one to join and the one tracked. */
  function Register(s: ClientState, cfg: Config): ClientState {
    var ch := AutoJoinTarget(cfg);
    s.(roster := s.roster.(autoJoinChannel := ch, trackedChannel := ch),
       outbox := s.outbox + ["NICK " + cfg.nick, "USER " + cfg.user + " 0 * :" + cfg.realName])
  }

  /** `config.channel?.takeIf { it.isNotBlank() }`. */
  function AutoJoinTarget(cfg: Config): Option<string> {
    if cfg.channel.Some? && !Text.IsBlank(cfg.channel.value) then cfg.channel else None
  }

  function Pow2(n: nat): (r: nat)
    ensures r >= 1
  {
    if n == 0 then 1 else 2 * Pow2(n - 1)
  }

  /** Kotlin's `Long shl Int`: the shift count is taken mod 64 and the product wraps. */
  function ShlLong(x: int, n: nat): int {
    Text.WrapInt64(x * Pow2(n % 64))
  }

  /** `(minBackoffMs shl attempt).coerceAtMost(maxBackoffMs)`. */
  function BaseDelay(attempt: nat): int {
    var d := ShlLong(1000, attempt);
    if d < 60000 then d else 60000
  }

  /** `scheduleReconnect`: nothing without a last config, after a user disconnect, or while connected. */
  function ScheduleReconnect(s: ClientState, immediate: bool, forcedDelayMs: Option<int>, jitter: int): ClientState
    requires 0 <= jitter <= 500
  {
    if s.link.lastConfig.None? || s.link.userInitiatedDisconnect || s.link.connected then s
    else
      var attempt := s.link.reconnectAttempts;
      var computed := if immediate then 0 else BaseDelay(attempt) + jitter;
      var delayMs := if forcedDelayMs.Some? then forcedDelayMs.value else computed;
      s.(link := s.link.(reconnectJob := Some(Reconnect(s.link.lastConfig.value, delayMs, attempt))))
  }

  /** The reconnect coroutine once its delay is over, as written: it bumps the attempt counter and calls `connect`, which zeroes it. */
  function ReconnectFiresAsWritten(s: ClientState): ClientState {
    match s.link.reconnectJob
    case None => s
    case Some(job) =>
      if s.link.userInitiatedDisconnect then s.(link := s.link.(reconnectJob := None))
      else if !s.link.networkAvailable then s
      else
        var attempts := if s.link.reconnectAttempts + 1 < 10 then s.link.reconnectAttempts + 1 else 10;
        Connect(s.(link := s.link.(reconnectAttempts := attempts, reconnectJob := None)), job.config)
  }

  /** The reconnect coroutine as evidently intended: the bumped counter survives the `connect` it makes. */
  function ReconnectFires(s: ClientState): ClientState {
    match s.link.reconnectJob
    case None => s
    case Some(job) =>
      if s.link.userInitiatedDisconnect then s.(link := s.link.(reconnectJob := None))
      else if !s.link.networkAvailable then s
      else
        var attempts := if s.link.reconnectAttempts + 1 < 10 then s.link.reconnectAttempts + 1 else 10;
        var c := Connect(s.(link := s.link.(reconnectJob := None)), job.config);
        c.(link := c.link.(reconnectAttempts := attempts))
  }

  /** The `finally` block of the read coroutine. */
  function ConnectionClosed(s: ClientState, jitter: int): ClientState
    requires 0 <= jitter <= 500
  {
    var s1 := s.(link := s.link.(connected := false));
    if s1.link.userInitiatedDisconnect then s1
    else ScheduleReconnect(s1.(link := s1.link.(nextForcedDelayMs := None)), false, s1.link.nextForcedDelayMs, jitter)
  }

  /** `disconnect`. */
  function Disconnect(s: ClientState): ClientState {
    s.(link := s.link.(userInitiatedDisconnect := true, reconnectJob := None, connected := false))
  }

  /** `quit`. */
  function Quit(s: ClientState, message: string): ClientState {
    Disconnect(Send(s, "QUIT :" + message))
  }

  /** `reconnectNow`. */
  function ReconnectNow(s: ClientState): ClientState {
    ScheduleReconnect(s.(link := s.link.(userInitiatedDisconnect := false, reconnectAttempts := 0)), true, None, 0)
  }

  /** `onNetworkAvailable`. */
  function OnNetworkAvailable(s: ClientState, available: bool): ClientState {
    var s1 := s.(link := s.link.(networkAvailable := available));
    if available && !s1.link.connected then ScheduleReconnect(s1.(link := s1.link.(reconnectAttempts := 0)), true, None, 0) else s1
  }
}
