/** What the session handlers of `IrcSession` promise, over all inputs. */
module SessionProperties {
  import opened Wrappers
  import Text
  import opened IrcModels
  import IrcParser
  import Encoding
  import opened ChannelMembers
  import opened IrcSession

  // ---------------------------------------------------------------------
  // Backoff
  // ---------------------------------------------------------------------

  lemma {:induction false} Pow2Monotone(a: nat, b: nat)
    requires a <= b
    ensures Pow2(a) <= Pow2(b)
    decreases b
  {
    if a < b {
      Pow2Monotone(a, b - 1);
    }
  }

  lemma Pow2UpToTen()
    ensures Pow2(5) == 32 && Pow2(6) == 64 && Pow2(10) == 1024
  {
    assert Pow2(1) == 2;
    assert Pow2(3) == 8;
    assert Pow2(5) == 32;
    assert Pow2(7) == 128;
    assert Pow2(9) == 512;
  }

  /** Within the attempt cap the shift neither wraps nor loses bits. */
  lemma ShiftWithinCap(attempt: nat)
    requires attempt <= 10
    ensures ShlLong(1000, attempt) == 1000 * Pow2(attempt) <= 1024000
  {
    assert attempt % 64 == attempt;
    Pow2UpToTen();
    Pow2Monotone(attempt, 10);
    assert Text.IsInt64(1000 * Pow2(attempt));
  }

  /** Within the attempt cap the base delay is 1 s doubled per attempt, cut at 60 s after the fifth. */
  lemma BaseDelayValues(attempt: nat)
    requires attempt <= 10
    ensures attempt <= 5 ==> BaseDelay(attempt) == 1000 * Pow2(attempt)
    ensures attempt >= 6 ==> BaseDelay(attempt) == 60000
    ensures 1000 <= BaseDelay(attempt) <= 60000
  {
    ShiftWithinCap(attempt);
    Pow2UpToTen();
    if attempt <= 5 {
      Pow2Monotone(attempt, 5);
    } else {
      Pow2Monotone(6, attempt);
    }
  }

  /** The base delay never shrinks as the attempt number grows, and doubles while under the cap. */
  lemma BaseDelayMonotone(a: nat, b: nat)
    requires a <= b <= 10
    ensures BaseDelay(a) <= BaseDelay(b)
    ensures b == a + 1 && b <= 5 ==> BaseDelay(b) == 2 * BaseDelay(a)
  {
    BaseDelayValues(a);
    BaseDelayValues(b);
    if b <= 5 {
      Pow2Monotone(a, b);
    }
  }

  /** `scheduleReconnect`: its guards, and the delay it picks (forced, then immediate, then backoff plus jitter). */
  lemma ScheduleChoosesDelay(s: ClientState, immediate: bool, forced: Option<int>, jitter: int)
    requires 0 <= jitter <= 500 && s.link.reconnectAttempts <= 10
    ensures var r := ScheduleReconnect(s, immediate, forced, jitter);
      (s.link.lastConfig.None? || s.link.userInitiatedDisconnect || s.link.connected ==> r == s)
      && (s.link.lastConfig.Some? && !s.link.userInitiatedDisconnect && !s.link.connected ==>
            r.link.reconnectJob.Some? && r == s.(link := s.link.(reconnectJob := r.link.reconnectJob))
            && r.link.reconnectJob.value.config == s.link.lastConfig.value
            && r.link.reconnectJob.value.attempt == s.link.reconnectAttempts
            && (forced.Some? ==> r.link.reconnectJob.value.delayMs == forced.value)
            && (forced.None? && immediate ==> r.link.reconnectJob.value.delayMs == 0)
            && (forced.None? && !immediate ==>
                  r.link.reconnectJob.value.delayMs ==
                    (if s.link.reconnectAttempts <= 5 then 1000 * Pow2(s.link.reconnectAttempts) else 60000) + jitter))
  {
    BaseDelayValues(s.link.reconnectAttempts);
  }

  // ---------------------------------------------------------------------
  // Reconnect bookkeeping
  // ---------------------------------------------------------------------

  /** The attempt counter stays within its cap and every table stays well formed across all connection operations. */
  lemma ConnectKeepsInvariant(s: ClientState, cfg: Config)
    requires Invariant(s)
    ensures Invariant(Connect(s, cfg)) && Invariant(SessionStart(s, cfg))
  {
  }

  lemma ScheduleKeepsInvariant(s: ClientState, immediate: bool, forced: Option<int>, jitter: int)
    requires Invariant(s) && 0 <= jitter <= 500
    ensures Invariant(ScheduleReconnect(s, immediate, forced, jitter))
  {
  }

  lemma ReconnectFiresKeepsInvariant(s: ClientState)
    requires Invariant(s)
    ensures Invariant(ReconnectFires(s)) && Invariant(ReconnectFiresAsWritten(s))
  {
  }

  lemma ClosingKeepsInvariant(s: ClientState, jitter: int, message: string, available: bool)
    requires Invariant(s) && 0 <= jitter <= 500
    ensures Invariant(ConnectionClosed(s, jitter))
    ensures Invariant(Disconnect(s)) && Invariant(IrcSession.Quit(s, message))
    ensures Invariant(ReconnectNow(s)) && Invariant(OnNetworkAvailable(s, available))
  {
    var s1 := s.(link := s.link.(connected := false));
    if !s.link.userInitiatedDisconnect {
      ScheduleKeepsInvariant(s1.(link := s1.link.(nextForcedDelayMs := None)), false, s1.link.nextForcedDelayMs, jitter);
    }
    ScheduleKeepsInvariant(s.(link := s.link.(userInitiatedDisconnect := false, reconnectAttempts := 0)), true, None, 0);
    ScheduleKeepsInvariant(s.(link := s.link.(networkAvailable := available, reconnectAttempts := 0)), true, None, 0);
  }

  /** After `disconnect`, neither the socket closing nor the network coming back schedules a reconnect. */
  lemma DisconnectStopsReconnect(s: ClientState, jitter: int, available: bool)
    requires 0 <= jitter <= 500
    ensures ConnectionClosed(Disconnect(s), jitter).link.reconnectJob.None?
    ensures OnNetworkAvailable(Disconnect(s), available).link.reconnectJob.None?
    ensures ReconnectFires(Disconnect(s)) == Disconnect(s)
  {
  }

  /** `reconnectNow` and a returning network both retry at once, from attempt zero, with the last config. */
  lemma ImmediateRetry(s: ClientState)
    requires s.link.lastConfig.Some? && !s.link.connected
    ensures ReconnectNow(s).link.reconnectJob == Some(Reconnect(s.link.lastConfig.value, 0, 0))
    ensures !s.link.userInitiatedDisconnect ==>
      OnNetworkAvailable(s, true).link.reconnectJob == Some(Reconnect(s.link.lastConfig.value, 0, 0))
  {
  }

  /** A lost network keeps a due reconnect waiting instead of connecting. */
  lemma ReconnectWaitsForNetwork(s: ClientState)
    requires s.link.reconnectJob.Some? && !s.link.userInitiatedDisconnect
    ensures !OnNetworkAvailable(s, false).link.networkAvailable
    ensures ReconnectFires(OnNetworkAvailable(s, false)) == OnNetworkAvailable(s, false)
  {
  }

  /** As written, `connect` zeroes the counter the reconnect coroutine has just bumped, so a failed reconnect always retries after about a second. */
  lemma BackoffResetByConnect(s: ClientState, jitter: int)
    requires 0 <= jitter <= 500
    requires s.link.reconnectJob.Some? && !s.link.userInitiatedDisconnect && s.link.networkAvailable && !s.link.connected
    requires s.link.nextForcedDelayMs.None?
    ensures var t := ReconnectFiresAsWritten(s);
      t.link.reconnectAttempts == 0
      && ConnectionClosed(t, jitter).link.reconnectJob == Some(Reconnect(s.link.reconnectJob.value.config, 1000 + jitter, 0))
  {
  }

  /** With the counter surviving `connect`, each failed reconnect waits longer than the one before, up to the cap. */
  lemma BackoffGrows(s: ClientState, jitter: int)
    requires 0 <= jitter <= 500 && s.link.reconnectAttempts < 10
    requires s.link.reconnectJob.Some? && !s.link.userInitiatedDisconnect && s.link.networkAvailable && !s.link.connected
    requires s.link.nextForcedDelayMs.None?
    ensures var t := ReconnectFires(s);
      var r := ConnectionClosed(t, jitter);
      t.link.reconnectAttempts == s.link.reconnectAttempts + 1
      && r.link.reconnectJob.Some? && r.link.reconnectJob.value.config == s.link.reconnectJob.value.config
      && r.link.reconnectJob.value.delayMs == BaseDelay(s.link.reconnectAttempts + 1) + jitter
      && (s.link.reconnectAttempts < 6 ==> r.link.reconnectJob.value.delayMs > BaseDelay(s.link.reconnectAttempts) + jitter)
  {
    BaseDelayValues(s.link.reconnectAttempts);
    BaseDelayValues(s.link.reconnectAttempts + 1);
    if s.link.reconnectAttempts < 5 {
      BaseDelayMonotone(s.link.reconnectAttempts, s.link.reconnectAttempts + 1);
    }
  }

  // ---------------------------------------------------------------------
  // Rate limiting
  // ---------------------------------------------------------------------

  /** A rate-limit line closes the socket, and the reconnect that follows waits the 10-minute cooldown, once. */
  lemma RateLimitCooldown(s: ClientState, cfg: Config, l: string, jitter: int)
    requires 0 <= jitter <= 500 && RateLimited(l)
    ensures var st := LineStep(s, cfg, l);
      var r := ConnectionClosed(st.state, jitter);
      st.closes && !r.link.connected
      && (!s.link.userInitiatedDisconnect ==> r.link.nextForcedDelayMs.None?)
      && (s.link.lastConfig.Some? && !s.link.userInitiatedDisconnect ==>
            r.link.reconnectJob == Some(Reconnect(s.link.lastConfig.value, CooldownMs, s.link.reconnectAttempts)))
  {
    var t := s.(link := s.link.(nextForcedDelayMs := Some(CooldownMs)));
    assert LineStep(s, cfg, l) == Step(t, true);
  }

  // ---------------------------------------------------------------------
  // What one handler may change
  // ---------------------------------------------------------------------

  /** `CAP END`, and the auto-join of one channel: the two messages a session sends at most once. */
  datatype Watch = CapEndWatch | AutoJoinWatch(channel: string)

  function Watched(w: Watch): string {
    match w
    case CapEndWatch => "CAP END"
    case AutoJoinWatch(ch) => "JOIN " + ch
  }

  /** Whether the state still allows the watched message to be sent. */
  predicate Armed(w: Watch, s: ClientState) {
    match w
    case CapEndWatch => s.handshake.negotiatingCaps
    case AutoJoinWatch(ch) => s.roster.autoJoinChannel == Some(ch)
  }

  function Count(xs: seq<string>, x: string): (n: nat)
    ensures n <= |xs|
  {
    if xs == [] then 0 else (if xs[0] == x then 1 else 0) + Count(xs[1..], x)
  }

  lemma {:induction false} CountAppend(a: seq<string>, b: seq<string>, x: string)
    ensures Count(a + b, x) == Count(a, x) + Count(b, x)
  {
    if a != [] {
      CountAppend(a[1..], b, x);
      assert (a + b)[1..] == a[1..] + b;
    } else {
      assert a + b == b;
    }
  }

  /** From `s` to `t` only sends were added, holding the watched message at most once and only while armed, which it disarms. */
  ghost predicate AtMostOnce(w: Watch, s: ClientState, t: ClientState) {
    |s.outbox| <= |t.outbox| && t.outbox[..|s.outbox|] == s.outbox
    && var n := Count(t.outbox[|s.outbox|..], Watched(w));
       n <= (if Armed(w, s) then 1 else 0) && (n == 1 ==> !Armed(w, t)) && (!Armed(w, s) ==> !Armed(w, t))
  }

  lemma AtMostOnceTrans(w: Watch, a: ClientState, b: ClientState, c: ClientState)
    requires AtMostOnce(w, a, b) && AtMostOnce(w, b, c)
    ensures AtMostOnce(w, a, c)
  {
    var da := b.outbox[|a.outbox|..];
    var db := c.outbox[|b.outbox|..];
    assert c.outbox[..|b.outbox|] == b.outbox;
    assert c.outbox[..|a.outbox|] == a.outbox by {
      assert c.outbox[..|a.outbox|] == c.outbox[..|b.outbox|][..|a.outbox|];
    }
    assert c.outbox[|a.outbox|..] == da + db;
    CountAppend(da, db, Watched(w));
  }

  /** Sends that never are the watched message, with the arming unchanged. */
  lemma Quiet(w: Watch, s: ClientState, t: ClientState, d: seq<string>)
    requires t.outbox == s.outbox + d && Count(d, Watched(w)) == 0 && Armed(w, t) == Armed(w, s)
    ensures AtMostOnce(w, s, t)
  {
    assert t.outbox[..|s.outbox|] == s.outbox;
    assert t.outbox[|s.outbox|..] == d;
  }

  /** What a structured handler may do: keep the invariant and the auto-join channel, and send a watched message at most once. */
  ghost predicate Orderly(w: Watch, s: ClientState, t: ClientState) {
    AtMostOnce(w, s, t) && (Invariant(s) ==> Invariant(t)) && t.roster.autoJoinChannel == s.roster.autoJoinChannel
  }

  lemma OrderlyTrans(w: Watch, a: ClientState, b: ClientState, c: ClientState)
    requires Orderly(w, a, b) && Orderly(w, b, c)
    ensures Orderly(w, a, c)
  {
    AtMostOnceTrans(w, a, b, c);
  }

  /** A roster-only change: nothing sent, no flag touched. */
  ghost predicate Silent(s: ClientState, t: ClientState) {
    t.outbox == s.outbox && t.handshake.negotiatingCaps == s.handshake.negotiatingCaps && t.roster.autoJoinChannel == s.roster.autoJoinChannel
    && t.link.reconnectAttempts == s.link.reconnectAttempts && (Invariant(s) ==> Invariant(t))
  }

  lemma SilentOrderly(w: Watch, s: ClientState, t: ClientState)
    requires Silent(s, t)
    ensures Orderly(w, s, t)
  {
    Quiet(w, s, t, []);
  }

  /** What the structured handlers send besides `CAP END` is never a watched message. */
  lemma OtherSends(w: Watch, token: string, req: string, account: string, password: string)
    ensures Count(["PONG " + token], Watched(w)) == 0
    ensures Count(["CAP REQ :" + req], Watched(w)) == 0
    ensures Count(["AUTHENTICATE PLAIN"], Watched(w)) == 0
    ensures Count([AuthenticateResponse(account, password)], Watched(w)) == 0
  {
    assert Watched(w)[0] == 'C' || Watched(w)[0] == 'J';
    assert ("PONG " + token)[0] == 'P';
    assert AuthenticateResponse(account, password)[0] == 'A';
    assert ("CAP REQ :" + req)[0] == 'C' && ("CAP REQ :" + req)[4] == 'R';
    assert w.CapEndWatch? ==> Watched(w)[4] == 'E';
  }

  lemma ApplySilent(s: ClientState, c: Change)
    requires WellFormed(s.roster.usersMap) ==> WellFormed(c.members)
    ensures Silent(s, Apply(s, c))
  {
  }

  lemma ModeSilent(s: ClientState, msg: IrcParser.IrcMessage)
    ensures Silent(s, HandleMode(s, msg))
  {
    match ModeUpdate(s.roster.usersMap, s.roster.modeToSymbol, s.roster.trackedChannel, msg)
    case None =>
    case Some(m) => ApplySilent(s, Change(m, true));
  }

  lemma NickSilent(s: ClientState, msg: IrcParser.IrcMessage)
    ensures Silent(s, Apply(s, NickChange(s.roster.usersMap, msg)))
  {
    ApplySilent(s, NickChange(s.roster.usersMap, msg));
  }

  lemma KickSilent(s: ClientState, msg: IrcParser.IrcMessage)
    ensures Silent(s, Apply(s, KickChangeFixed(s.roster.usersMap, s.roster.trackedChannel, msg)))
  {
    ApplySilent(s, KickChangeFixed(s.roster.usersMap, s.roster.trackedChannel, msg));
  }

  lemma SendOrderly(w: Watch, s: ClientState, t: ClientState, x: string)
    requires t == Send(s, x) && Count([x], Watched(w)) == 0
    ensures Orderly(w, s, t)
  {
    Quiet(w, s, t, [x]);
  }

  lemma EndCapOrderly(w: Watch, s: ClientState)
    ensures Orderly(w, s, EndCapIfReady(s))
  {
    var t := EndCapIfReady(s);
    if t == s {
      Quiet(w, s, t, []);
    } else {
      assert t.outbox == s.outbox + ["CAP END"];
      assert t.outbox[|s.outbox|..] == ["CAP END"];
      assert w.AutoJoinWatch? ==> Watched(w)[0] == 'J';
    }
  }

  lemma CapAckOrderly(w: Watch, s: ClientState, cfg: Config, msg: IrcParser.IrcMessage)
    ensures Orderly(w, s, CapAck(s, cfg, msg))
  {
    var acked := TrailingWords(msg);
    var s1 := s.(handshake := s.handshake.(capsAcked := s.handshake.capsAcked + (set c | c in acked), echoEnabled := s.handshake.echoEnabled || AnyIgnoreCase(acked, "echo-message")));
    SilentOrderly(w, s, s1);
    AckReplyOrderly(w, s1, cfg, acked);
    OrderlyTrans(w, s, s1, AckReply(s1, cfg, acked));
  }

  lemma AckReplyOrderly(w: Watch, s: ClientState, cfg: Config, acked: seq<string>)
    ensures Orderly(w, s, AckReply(s, cfg, acked))
  {
    if AnyIgnoreCase(acked, "sasl") && HasSaslCredentials(cfg) {
      var s1 := s.(handshake := s.handshake.(saslPending := true));
      SilentOrderly(w, s, s1);
      OtherSends(w, "", "", "", "");
      SendOrderly(w, s1, Send(s1, "AUTHENTICATE PLAIN"), "AUTHENTICATE PLAIN");
      OrderlyTrans(w, s, s1, Send(s1, "AUTHENTICATE PLAIN"));
    } else {
      EndCapOrderly(w, s);
    }
  }

  lemma CapOfferOrderly(w: Watch, s: ClientState, cfg: Config, msg: IrcParser.IrcMessage)
    ensures Orderly(w, s, CapOffer(s, cfg, msg).state)
  {
    var caps := TrailingWords(msg);
    if caps == [] {
      SilentOrderly(w, s, s);
    } else if StsUpgrade(caps, cfg).Some? {
      SilentOrderly(w, s, CapOffer(s, cfg, msg).state);
    } else {
      var toReq := Requested(Offered(caps), cfg, s.handshake.capsAcked);
      if toReq != [] {
        CapRequestOrderly(w, s, toReq);
      } else {
        EndCapOrderly(w, s);
      }
    }
  }

  lemma CapRequestOrderly(w: Watch, s: ClientState, toReq: seq<string>)
    ensures Orderly(w, s, Send(s.(handshake := s.handshake.(wantCaps := s.handshake.wantCaps + (set c | c in toReq))), "CAP REQ :" + Text.Join(toReq, " ")))
  {
    var s1 := s.(handshake := s.handshake.(wantCaps := s.handshake.wantCaps + (set c | c in toReq)));
    SilentOrderly(w, s, s1);
    OtherSends(w, "", Text.Join(toReq, " "), "", "");
    SendOrderly(w, s1, Send(s1, "CAP REQ :" + Text.Join(toReq, " ")), "CAP REQ :" + Text.Join(toReq, " "));
    OrderlyTrans(w, s, s1, Send(s1, "CAP REQ :" + Text.Join(toReq, " ")));
  }

  lemma HandleCapOrderly(w: Watch, s: ClientState, cfg: Config, msg: IrcParser.IrcMessage)
    ensures Orderly(w, s, HandleCap(s, cfg, msg).state)
  {
    if |msg.params| < 2 {
      SilentOrderly(w, s, s);
    } else {
      match CapSubOf(Text.Upper(msg.params[1]))
      case OfferSub => CapOfferOrderly(w, s, cfg, msg);
      case AckSub => CapAckOrderly(w, s, cfg, msg);
      case NakSub => EndCapOrderly(w, s);
      case OtherSub => SilentOrderly(w, s, s);
    }
  }

  lemma AuthenticateOrderly(w: Watch, s: ClientState, cfg: Config, msg: IrcParser.IrcMessage)
    ensures Orderly(w, s, HandleAuthenticate(s, cfg, msg))
  {
    var t := HandleAuthenticate(s, cfg, msg);
    if t == s {
      SilentOrderly(w, s, s);
    } else {
      var account := cfg.saslAccount.value;
      var password := cfg.saslPassword.value;
      OtherSends(w, "", "", account, password);
      SendOrderly(w, s, t, AuthenticateResponse(account, password));
    }
  }

  lemma NegotiationOrderly(w: Watch, s: ClientState, cfg: Config, msg: IrcParser.IrcMessage, cmd: Command)
    ensures Orderly(w, s, Negotiation(s, cfg, msg, cmd).state)
  {
    match cmd
    case PingCommand =>
      OtherSends(w, PingToken(msg), "", "", "");
      SendOrderly(w, s, Send(s, "PONG " + PingToken(msg)), "PONG " + PingToken(msg));
    case CapCommand => HandleCapOrderly(w, s, cfg, msg);
    case AuthenticateCommand => AuthenticateOrderly(w, s, cfg, msg);
    case SaslResultCommand =>
      var s1 := s.(handshake := s.handshake.(saslPending := false));
      SilentOrderly(w, s, s1);
      EndCapOrderly(w, s1);
      OrderlyTrans(w, s, s1, EndCapIfReady(s1));
    case _ => SilentOrderly(w, s, s);
  }

  lemma RosterCommandSilent(s: ClientState, msg: IrcParser.IrcMessage, cmd: Command)
    ensures Silent(s, RosterCommand(s, msg, cmd))
  {
    match cmd
    case ModeCommand => ModeSilent(s, msg);
    case NickCommand => NickSilent(s, msg);
    case KickCommand => KickSilent(s, msg);
    case _ =>
  }

  lemma StructuredOrderly(w: Watch, s: ClientState, cfg: Config, msg: IrcParser.IrcMessage)
    ensures Orderly(w, s, Structured(s, cfg, msg).state)
  {
    var cmd := CommandOf(Text.Upper(msg.command));
    if cmd.Negotiates() {
      NegotiationOrderly(w, s, cfg, msg, cmd);
    } else {
      RosterCommandSilent(s, msg, cmd);
      SilentOrderly(w, s, RosterCommand(s, msg, cmd));
    }
  }

  /** A step of the channel view that keeps its invariant and leaves the auto-join channel alone. */
  ghost predicate RosterSilent(r: Roster, t: Roster) {
    t.autoJoinChannel == r.autoJoinChannel && (RosterOk(r) ==> RosterOk(t))
  }

  lemma CollectNamesSilent(r: Roster, l: string)
    ensures RosterSilent(r, CollectNames(r, l))
  {
    if Text.Contains(l, " 353 ") {
      var added := NamesInLine(l);
      NamesOfEntries(NamesWords(l));
      var b := r.namesBuffer + added;
      assert forall u :: u in b ==> u in r.namesBuffer || u in added;
    }
  }

  lemma EndOfNamesSilent(r: Roster, l: string)
    ensures RosterSilent(r, EndOfNames(r, l))
  {
    CollapseWellFormed(NoMembers, r.namesBuffer);
  }

  lemma ApplyToSilent(r: Roster, c: Change)
    requires WellFormed(r.usersMap) ==> WellFormed(c.members)
    ensures RosterSilent(r, ApplyTo(r, c))
  {
  }

  /** The textual checks before the auto-join keep the channel view's invariant and its auto-join channel. */
  lemma TrackedRosterSilent(r: Roster, l: string)
    ensures RosterSilent(r, TrackedRoster(r, l))
  {
    var e := EndOfNames(CollectNames(r, l), l);
    CollectNamesSilent(r, l);
    EndOfNamesSilent(CollectNames(r, l), l);
    var j := ApplyTo(e, JoinChange(e.usersMap, l));
    if WellFormed(e.usersMap) {
      JoinKeepsSymbol(e.usersMap, l, "");
    }
    ApplyToSilent(e, JoinChange(e.usersMap, l));
    ApplyToSilent(j, PartChange(j.usersMap, l));
  }

  /** A step of the channel view alone is silent for the whole client. */
  lemma RosterStepSilent(s: ClientState, r: Roster)
    requires RosterSilent(s.roster, r)
    ensures Silent(s, s.(roster := r))
  {
  }

  lemma JoinLinesDiffer(a: string, b: string)
    requires a != b
    ensures "JOIN " + a != "JOIN " + b
  {
    assert ("JOIN " + a)[5..] == a;
    assert ("JOIN " + b)[5..] == b;
  }

  /** The auto-join sends its JOIN and NAMES once and disarms itself. */
  lemma AutoJoinOnce(w: Watch, s: ClientState, l: string)
    ensures AtMostOnce(w, s, AutoJoin(s, l))
    ensures Invariant(s) ==> Invariant(AutoJoin(s, l))
  {
    var t := AutoJoin(s, l);
    if t == s {
      Quiet(w, s, t, []);
    } else {
      var ch := s.roster.autoJoinChannel.value;
      var d := ["JOIN " + ch, "NAMES " + ch];
      assert t.outbox == s.outbox + d;
      assert ("NAMES " + ch)[0] == 'N';
      assert Watched(w)[0] == 'C' || Watched(w)[0] == 'J';
      assert Count(d, Watched(w)) == Count(["JOIN " + ch], Watched(w)) + Count(["NAMES " + ch], Watched(w)) by {
        CountAppend(["JOIN " + ch], ["NAMES " + ch], Watched(w));
        assert d == ["JOIN " + ch] + ["NAMES " + ch];
      }
      match w
      case CapEndWatch =>
        assert ("JOIN " + ch)[0] == 'J';
        Quiet(w, s, t, d);
      case AutoJoinWatch(c) =>
        if c == ch {
          assert t.outbox[..|s.outbox|] == s.outbox;
          assert t.outbox[|s.outbox|..] == d;
        } else {
          JoinLinesDiffer(ch, c);
          Quiet(w, s, t, d);
        }
    }
  }

  /** The textual checks keep the invariant, only append, and send a watched message at most once. */
  lemma TrackingOnce(w: Watch, s: ClientState, l: string)
    ensures AtMostOnce(w, s, Tracking(s, l))
    ensures Invariant(s) ==> Invariant(Tracking(s, l))
  {
    var p := s.(roster := TrackedRoster(s.roster, l));
    TrackedRosterSilent(s.roster, l);
    RosterStepSilent(s, TrackedRoster(s.roster, l));
    Quiet(w, s, p, []);
    AutoJoinOnce(w, p, l);
    AtMostOnceTrans(w, s, p, AutoJoin(p, l));
  }

  lemma LineStepOnce(w: Watch, s: ClientState, cfg: Config, l: string)
    ensures AtMostOnce(w, s, LineStep(s, cfg, l).state)
    ensures Invariant(s) ==> Invariant(LineStep(s, cfg, l).state)
  {
    var parsed := IrcParser.ParsedLine(l);
    if RateLimited(l) {
      Quiet(w, s, LineStep(s, cfg, l).state, []);
    } else {
      var st := if parsed.Some? then Structured(s, cfg, parsed.value) else Step(s, false);
      if parsed.Some? {
        StructuredOrderly(w, s, cfg, parsed.value);
      } else {
        SilentOrderly(w, s, s);
      }
      TrackingOnce(w, st.state, l);
      AtMostOnceTrans(w, s, st.state, Tracking(st.state, l));
    }
  }

  lemma {:induction false} RunOnce(w: Watch, s: ClientState, cfg: Config, ls: seq<string>)
    ensures AtMostOnce(w, s, Run(s, cfg, ls))
    decreases |ls|
  {
    if ls == [] {
      Quiet(w, s, s, []);
    } else {
      var st := LineStep(s, cfg, ls[0]);
      LineStepOnce(w, s, cfg, ls[0]);
      if !st.closes {
        RunOnce(w, st.state, cfg, ls[1..]);
        AtMostOnceTrans(w, s, st.state, Run(st.state, cfg, ls[1..]));
      }
    }
  }

  /** Over one session, `CAP END` goes out at most once, and never when no capabilities were requested. */
  lemma CapEndAtMostOncePerSession(s: ClientState, cfg: Config, ls: seq<string>)
    ensures var t := SessionStart(s, cfg);
      var r := Run(t, cfg, ls);
      |t.outbox| <= |r.outbox| && Count(r.outbox[|t.outbox|..], "CAP END") <= (if cfg.requestCaps then 1 else 0)
  {
    RunOnce(CapEndWatch, SessionStart(s, cfg), cfg, ls);
  }

  /** Over one session, the auto-join `JOIN` of a channel goes out at most once, and only for the configured channel. */
  lemma AutoJoinAtMostOncePerSession(s: ClientState, cfg: Config, ls: seq<string>, ch: string)
    ensures var t := SessionStart(s, cfg);
      var r := Run(t, cfg, ls);
      |t.outbox| <= |r.outbox|
      && Count(r.outbox[|t.outbox|..], "JOIN " + ch) <= (if cfg.channel == Some(ch) && !Text.IsBlank(ch) then 1 else 0)
  {
    RunOnce(AutoJoinWatch(ch), SessionStart(s, cfg), cfg, ls);
  }

  // ---------------------------------------------------------------------
  // Line handling
  // ---------------------------------------------------------------------

  /** Every line keeps the table well formed, the buffer made of NAMES entries and the counter capped. */
  lemma LineStepKeepsInvariant(s: ClientState, cfg: Config, l: string)
    requires Invariant(s)
    ensures Invariant(LineStep(s, cfg, l).state)
  {
    LineStepOnce(CapEndWatch, s, cfg, l);
  }

  /** A `PING :token` line is answered with `PONG token` before anything else the line sends. */
  lemma PingAnswered(s: ClientState, cfg: Config, token: string)
    requires !RateLimited("PING :" + token)
    ensures var t := LineStep(s, cfg, "PING :" + token).state;
      |t.outbox| > |s.outbox| && t.outbox[..|s.outbox| + 1] == s.outbox + ["PONG " + token]
  {
    var l := "PING :" + token;
    var msg := IrcParser.IrcMessage(l, map[], None, "PING", [], Some(token));
    PingLine(token);
    assert Text.Upper("PING") == "PING";
    var sent := Send(s, "PONG " + token);
    assert Structured(s, cfg, msg) == Step(sent, false);
    TrackingOnce(CapEndWatch, sent, l);
  }

  lemma PingLine(token: string)
    ensures IrcParser.ParsedLine("PING :" + token) ==
      Some(IrcParser.IrcMessage("PING :" + token, map[], None, "PING", [], Some(token)))
  {
    var l := "PING :" + token;
    assert l[0..4] == "PING";
    IrcParser.AfterPrefixAt(l, map[], None, 0, "PING", 4);
    assert IrcParser.SkipSpaces(l, 4) == 5;
    assert l[6..] == token;
    assert IrcParser.ParamsFrom(l, 4) == ([], Some(token));
  }

  /** The first `001` or end-of-MOTD line joins the configured channel, asks for its names, and starts tracking it. */
  lemma WelcomeJoinsChannel(s: ClientState, cfg: Config, l: string, ch: string)
    requires !RateLimited(l) && (Text.Contains(l, " 001 ") || Text.Contains(l, " 376 "))
    requires s.roster.autoJoinChannel == Some(ch)
    ensures var t := LineStep(s, cfg, l).state;
      t.roster.autoJoinChannel.None? && t.roster.trackedChannel == Some(ch)
      && |t.outbox| >= 2 && t.outbox[|t.outbox| - 2..] == ["JOIN " + ch, "NAMES " + ch]
  {
    var parsed := IrcParser.ParsedLine(l);
    var st := if parsed.Some? then Structured(s, cfg, parsed.value) else Step(s, false);
    if parsed.Some? {
      StructuredOrderly(CapEndWatch, s, cfg, parsed.value);
    }
    var p := st.state.(roster := TrackedRoster(st.state.roster, l));
    TrackedRosterSilent(st.state.roster, l);
    assert p.roster.autoJoinChannel == Some(ch);
    assert LineStep(s, cfg, l).state == AutoJoin(p, l);
  }

  /** A SASL result numeric ends the wait and, while negotiating, sends the one `CAP END`. */
  lemma SaslResultEndsNegotiation(s: ClientState, cfg: Config, msg: IrcParser.IrcMessage)
    requires IsSaslResult(Text.Upper(msg.command))
    ensures var t := Structured(s, cfg, msg).state;
      !t.handshake.saslPending && !t.handshake.negotiatingCaps
      && t.outbox == s.outbox + (if s.handshake.negotiatingCaps then ["CAP END"] else [])
  {
  }


  // ---------------------------------------------------------------------
  // CAP
  // ---------------------------------------------------------------------

  /** A `CAP LS` word names the capability before its first '=': `sts=port=6697` offers `sts`. */
  lemma OfferedName(c: string, name: string)
    requires '=' !in name
    ensures Text.SubstringBefore(c, "=", c) == name <==> c == name || Text.StartsWith(c, name + "=")
  {
    match Text.FindSub(c, "=")
    case None =>
      if Text.StartsWith(c, name + "=") {
        assert Text.OccursAt(c, "=", |name|);
      }
    case Some(k) =>
      assert c[k] == '=';
      assert forall j :: 0 <= j < k ==> c[j] != '=' by {
        forall j | 0 <= j < k ensures c[j] != '=' {
          assert !Text.OccursAt(c, "=", j);
        }
      }
      if Text.StartsWith(c, name + "=") {
        assert c[|name|] == '=';
        assert forall j :: 0 <= j < |name| ==> c[j] != '=';
        assert c[..k] == name;
      }
      if c[..k] == name {
        assert c[..|name| + 1] == name + "=";
      }
  }

  /** Joining with one separator and splitting on it again is the identity, when no piece holds the separator. */
  lemma SplitJoined(parts: seq<string>, c: char)
    requires |parts| >= 1
    requires forall i :: 0 <= i < |parts| ==> c !in parts[i]
    ensures Text.Split(Text.Join(parts, [c]), c) == parts
  {
    forall i, j | 0 <= i < |parts| && 0 <= j < |parts[i]| ensures parts[i][j] !in {c} {
      assert parts[i][j] in parts[i];
    }
    Text.SplitJoin(parts, c, {c});
  }

  /** An offer without STS asks, in one `CAP REQ`, for exactly the wanted capabilities not yet acknowledged, or ends negotiation. */
  lemma CapRequestFollowsOffer(s: ClientState, cfg: Config, msg: IrcParser.IrcMessage)
    requires TrailingWords(msg) != [] && StsUpgrade(TrailingWords(msg), cfg).None?
    ensures var st := CapOffer(s, cfg, msg);
      var req := Requested(Offered(TrailingWords(msg)), cfg, s.handshake.capsAcked);
      !st.closes
      && (req != [] ==>
            st.state.outbox == s.outbox + ["CAP REQ :" + Text.Join(req, " ")]
            && Text.Split(Text.Join(req, " "), ' ') == req
            && st.state.handshake.wantCaps == s.handshake.wantCaps + set c | c in req)
      && (req == [] ==> st.state == EndCapIfReady(s))
  {
    var req := Requested(Offered(TrailingWords(msg)), cfg, s.handshake.capsAcked);
    if req != [] {
      forall i | 0 <= i < |req| ensures ' ' !in req[i] {
        assert req[i] in req;
      }
      SplitJoined(req, ' ');
    }
  }

  /** An STS offer on a plain-text session closes it, and the reconnect that follows uses TLS on the advertised port. */
  lemma StsUpgradeReconnects(s: ClientState, cfg: Config, msg: IrcParser.IrcMessage, p: int, jitter: int)
    requires 0 <= jitter <= 500
    requires StsUpgrade(TrailingWords(msg), cfg) == Some(p)
    requires !s.link.userInitiatedDisconnect && s.link.nextForcedDelayMs.None?
    ensures !cfg.useTls && 1 <= p <= 65535
    ensures var st := CapOffer(s, cfg, msg);
      var r := ConnectionClosed(st.state, jitter);
      st.closes && r.link.reconnectJob.Some? && r.link.reconnectJob.value.config == cfg.(port := p, useTls := true)
  {
  }

  /** The first `port=` item of an STS value decides, even when its number does not parse. */
  lemma {:induction false} PortItemFirstDecides(items: seq<string>, i: nat, v: string)
    requires i < |items| && Text.Split(items[i], '=') == ["port", v]
    requires forall j :: 0 <= j < i ==> !(|Text.Split(items[j], '=')| == 2 && Text.Split(items[j], '=')[0] == "port")
    ensures PortItem(items) == Text.ToIntOrNull(v)
    decreases i
  {
    if i > 0 {
      PortItemFirstDecides(items[1..], i - 1, v);
    }
  }

  /** An STS value with no `port=` item gives no port, so the session stays as it is. */
  lemma {:induction false} PortItemAbsent(items: seq<string>)
    requires forall j :: 0 <= j < |items| ==> !(|Text.Split(items[j], '=')| == 2 && Text.Split(items[j], '=')[0] == "port")
    ensures PortItem(items).None?
  {
    if items != [] {
      PortItemAbsent(items[1..]);
    }
  }

  // ---------------------------------------------------------------------
  // SASL
  // ---------------------------------------------------------------------

  /** The `AUTHENTICATE` response decodes back to the PLAIN message, whose NUL-separated fields are account, account, password. */
  lemma SaslResponseDecodes(account: string, password: string)
    requires '\0' !in account && '\0' !in password
    ensures var payload := SaslPayload(account, password);
      Encoding.Base64Decode(Encoding.Base64Encode(Encoding.Utf8(payload))) == Some(Encoding.Utf8(payload))
      && Encoding.Utf8Decode(Encoding.Utf8(payload)) == Some(payload)
      && Text.Split(payload, '\0') == [account, account, password]
  {
    var payload := SaslPayload(account, password);
    Encoding.Base64RoundTrip(Encoding.Utf8(payload));
    Encoding.Utf8RoundTrip(payload);
    PayloadFields(account, password);
  }

  lemma PayloadFields(account: string, password: string)
    requires '\0' !in account && '\0' !in password
    ensures Text.Split(SaslPayload(account, password), '\0') == [account, account, password]
  {
    var parts := [account, account, password];
    assert Text.Join(parts, "\0") == SaslPayload(account, password) by {
      assert Text.Join(parts[2..], "\0") == password;
      assert Text.Join(parts[1..], "\0") == account + "\0" + password;
    }
    SplitJoined(parts, '\0');
  }

  /** The prompt `AUTHENTICATE +` as a server sends it: `+` is a middle parameter, not a trailing one. */
  lemma PromptLine()
    ensures IrcParser.ParsedLine("AUTHENTICATE +") ==
      Some(IrcParser.IrcMessage("AUTHENTICATE +", map[], None, "AUTHENTICATE", ["+"], None))
  {
    var l := "AUTHENTICATE +";
    assert l[0..12] == "AUTHENTICATE";
    assert IrcParser.TagSection(l) == Some((map[], 0));
    assert IrcParser.PrefixSection(l, 0) == Some((None, 0));
    IrcParser.AfterPrefixAt(l, map[], None, 0, "AUTHENTICATE", 12);
    assert IrcParser.SkipSpaces(l, 14) == 14;
    assert IrcParser.ParamsFrom(l, 14) == ([], None);
    assert IrcParser.SkipSpaces(l, 13) == 13;
    assert IrcParser.SkipSpaces(l, 12) == 13;
    assert IrcParser.TokenEnd(l, 14) == 14;
    assert IrcParser.TokenEnd(l, 13) == 14;
    assert l[13] == '+' && l[13..14] == "+";
    assert [l[13..14]] + [] == ["+"];
    assert IrcParser.ParamsFrom(l, 12) == (["+"], None);
  }

  /** As written, the client never answers that prompt, so SASL stalls and `CAP END` is never sent. */
  lemma PromptIgnored(s: ClientState, cfg: Config)
    requires s.handshake.saslPending && HasSaslCredentials(cfg)
    ensures var msg := IrcParser.ParsedLine("AUTHENTICATE +").value;
      HandleAuthenticateAsWritten(s, cfg, msg) == s
  {
    PromptLine();
  }

  /** As intended, the prompt is answered with the encoded credentials, whether `+` is trailing or not. */
  lemma PromptAnswered(s: ClientState, cfg: Config, msg: IrcParser.IrcMessage)
    requires s.handshake.saslPending && HasSaslCredentials(cfg)
    requires msg == IrcParser.ParsedLine("AUTHENTICATE +").value || msg.trailing == Some("+")
    ensures HandleAuthenticate(s, cfg, msg) ==
      Send(s, AuthenticateResponse(cfg.saslAccount.value, cfg.saslPassword.value))
  {
    PromptLine();
  }
}
