/**
 * `IrcClient` as an object: the fields it declares (without the socket, its
 * streams and the coroutine handles), updated in place by one method per
 * handler. Every method is proved to move the fields exactly as the
 * matching function of `IrcSession` says, so what `SessionProperties`
 * proves about those functions holds of the object.
 */
module Client {
  import opened Wrappers
  import Text
  import opened IrcModels
  import IrcParser
  import opened ChannelMembers
  import opened IrcSession
  import SessionProperties

  class IrcClient {
    /** `autoJoinChannel`, `namesBuffer`, `usersMap`, `trackedChannel`, `modeToSymbol` and `_users.value`. */
    var roster: Roster
    /** `wantCaps`, `capsAcked`, `negotiatingCaps`, `saslPending` and `_echoEnabled.value`. */
    var handshake: Handshake
    /** `lastConfig`, `userInitiatedDisconnect`, `reconnectJob`, `reconnectAttempts`, `networkAvailable`,
        `nextForcedDelayMs` and `_connected.value`. */
    var link: Link
    /** Everything `sendRaw` has been asked to write, oldest first. */
    var outbox: seq<string>

    /** The fields as one value. */
    function State(): ClientState
      reads this
    {
      ClientState(roster, handshake, link, outbox)
    }

    ghost predicate Valid()
      reads this
    {
      Invariant(State())
    }

    constructor()
      ensures State() == InitialState && Valid()
    {
      roster := Roster(None, [], NoMembers, None, DefaultModeToSymbol, []);
      handshake := Handshake({}, {}, false, false, false);
      link := Link(None, false, None, 0, true, None, false);
      outbox := [];
      InitialInvariant();
    }

    // -------------------------------------------------------------------
    // Sending
    // -------------------------------------------------------------------

    /** Called mid-handler too, so it keeps the invariant rather than requiring it. */
    method SendRaw(raw: string)
      modifies this`outbox
      ensures State() == Send(old(State()), raw)
      ensures Valid() == old(Valid())
    {
      outbox := outbox + [raw];
    }

    method SendMessage(target: string, text: string)
      requires Valid()
      modifies this`outbox
      ensures outbox == old(outbox) + ["PRIVMSG " + target + " :" + text]
      ensures Valid()
    {
      SendRaw("PRIVMSG " + target + " :" + text);
    }

    method Join(channel: string)
      requires Valid()
      modifies this`outbox
      ensures outbox == old(outbox) + ["JOIN " + channel]
      ensures Valid()
    {
      SendRaw("JOIN " + channel);
    }

    method Part(channel: string)
      requires Valid()
      modifies this`outbox
      ensures outbox == old(outbox) + ["PART " + channel]
      ensures Valid()
    {
      SendRaw("PART " + channel);
    }

    method RequestNames(channel: string)
      requires Valid()
      modifies this`outbox
      ensures outbox == old(outbox) + ["NAMES " + channel]
      ensures Valid()
    {
      SendRaw("NAMES " + channel);
    }

    // -------------------------------------------------------------------
    // The channel table
    // -------------------------------------------------------------------

    method PublishUsers()
      modifies this`roster
      ensures roster == old(roster).(users := Published(old(roster).usersMap))
    {
      roster := roster.(users := Published(roster.usersMap));
    }

    method HandleIsupport(msg: IrcParser.IrcMessage)
      modifies this`roster
      ensures roster == old(roster).(modeToSymbol := IsupportMap(old(roster).modeToSymbol, IsupportWords(msg)))
    {
      var tokens := IsupportWords(msg);
      var i := 0;
      while i < |tokens|
        invariant i <= |tokens|
        invariant roster == old(roster).(modeToSymbol := roster.modeToSymbol)
        invariant IsupportMap(roster.modeToSymbol, tokens[i..]) == IsupportMap(old(roster).modeToSymbol, tokens)
      {
        ghost var before := roster.modeToSymbol;
        InstallPrefix(tokens[i]);
        IsupportStep(before, tokens[i..]);
        assert tokens[i..][1..] == tokens[i + 1..];
        i := i + 1;
      }
    }

    /** The body of `handleIsupport`'s loop for one token. */
    method InstallPrefix(tok: string)
      modifies this`roster
      ensures roster == old(roster).(modeToSymbol := match PrefixMap(tok) case Some(mm) => mm case None => old(roster).modeToSymbol)
    {
      if Text.StartsWith(tok, "PREFIX=") || Text.StartsWith(tok, "PREFIX") {
        PrefixStartsWith(tok);
        var spec := PrefixSpec(tok);
        var modes := PrefixModes(spec);
        var symbols := PrefixSymbols(spec);
        if modes != [] && symbols != [] && |modes| == |symbols| {
          roster := roster.(modeToSymbol := map[]);
          for j := 0 to |modes|
            invariant roster == old(roster).(modeToSymbol := ZipModes(modes[..j], symbols[..j]))
          {
            assert modes[..j + 1][..j] == modes[..j] && symbols[..j + 1][..j] == symbols[..j];
            roster := roster.(modeToSymbol := roster.modeToSymbol[modes[j] := symbols[j]]);
          }
          assert modes[..|modes|] == modes && symbols[..|symbols|] == symbols;
        }
      }
    }

    method ApplyUserModeChange(nick: string, mode: char, adding: bool)
      modifies this`roster
      ensures roster == old(roster).(usersMap := ApplyModeChange(old(roster).usersMap, old(roster).modeToSymbol, nick, mode, adding))
    {
      var symbol := SymbolFor(roster.modeToSymbol, mode);
      if adding {
        if symbol.Some? {
          var current := Get(roster.usersMap, nick);
          if current.None? || ModeRank(symbol) > ModeRank(current) {
            roster := roster.(usersMap := Put(roster.usersMap, nick, symbol));
          }
        } else {
          roster := roster.(usersMap := PutIfAbsent(roster.usersMap, nick, None));
        }
      } else {
        var current := Get(roster.usersMap, nick);
        if current.Some? && symbol.Some? && current == symbol {
          roster := roster.(usersMap := Put(roster.usersMap, nick, None));
        }
      }
    }

    method HandleMode(msg: IrcParser.IrcMessage)
      modifies this`roster
      ensures State() == IrcSession.HandleMode(old(State()), msg)
    {
      if |msg.params| == 0 {
        return;
      }
      var target := msg.params[0];
      var ourChan := roster.trackedChannel;
      if ourChan.None? || !Text.EqualsIgnoreCase(target, ourChan.value) {
        return;
      }
      if |msg.params| < 2 {
        return;
      }
      var modes := msg.params[1];
      var adding := true;
      var argIndex: nat := 2;
      var i := 0;
      while i < |modes|
        invariant i <= |modes|
        invariant roster == old(roster).(usersMap := roster.usersMap)
        invariant ModeLetters(roster.usersMap, roster.modeToSymbol, msg.params, modes[i..], adding, argIndex)
                  == ModeLetters(old(roster).usersMap, roster.modeToSymbol, msg.params, modes, true, 2)
      {
        var ch := modes[i];
        assert modes[i..][1..] == modes[i + 1..];
        if ch == '+' {
          adding := true;
        } else if ch == '-' {
          adding := false;
        } else if ch in roster.modeToSymbol {
          // a status mode without its nick argument is skipped
          if argIndex < |msg.params| {
            var nick := msg.params[argIndex];
            argIndex := argIndex + 1;
            ApplyUserModeChange(nick, ch, adding);
          }
        }
        i := i + 1;
      }
      PublishUsers();
    }

    method HandleNick(msg: IrcParser.IrcMessage)
      modifies this`roster
      ensures State() == Apply(old(State()), NickChange(old(roster).usersMap, msg))
    {
      var oldNick := IrcParser.NickFromPrefix(msg.prefix);
      if oldNick.None? {
        return;
      }
      var newNick := if msg.trailing.Some? then msg.trailing else GetOrNull(msg.params, 0);
      if newNick.None? {
        return;
      }
      if oldNick.value in roster.usersMap.modes {
        var sym := roster.usersMap.modes[oldNick.value];
        roster := roster.(usersMap := Remove(roster.usersMap, oldNick.value));
        roster := roster.(usersMap := Put(roster.usersMap, newNick.value, sym));
        PublishUsers();
      }
    }

    /** `handleKick`, republishing whenever the victim was in the table. */
    method HandleKick(msg: IrcParser.IrcMessage)
      modifies this`roster
      ensures State() == Apply(old(State()), KickChangeFixed(old(roster).usersMap, old(roster).trackedChannel, msg))
    {
      if |msg.params| < 2 {
        return;
      }
      var chan := msg.params[0];
      var victim := msg.params[1];
      var ourChan := roster.trackedChannel;
      if ourChan.Some? && Text.EqualsIgnoreCase(chan, ourChan.value) {
        var present := victim in roster.usersMap.modes;
        roster := roster.(usersMap := Remove(roster.usersMap, victim));
        if present {
          PublishUsers();
        }
      }
    }

    /** The 353 check: each word of the names list becomes a buffered entry. */
    method CollectNames(l: string)
      modifies this`roster
      ensures roster == IrcSession.CollectNames(old(roster), l)
    {
      if !Text.Contains(l, " 353 ") {
        return;
      }
      // the words after " :", trimmed, split on single spaces; none when the list is empty
      BufferWords(NamesWords(l));
    }

    /** The `forEach` over the words of a 353 line. */
    method BufferWords(words: seq<string>)
      modifies this`roster
      ensures roster == old(roster).(namesBuffer := old(roster).namesBuffer + NamesOf(words))
    {
      for i := 0 to |words|
        invariant roster == old(roster).(namesBuffer := old(roster).namesBuffer + NamesOf(words[..i]))
      {
        BufferName(words[i]);
        BufferedSnoc(old(roster).namesBuffer, words, i);
      }
      assert words[..|words|] == words;
    }

    /** One word of a 353 line: a non-blank nick, with its privilege symbol split off, joins the buffer. */
    method BufferName(n: string)
      modifies this`roster
      ensures roster == old(roster).(namesBuffer := old(roster).namesBuffer + (match NamesEntry(n) case Some(u) => [u] case None => []))
    {
      if !Text.IsBlank(n) {
        var t := Text.Trim(n);
        Text.TrimEmptyIffBlank(n);
        var mode := if t[0] in PrivilegeSymbols then Some(t[0]) else None;
        var nick := if mode.Some? then t[1..] else t;
        if !Text.IsBlank(nick) {
          roster := roster.(namesBuffer := roster.namesBuffer + [ChannelUser(nick, mode)]);
        }
      }
    }

    /** The 366 check: the table is rebuilt from the buffer, published, and the buffer emptied. */
    method EndOfNames(l: string)
      modifies this`roster
      ensures roster == IrcSession.EndOfNames(old(roster), l)
    {
      if !Text.Contains(l, " 366 ") {
        return;
      }
      roster := roster.(usersMap := NoMembers);
      var buffer := roster.namesBuffer;
      for i := 0 to |buffer|
        invariant roster == old(roster).(usersMap := roster.usersMap)
        invariant Collapse(roster.usersMap, buffer[i..]) == Collapse(NoMembers, buffer)
      {
        var cu := buffer[i];
        assert buffer[i..][1..] == buffer[i + 1..];
        var existing := Get(roster.usersMap, cu.nick);
        if existing.None? || ModeRank(cu.mode) > ModeRank(existing) {
          roster := roster.(usersMap := Put(roster.usersMap, cu.nick, cu.mode));
        }
      }
      PublishUsers();
      roster := roster.(namesBuffer := []);
    }

    /** The " JOIN " check. */
    method TrackJoin(l: string)
      modifies this`roster
      ensures roster == ApplyTo(old(roster), JoinChange(old(roster).usersMap, l))
    {
      if Text.Contains(l, " JOIN ") {
        var nick := LineNick(l);
        if nick.Some? {
          roster := roster.(usersMap := PutIfAbsent(roster.usersMap, nick.value, None));
          PublishUsers();
        }
      }
    }

    /** The " PART " / " QUIT " check. */
    method TrackPart(l: string)
      modifies this`roster
      ensures roster == ApplyTo(old(roster), PartChange(old(roster).usersMap, l))
    {
      if Text.Contains(l, " PART ") || Text.Contains(l, " QUIT ") {
        var nick := LineNick(l);
        if nick.Some? {
          roster := roster.(usersMap := Remove(roster.usersMap, nick.value));
          PublishUsers();
        }
      }
    }

    /** The auto-join check after " 001 " or " 376 ". */
    method AutoJoin(l: string)
      modifies this`roster, this`outbox
      ensures State() == IrcSession.AutoJoin(old(State()), l)
    {
      if (Text.Contains(l, " 001 ") || Text.Contains(l, " 376 ")) && roster.autoJoinChannel.Some? {
        var ch := roster.autoJoinChannel.value;
        roster := roster.(autoJoinChannel := None);
        SendRaw("JOIN " + ch);
        roster := roster.(trackedChannel := Some(ch));
        SendRaw("NAMES " + ch);
      }
    }

    /** The textual checks that follow the structured block, in source order. */
    method TrackLine(l: string)
      modifies this`roster, this`outbox
      ensures State() == Tracking(old(State()), l)
    {
      CollectNames(l);
      EndOfNames(l);
      TrackJoin(l);
      TrackPart(l);
      AutoJoin(l);
    }

    // -------------------------------------------------------------------
    // CAP and SASL
    // -------------------------------------------------------------------

    method EndCapIfReady()
      modifies this`handshake, this`outbox
      ensures State() == IrcSession.EndCapIfReady(old(State()))
    {
      if !handshake.negotiatingCaps {
        return;
      }
      if handshake.saslPending {
        return;
      }
      handshake := handshake.(negotiatingCaps := false);
      SendRaw("CAP END");
    }

    /** `parseStsPort`. */
    static method ParseStsPort(stsToken: string) returns (port: Option<int>)
      ensures port == StsPort(stsToken)
    {
      var params := Text.SubstringAfter(stsToken, "sts=", stsToken);
      var items := Text.Split(params, ',');
      var i := 0;
      while i < |items|
        invariant i <= |items|
        invariant PortItem(items[i..]) == StsPort(stsToken)
      {
        var kv := Text.Split(items[i], '=');
        if |kv| == 2 && kv[0] == "port" {
          return Text.ToIntOrNull(kv[1]);
        }
        assert items[i..][1..] == items[i + 1..];
        i := i + 1;
      }
      return None;
    }

    /** The `CAP REQ` list of `CAP LS` / `CAP NEW`: the wanted offers, then those already acknowledged dropped. */
    static method CapRequest(offered: set<string>, config: Config, acked: set<string>) returns (toReq: seq<string>)
      ensures toReq == Requested(offered, config, acked)
    {
      // `req.filter { it !in acked }`, applied to each candidate as it is listed
      toReq := [];
      if "echo-message" in offered && "echo-message" !in acked {
        toReq := toReq + ["echo-message"];
      }
      if "server-time" in offered && "server-time" !in acked {
        toReq := toReq + ["server-time"];
      }
      if HasSaslCredentials(config) && "sasl" in offered && "sasl" !in acked {
        toReq := toReq + ["sasl"];
      }
    }

    /** `CAP LS` and `CAP NEW`; `closes` when the socket is closed for an STS upgrade. */
    method CapOffer(msg: IrcParser.IrcMessage, config: Config) returns (closes: bool)
      modifies this`link, this`handshake, this`outbox
      ensures var st := IrcSession.CapOffer(old(State()), config, msg); State() == st.state && closes == st.closes
    {
      var capList := TrailingWords(msg);
      if capList == [] {
        return false;
      }
      var stsToken := FirstSts(capList);
      if stsToken.Some? && !config.useTls {
        var port := ParseStsPort(stsToken.value);
        if port.Some? && 1 <= port.value <= 65535 {
          link := link.(lastConfig := Some(config.(port := port.value, useTls := true)));
          return true;
        }
      }
      var toReq := CapRequest(Offered(capList), config, handshake.capsAcked);
      if toReq != [] {
        handshake := handshake.(wantCaps := handshake.wantCaps + (set c | c in toReq));
        SendRaw("CAP REQ :" + Text.Join(toReq, " "));
      } else {
        EndCapIfReady();
      }
      return false;
    }

    /** `CAP ACK`. */
    method CapAck(msg: IrcParser.IrcMessage, config: Config)
      modifies this`handshake, this`outbox
      ensures State() == IrcSession.CapAck(old(State()), config, msg)
    {
      var acked := TrailingWords(msg);
      handshake := handshake.(capsAcked := handshake.capsAcked + (set c | c in acked));
      if AnyIgnoreCase(acked, "echo-message") {
        handshake := handshake.(echoEnabled := true);
      }
      AckReply(acked, config);
    }

    /** The end of `CAP ACK`: start SASL PLAIN when it was acknowledged and both credentials are set, else end negotiation. */
    method AckReply(acked: seq<string>, config: Config)
      modifies this`handshake, this`outbox
      ensures State() == IrcSession.AckReply(old(State()), config, acked)
    {
      if AnyIgnoreCase(acked, "sasl") && HasSaslCredentials(config) {
        handshake := handshake.(saslPending := true);
        SendRaw("AUTHENTICATE PLAIN");
      } else {
        EndCapIfReady();
      }
    }

    method HandleCap(msg: IrcParser.IrcMessage, config: Config) returns (closes: bool)
      modifies this`link, this`handshake, this`outbox
      ensures var st := IrcSession.HandleCap(old(State()), config, msg); State() == st.state && closes == st.closes
    {
      closes := false;
      if |msg.params| < 2 {
        return;
      }
      match CapSubOf(Text.Upper(msg.params[1]))
      case OfferSub =>
        closes := CapOffer(msg, config);
      case AckSub =>
        CapAck(msg, config);
      case NakSub =>
        EndCapIfReady();
      case OtherSub =>
    }

    /** `handleAuthenticate`, answering the prompt whether `+` is trailing or the first middle param. */
    method HandleAuthenticate(msg: IrcParser.IrcMessage, config: Config)
      modifies this`outbox
      ensures State() == IrcSession.HandleAuthenticate(old(State()), config, msg)
    {
      var arg := if msg.trailing.Some? then msg.trailing else GetOrNull(msg.params, 0);
      if arg == Some("+") && handshake.saslPending && HasSaslCredentials(config) {
        var authzid := config.saslAccount.value;
        var pass := config.saslPassword.value;
        SendRaw(AuthenticateResponse(authzid, pass));
      }
    }

    // -------------------------------------------------------------------
    // The read loop
    // -------------------------------------------------------------------

    /** The branches of the `when` block that write to the socket. */
    method Negotiate(msg: IrcParser.IrcMessage, config: Config, cmd: Command) returns (closes: bool)
      modifies this`link, this`handshake, this`outbox
      ensures var st := Negotiation(old(State()), config, msg, cmd); State() == st.state && closes == st.closes
    {
      closes := false;
      match cmd
      case PingCommand =>
        SendRaw("PONG " + PingToken(msg));
      case CapCommand =>
        closes := HandleCap(msg, config);
      case AuthenticateCommand =>
        HandleAuthenticate(msg, config);
      case SaslResultCommand =>
        handshake := handshake.(saslPending := false);
        EndCapIfReady();
      case _ =>
    }

    /** The other branches of the `when` block. */
    method ApplyRosterCommand(msg: IrcParser.IrcMessage, cmd: Command)
      modifies this`roster, this`link
      ensures State() == RosterCommand(old(State()), msg, cmd)
    {
      match cmd
      case WelcomeCommand =>
        link := link.(connected := true);
      case IsupportCommand =>
        HandleIsupport(msg);
      case ModeCommand =>
        HandleMode(msg);
      case NickCommand =>
        HandleNick(msg);
      case KickCommand =>
        HandleKick(msg);
      case _ =>
    }

    /** The `when (msg.command.uppercase())` block. */
    method HandleStructured(msg: IrcParser.IrcMessage, config: Config) returns (closes: bool)
      modifies this`roster, this`handshake, this`link, this`outbox
      ensures var st := Structured(old(State()), config, msg); State() == st.state && closes == st.closes
    {
      var cmd := CommandOf(Text.Upper(msg.command));
      if cmd.Negotiates() {
        closes := Negotiate(msg, config, cmd);
      } else {
        ApplyRosterCommand(msg, cmd);
        closes := false;
      }
    }

    /** One pass of the read loop's body; `closes` when the loop ends after this line. */
    method HandleLine(l: string, config: Config) returns (closes: bool)
      requires Valid()
      modifies this`roster, this`handshake, this`link, this`outbox
      ensures var st := LineStep(old(State()), config, l); State() == st.state && closes == st.closes
      ensures Valid()
    {
      ghost var s0 := State();
      if RateLimited(l) {
        link := link.(nextForcedDelayMs := Some(CooldownMs));
        closes := true;
      } else {
        var parsed := IrcParser.Parse(l);
        closes := false;
        if parsed.Some? {
          closes := HandleStructured(parsed.value, config);
        }
        TrackLine(l);
      }
      SessionProperties.LineStepKeepsInvariant(s0, config, l);
    }

    /** The read loop over the lines the server sends, until one of them ends it. */
    method ReadLoop(lines: seq<string>, config: Config)
      requires Valid()
      modifies this`roster, this`handshake, this`link, this`outbox
      ensures State() == Run(old(State()), config, lines)
      ensures Valid()
    {
      var i := 0;
      while i < |lines|
        invariant i <= |lines|
        invariant Valid()
        invariant Run(State(), config, lines[i..]) == Run(old(State()), config, lines)
      {
        assert lines[i..][1..] == lines[i + 1..];
        var closes := HandleLine(lines[i], config);
        if closes {
          return;
        }
        i := i + 1;
      }
    }

    // -------------------------------------------------------------------
    // Connection and reconnect bookkeeping
    // -------------------------------------------------------------------

    /** The guards and resets of `connect`. */
    method Connect(config: Config)
      requires Valid()
      modifies this`link
      ensures State() == IrcSession.Connect(old(State()), config)
      ensures Valid()
    {
      if !link.connected {
        link := link.(userInitiatedDisconnect := false, reconnectJob := None, reconnectAttempts := 0, lastConfig := Some(config));
      }
    }

    /** Registration once the socket is open: fresh CAP state, `CAP LS 302`, `NICK`, `USER`, the auto-join channel. */
    method StartSession(config: Config)
      modifies this`roster, this`handshake, this`outbox
      ensures State() == SessionStart(old(State()), config)
    {
      ResetCaps(config);
      Register(config);
    }

    /** The CAP state is cleared, and `CAP LS 302` sent when capabilities are requested. */
    method ResetCaps(config: Config)
      modifies this`handshake, this`outbox
      ensures State() == CapReset(old(State()), config)
    {
      handshake := handshake.(negotiatingCaps := false, capsAcked := {}, wantCaps := {}, echoEnabled := false, saslPending := false);
      if config.requestCaps {
        SendRaw("CAP LS 302");
        handshake := handshake.(negotiatingCaps := true);
      }
    }

    /** `NICK` and `USER`, then the channel to join and track. */
    method Register(config: Config)
      modifies this`roster, this`outbox
      ensures State() == IrcSession.Register(old(State()), config)
    {
      SendRaw("NICK " + config.nick);
      SendRaw("USER " + config.user + " 0 * :" + config.realName);
      roster := roster.(autoJoinChannel := if config.channel.Some? && !Text.IsBlank(config.channel.value) then config.channel else None);
      roster := roster.(trackedChannel := roster.autoJoinChannel);
    }

    /** The read coroutine once the socket is open: registration, the read loop, then the `finally` block. */
    method RunSession(config: Config, lines: seq<string>, jitter: int)
      requires Valid() && 0 <= jitter <= 500
      modifies this`roster, this`handshake, this`link, this`outbox
      ensures State() == IrcSession.ConnectionClosed(Run(SessionStart(old(State()), config), config, lines), jitter)
      ensures Valid()
    {
      StartSession(config);
      SessionProperties.ConnectKeepsInvariant(old(State()), config);
      ReadLoop(lines, config);
      ConnectionClosed(jitter);
    }

    /** The `finally` block of the read coroutine. */
    method ConnectionClosed(jitter: int)
      requires Valid() && 0 <= jitter <= 500
      modifies this`link
      ensures State() == IrcSession.ConnectionClosed(old(State()), jitter)
      ensures Valid()
    {
      link := link.(connected := false);
      if !link.userInitiatedDisconnect {
        var forced := link.nextForcedDelayMs;
        link := link.(nextForcedDelayMs := None);
        ScheduleReconnect(false, forced, jitter);
      }
      SessionProperties.ClosingKeepsInvariant(old(State()), jitter, "", true);
    }

    /** `scheduleReconnect`; the job it launches is recorded in `reconnectJob` with the delay it will wait. */
    method ScheduleReconnect(immediate: bool, forcedDelayMs: Option<int>, jitter: int)
      requires 0 <= jitter <= 500
      modifies this`link
      ensures State() == IrcSession.ScheduleReconnect(old(State()), immediate, forcedDelayMs, jitter)
    {
      if link.lastConfig.None? {
        return;
      }
      var cfg := link.lastConfig.value;
      if link.userInitiatedDisconnect {
        return;
      }
      if link.connected {
        return;
      }
      var attempt := link.reconnectAttempts;
      var baseDelay := BaseDelay(attempt);
      var computed := if immediate then 0 else baseDelay + jitter;
      var delayMs := if forcedDelayMs.Some? then forcedDelayMs.value else computed;
      link := link.(reconnectJob := Some(Reconnect(cfg, delayMs, attempt)));
    }

    /** The reconnect job once its delay is over, keeping the bumped attempt counter across the `connect` it makes. */
    method ReconnectJobFires()
      requires Valid()
      modifies this`link
      ensures State() == ReconnectFires(old(State()))
      ensures Valid()
    {
      if link.reconnectJob.None? {
        return;
      }
      var job := link.reconnectJob.value;
      if link.userInitiatedDisconnect {
        link := link.(reconnectJob := None);
        return;
      }
      if !link.networkAvailable {
        return;
      }
      var attempts := if link.reconnectAttempts + 1 < 10 then link.reconnectAttempts + 1 else 10;
      link := link.(reconnectJob := None);
      Connect(job.config);
      link := link.(reconnectAttempts := attempts);
    }

    method Disconnect()
      requires Valid()
      modifies this`link
      ensures State() == IrcSession.Disconnect(old(State()))
      ensures Valid()
    {
      link := link.(userInitiatedDisconnect := true, reconnectJob := None, connected := false);
    }

    method Quit(message: string)
      requires Valid()
      modifies this`outbox, this`link
      ensures State() == IrcSession.Quit(old(State()), message)
      ensures Valid()
    {
      SendRaw("QUIT :" + message);
      Disconnect();
    }

    method ReconnectNow()
      requires Valid()
      modifies this`link
      ensures State() == IrcSession.ReconnectNow(old(State()))
      ensures Valid()
    {
      link := link.(userInitiatedDisconnect := false, reconnectAttempts := 0);
      ScheduleReconnect(true, None, 0);
      SessionProperties.ClosingKeepsInvariant(old(State()), 0, "", true);
    }

    method OnNetworkAvailable(available: bool)
      requires Valid()
      modifies this`link
      ensures State() == IrcSession.OnNetworkAvailable(old(State()), available)
      ensures Valid()
    {
      link := link.(networkAvailable := available);
      if available && !link.connected {
        link := link.(reconnectAttempts := 0);
        ScheduleReconnect(true, None, 0);
      }
      SessionProperties.ClosingKeepsInvariant(old(State()), 0, "", available);
    }
  }

  lemma PrefixStartsWith(tok: string)
    ensures Text.StartsWith(tok, "PREFIX=") ==> Text.StartsWith(tok, "PREFIX")
  {
    if Text.StartsWith(tok, "PREFIX=") {
      assert tok[..6] == tok[..7][..6];
    }
  }

  lemma IsupportStep(current: map<char, char>, toks: seq<string>)
    requires toks != []
    ensures IsupportMap(current, toks)
            == IsupportMap(match PrefixMap(toks[0]) case Some(mm) => mm case None => current, toks[1..])
  {
  }

  /** Buffering word `i` after the words before it, starting from `base`. */
  lemma BufferedSnoc(base: seq<ChannelUser>, words: seq<string>, i: nat)
    requires i < |words|
    ensures base + NamesOf(words[..i + 1])
            == base + NamesOf(words[..i]) + (match NamesEntry(words[i]) case Some(u) => [u] case None => [])
  {
    assert words[..i + 1] == words[..i] + [words[i]];
    NamesOfSnoc(words[..i], words[i]);
  }

  /** One more word appends its NAMES entry, if it has one. */
  lemma {:induction false} NamesOfSnoc(parts: seq<string>, p: string)
    ensures NamesOf(parts + [p]) == NamesOf(parts) + (match NamesEntry(p) case Some(u) => [u] case None => [])
    decreases |parts|
  {
    if parts != [] {
      assert (parts + [p])[1..] == parts[1..] + [p];
      NamesOfSnoc(parts[1..], p);
    } else {
      assert parts + [p] == [p];
    }
  }
}
