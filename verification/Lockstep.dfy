/** Client and server on one control connection, command by command, through the bytes
    on the wire: after every complete exchange the cipher streams, the Server-Start
    flags and the two lists of sessions agree (client/client.go, server/server.go;
    sections 3.5 to 3.8 of RFC 5357, section 3 of RFC 5938). */
module Lockstep {
  import opened Bytes
  import opened CbcStream
  import opened Timestamps
  import opened TestPackets
  import opened ControlMessages
  import opened ControlChannel
  import opened PortPool
  import opened SessionMachine
  import opened ConnectionView
  import opened SidOrder
  import opened Server

  // ---- The client's calls ----

  /** TestSessionConfig, its address resolved and its timeout converted. */
  datatype SessionConfig = SessionConfig(
    senderPort: uint16, receiverPort: uint16, ipv6: bool, address: Block,
    paddingLength: uint32, dscp: uint8, timeout: Timestamp)

  datatype Call =
    | RequestSession(config: SessionConfig)
    | RequestSessionIndividual(config: SessionConfig, sid: SID)
    | StartSessions
    | StopAllSessions
    | StopNSessions(n: uint32, selected: seq<SID>)

  /** What does not change on a connection once it is set up. */
  datatype Link = Link(x: Protection, mode: TestMode, c: ConnId)

  /** calculateMinPadding. */
  function MinPadding(mode: TestMode): uint32 {
    if mode.security == Unauthenticated then 27 else 56
  }

  function PaddingSent(mode: TestMode, config: SessionConfig): uint32 {
    if config.paddingLength < MinPadding(mode) then MinPadding(mode) else config.paddingLength
  }

  function BuildRequest(mode: TestMode, config: SessionConfig, command: uint8, sid: SID): Request {
    Request(command, if config.ipv6 then 6 else 4, 0, 0, 0, 0, config.senderPort, config.receiverPort,
            Zeros(16), config.address, sid, PaddingSent(mode, config),
            Timestamp(0, 0), config.timeout, config.dscp as int * 0x4_0000, Zeros(16))
  }

  /** A request no server can parse: too much padding, or a DSCP of more than six bits. */
  predicate Malformed(mode: TestMode, call: Call) {
    match call
    case RequestSession(config) => PaddingSent(mode, config) > MAX_PACKET_SIZE || config.dscp >= 64
    case RequestSessionIndividual(config, _) => PaddingSent(mode, config) > MAX_PACKET_SIZE || config.dscp >= 64
    case _ => false
  }

  predicate Permitted(ports: map<SID, uint16>, call: Call) {
    call.StopNSessions? ==> Selects(ports.Keys, call.n, call.selected)
  }

  function StopAll(ports: map<SID, uint16>): StopSessions {
    StopSessions(CMD_STOP_SESSIONS, ACCEPT_OK, |ports| % TWO32, Zeros(16))
  }

  function StopSelected(selected: seq<SID>): StopN
    requires |selected| < TWO32
  {
    StopN(CMD_STOP_N_SESSIONS, 0, |selected|, selected, Zeros(16))
  }

  /** The command a call sends; some calls end before they send anything. */
  function Command(mode: TestMode, ports: map<SID, uint16>, call: Call): (m: Option<bytes>)
    requires Permitted(ports, call)
    ensures m.Some? ==> IsFrame(m.value)
  {
    var none := SessionConfig(0, 0, false, Zeros(16), 0, 0, Timestamp(0, 0));
    CommandsAreFrames(BuildRequest(mode, none, CMD_REQUEST_TW_SESSION, ZERO_SID),
                      Short(CMD_START_SESSIONS, Zeros(16)), StopAll(ports),
                      StopSelected(if call.StopNSessions? then call.selected else []), false);
    match call
    case RequestSession(config) =>
      var r := BuildRequest(mode, config, CMD_REQUEST_TW_SESSION, ZERO_SID);
      Some(EncodeRequest(r, false))
    case RequestSessionIndividual(config, sid) =>
      if sid in ports then None else
        Some(EncodeIndividual(BuildRequest(mode, config, CMD_REQUEST_TW_SESSION_INDIVIDUAL, sid), false))
    case StartSessions =>
      if ports == map[] then None else Some(EncodeShort(Short(CMD_START_SESSIONS, Zeros(16)), false))
    case StopAllSessions => if ports == map[] then None else Some(EncodeStop(StopAll(ports), false))
    case StopNSessions(_, selected) => Some(EncodeStopN(StopSelected(selected), false))
  }

  /** The numbers of the commands, in their first byte. */
  lemma CommandNumbers(mode: TestMode, ports: map<SID, uint16>, call: Call)
    requires Permitted(ports, call)
    ensures var m := Command(mode, ports, call);
            m.Some? ==>
              m.value[0] == match call
                            case RequestSession(_) => 5
                            case RequestSessionIndividual(_, _) => 6
                            case StartSessions => 2
                            case StopAllSessions => 3
                            case StopNSessions(_, _) => 4
  {
    hide PutUint32, Zeros, Tail, Join;
  }

  function ReplyLength(call: Call): nat {
    match call
    case RequestSession(_) => 48
    case RequestSessionIndividual(_, _) => 48
    case _ => 32
  }

  /** The port test packets will go to: the server's, unless it named none. */
  function ChosenPort(config: SessionConfig, port: uint16): uint16 {
    if port != 0 && port != config.receiverPort then port else config.receiverPort
  }

  /** The client's sessions, and the ports it will send to, once the reply is in. */
  function Conclude(x: Protection, ports: map<SID, uint16>, call: Call, reply: bytes): Result<map<SID, uint16>> {
    match call
    case RequestSession(config) =>
      var a :- DecodeAccept(reply, x.secured);
      if a.accept != ACCEPT_OK then Ok(ports) else Ok(ports[a.sid := ChosenPort(config, a.port)])
    case RequestSessionIndividual(config, sid) =>
      var a :- DecodeAccept(reply, x.secured);
      if a.accept != ACCEPT_OK || a.sid != sid then Ok(ports) else Ok(ports[sid := ChosenPort(config, a.port)])
    case StartSessions =>
      var a :- DecodeShort(reply, x.secured);
      Ok(ports)
    case StopAllSessions => Ok(map[])
    case StopNSessions(_, selected) => Ok(ports - SidSet(selected))
  }

  // ---- The server's handling ----

  /** What the server's surroundings decide about one command: the state at the moment
      of the duplicate check, the sessions that could be bound, the order of a map. */
  datatype Env = Env(receiverAllowed: bool, randomSid: SID, a: Allocation, checked: State,
                     started: seq<SID>, allBound: bool, order: seq<SID>)

  datatype Served =
    | Answers(own: seq<Event>, reply: bytes)
    | Closes(error: Error)
    | Stuck

  predicate Sendable(reply: bytes) {
    |reply| in {0, 32, 48}
  }

  function HandleRequest(l: Link, m: Request, individual: bool, env: Env): Served {
    var w := Surroundings(l.x.secured, env.receiverAllowed, l.mode, env.randomSid);
    if !Refused(m, individual, w) && env.a.NeverReturns? then Stuck else
      Answers(RequestEvents(env.checked, l.c, m, individual, w, env.a),
              EncodeAccept(RequestReply(env.checked, m, individual, w, env.a), false))
  }

  /** The handler for a command, by its first byte: the events it performs on the
      session machine and its reply. */
  function Handle(l: Link, mine: map<SID, uint16>, cmd: bytes, env: Env): (r: Served)
    requires |cmd| >= 1
    ensures r.Answers? ==> Sendable(r.reply)
  {
    var inc := l.x.secured;
    if cmd[0] == CMD_REQUEST_TW_SESSION then
      match DecodeRequest(cmd, inc)
      case Err(e) => Closes(e)
      case Ok(m) => HandleRequest(l, m, false, env)
    else if cmd[0] == CMD_REQUEST_TW_SESSION_INDIVIDUAL then
      match DecodeIndividual(cmd, inc)
      case Err(e) => Closes(e)
      case Ok(m) => HandleRequest(l, m, true, env)
    else if cmd[0] == CMD_START_SESSIONS then
      match DecodeShort(cmd, inc)
      case Err(e) => Closes(e)
      case Ok(m) => Answers(StartEvents(l.c, env.started),
                            EncodeShort(Short(if env.allBound then ACCEPT_OK else ACCEPT_FAILURE, Zeros(16)), false))
    else if cmd[0] == CMD_STOP_SESSIONS then
      match DecodeStop(cmd, inc)
      case Err(e) => Closes(e)
      case Ok(m) =>
        if m.numSessions != |mine| % TWO32 then Closes(SessionCountMismatch)
        else Answers(ForgetEvents(l.c, env.order), [])
    else if cmd[0] == CMD_STOP_N_SESSIONS then
      match DecodeStopN(cmd, inc)
      case Err(e) => Closes(e)
      case Ok(m) => Answers(ForgetEvents(l.c, FirstOf(mine.Keys, m.sids)), [])
    else
      Closes(UnknownCommand)
  }

  /** What each command but the requests comes to: Start-Ack says whether every session
      could be bound; Stop-Sessions with a wrong count closes the connection; the stop
      commands are not replied to; anything else is unknown. */
  lemma CommandsHandled(l: Link, mine: map<SID, uint16>, cmd: bytes, env: Env)
    requires |cmd| >= 1
    ensures var r := Handle(l, mine, cmd, env);
            && (!(2 <= cmd[0] <= 6) ==> r == Closes(UnknownCommand))
            && (cmd[0] == 2 && DecodeShort(cmd, l.x.secured).Ok? ==>
                  && r.Answers? && r.own == StartEvents(l.c, env.started)
                  && |r.reply| == 32 && r.reply[0] == if env.allBound then 0 else 1)
            && (cmd[0] == 3 && DecodeStop(cmd, l.x.secured).Ok? ==>
                  if DecodeStop(cmd, l.x.secured).value.numSessions == |mine| % 0x1_0000_0000 then
                    r == Answers(ForgetEvents(l.c, env.order), [])
                  else
                    r == Closes(SessionCountMismatch))
            && (cmd[0] == 4 && DecodeStopN(cmd, l.x.secured).Ok? ==>
                  r == Answers(ForgetEvents(l.c, FirstOf(mine.Keys, DecodeStopN(cmd, l.x.secured).value.sids)), []))
  {
    hide DecodeShort, DecodeStop, DecodeStopN, DecodeRequest, DecodeIndividual, StartEvents, ForgetEvents, FirstOf;
  }

  // ---- One exchange ----

  datatype Joint = Joint(client: Endpoint, server: Endpoint, ports: map<SID, uint16>, s: State)

  /** A call, the server's surroundings meanwhile, and everything that happens on the
      session machine until the call returns, other goroutines' events included. */
  datatype Step = Step(call: Call, env: Env, events: seq<Event>)

  datatype Ended =
    | Continues(j: Joint)
    | Closed(error: Error)     // the server closes the connection
    | Unanswered               // the port search never returns
    | Refuses(error: Error)    // the client turns the reply down

  /** The same sessions on both sides, and the same port for each unless the server's
      is 0: the client takes 0 for "no port named" and keeps its own. */
  predicate SameSessions(mine: map<SID, uint16>, theirs: map<SID, uint16>) {
    mine.Keys == theirs.Keys && forall sid :: sid in mine && theirs[sid] != 0 ==> mine[sid] == theirs[sid]
  }

  ghost predicate InSync(l: Link, j: Joint) {
    && Agree(j.client, j.server)
    && j.s.WellFormed() && l.c in j.s.conns
    && ViewOf(j.s, l.c).held == None && SameSessions(j.ports, Theirs(l, j))
  }

  /** The server's sessions on this connection, with their ports. */
  function Theirs(l: Link, j: Joint): map<SID, uint16>
    requires j.s.WellFormed() && l.c in j.s.conns
  {
    ViewOf(j.s, l.c).ports
  }

  /** The client sends each session's packets to the port the server listens on. */
  predicate PortsAgree(l: Link, j: Joint)
    requires j.s.WellFormed() && l.c in j.s.conns
  {
    j.ports == Theirs(l, j)
  }

  /** In step the ports agree exactly when no session with port 0 was booked otherwise. */
  lemma PortsAgreeExactly(l: Link, j: Joint)
    requires InSync(l, j)
    ensures PortsAgree(l, j) <==> forall sid :: sid in j.ports && Theirs(l, j)[sid] == 0 ==> j.ports[sid] == 0
  {
    assert PortsAgree(l, j) <==> forall sid :: sid in j.ports ==> j.ports[sid] == Theirs(l, j)[sid];
  }

  /** The command as it reaches the server. */
  function Arrival(l: Link, j: Joint, m: bytes): Result<Received>
    requires IsFrame(m)
  {
    ServerReceive(l.x, j.server, ClientSend(l.x, j.client, m).0)
  }

  /** What the server does about it. */
  function Reaction(l: Link, j: Joint, m: bytes, env: Env): (r: Served)
    requires j.s.WellFormed() && l.c in j.s.conns && IsFrame(m)
    ensures r.Answers? ==> Arrival(l, j, m).Ok? && Sendable(r.reply)
  {
    match Arrival(l, j, m)
    case Err(e) => Closes(e)
    case Ok(got) => Handle(l, Theirs(l, j), got.message, env)
  }

  /** The events are a run of the machine whose part for this connection is what its
      handler performs; a listing of a map is complete. */
  predicate Possible(l: Link, j: Joint, step: Step) {
    && j.s.WellFormed() && l.c in j.s.conns
    && Runs(j.s, step.events) && Permitted(j.ports, step.call)
    && SidSet(step.env.order) == j.s.conns[l.c].Keys
    && var m := Command(l.mode, j.ports, step.call);
    Mine(l.c, step.events) ==
      if m.Some? && Reaction(l, j, m.value, step.env).Answers? then Reaction(l, j, m.value, step.env).own else []
  }

  /** What the server writes and how that leaves its end; the stop commands have no reply. */
  function Respond(x: Protection, server: Endpoint, reply: bytes): (bytes, Endpoint)
    requires Sendable(reply)
  {
    if reply == [] then ([], server) else ServerSend(x, server, reply)
  }

  /** The way back: the reply, if there is one, and what the client makes of it. */
  function Return(l: Link, client: Endpoint, server: Endpoint, ports: map<SID, uint16>, call: Call, reply: bytes,
                  s: State): (e: Ended)
    requires Sendable(reply)
    ensures e.Continues? ==> e.j.s == s
  {
    if reply == [] then
      match Conclude(l.x, ports, call, [])
      case Err(e) => Refuses(e)
      case Ok(ports') => Continues(Joint(client, server, ports', s))
    else
      var back := Respond(l.x, server, reply);
      match ClientReceive(l.x, client, ReplyLength(call), back.0)
      case Err(e) => Refuses(e)
      case Ok(answer) =>
        match Conclude(l.x, ports, call, answer.message)
        case Err(e) => Refuses(e)
        case Ok(ports') => Continues(Joint(answer.end, back.1, ports', s))
  }

  /** A call from start to end. */
  function Exchange(l: Link, j: Joint, step: Step): (e: Ended)
    requires Possible(l, j, step)
    ensures e.Continues? ==> e.j.s == Replay(j.s, step.events)
  {
    var s' := Replay(j.s, step.events);
    match Command(l.mode, j.ports, step.call)
    case None => Continues(j.(s := s'))
    case Some(m) =>
      match Reaction(l, j, m, step.env)
      case Closes(e) => Closed(e)
      case Stuck => Unanswered
      case Answers(own, reply) =>
        Return(l, ClientSend(l.x, j.client, m).1, Arrival(l, j, m).value.end, j.ports, step.call, reply, s')
  }

  // ---- Messages survive the MAC and the wire ----

  lemma FinishReplacesTail(x: Protection, prefix: bytes, body: bytes)
    ensures Finish(x, prefix, body + Zeros(16)) == body + Tail(x.p.mac(x.hmac, prefix + body), x.secured)
  {
    assert (body + Zeros(16))[..|body|] == body;
  }

  lemma ShortArrives(x: Protection, prefix: bytes, m: Short)
    ensures var r := DecodeShort(Finish(x, prefix, EncodeShort(m, false)), x.secured);
            r.Ok? && r.value.(hmac := m.hmac) == m
  {
    var body := [m.code] + Zeros(15);
    FinishReplacesTail(x, prefix, body);
    var m' := m.(hmac := x.p.mac(x.hmac, prefix + body));
    assert EncodeShort(m, false) == body + Zeros(16);
    assert EncodeShort(m', x.secured) == body + Tail(m'.hmac, x.secured);
    ShortInverse(m', [], x.secured);
  }

  lemma AcceptArrives(x: Protection, prefix: bytes, m: AcceptSession)
    ensures var r := DecodeAccept(Finish(x, prefix, EncodeAccept(m, false)), x.secured);
            r.Ok? && r.value.(hmac := m.hmac) == m
  {
    var body := [m.accept, 0] + (PutUint16(m.port) + (m.sid + Zeros(12)));
    FinishReplacesTail(x, prefix, body);
    var m' := m.(hmac := x.p.mac(x.hmac, prefix + body));
    assert EncodeAccept(m, false) == body + Zeros(16);
    assert EncodeAccept(m', x.secured) == body + Tail(m'.hmac, x.secured);
    AcceptInverse(m', [], x.secured);
  }

  lemma StopArrives(x: Protection, m: StopSessions)
    ensures var r := DecodeStop(Finish(x, [], EncodeStop(m, false)), x.secured);
            r.Ok? && r.value.(hmac := m.hmac) == m
  {
    var body := StopHeader(m.command, m.accept, m.numSessions);
    FinishReplacesTail(x, [], body);
    StopInverse(m.(hmac := x.p.mac(x.hmac, [] + body)), [], x.secured);
  }

  lemma StopNArrives(x: Protection, m: StopN)
    requires |m.sids| == m.numSessions
    ensures var r := DecodeStopN(Finish(x, [], EncodeStopN(m, false)), x.secured);
            r.Ok? && r.value.(hmac := m.hmac) == m
  {
    var body := StopHeader(m.command, m.accept, m.numSessions) + Join(m.sids);
    FinishReplacesTail(x, [], body);
    var m' := m.(hmac := x.p.mac(x.hmac, [] + body));
    StopNBytes(m, false, |m.sids|);
    StopNBytes(m', x.secured, |m.sids|);
    StopNInverse(m', [], x.secured);
  }

  lemma FinishedRequest(x: Protection, m: Request) returns (m': Request)
    ensures m' == m.(hmac := m'.hmac)
    ensures Finish(x, [], EncodeRequest(m, false)) == EncodeRequest(m', x.secured)
  {
    var b := EncodeRequest(m, false);
    EncodeLaysOut(m, false);
    var body := b[..96];
    assert b == body + Zeros(16);
    FinishReplacesTail(x, [], body);
    m' := m.(hmac := x.p.mac(x.hmac, [] + body));
    EncodeLaysOut(m', x.secured);
    var f := body + Tail(m'.hmac, x.secured);
    FinishedLayout(b, f, m, m', x.secured);
    LayoutUnique(f, EncodeRequest(m', x.secured), m', x.secured);
  }

  lemma FinishedLayout(b: bytes, f: bytes, m: Request, m': Request, includeHMAC: bool)
    requires LaidOut(b, m, false) && m' == m.(hmac := m'.hmac)
    requires f == b[..96] + Tail(m'.hmac, includeHMAC)
    ensures LaidOut(f, m', includeHMAC)
  {
    assert f[0..96] == b[0..96];
    forall i, j | 0 <= i <= j <= 96 ensures f[i..j] == b[i..j] {
      SubSlice(f, 0, 96, i, j);
      SubSlice(b, 0, 96, i, j);
    }
  }

  /** A request made by the client either arrives with all its fields or, when it is
      malformed, is turned down by the parser. */
  lemma RequestArrives(x: Protection, m: Request)
    requires m.ipvn in {4, 6} && m.numSlots == 0 && m.numPackets == 0
    ensures var r := DecodeRequest(Finish(x, [], EncodeRequest(m, false)), x.secured);
            if WellFormed(m) then r.Ok? && r.value.(hmac := m.hmac) == m else r.Err?
  {
    var m' := FinishedRequest(x, m);
    var b := EncodeRequest(m', x.secured);
    RequestInverse(m', b, x.secured);
    if !WellFormed(m) && DecodeRequest(b, x.secured).Ok? {
      var r := DecodeRequest(b, x.secured).value;
      EncodeLaysOut(m', x.secured);
      EncodeLaysOut(r, x.secured);
      Uint32Inverse(m.paddingLength, b[64..68]);
      Uint32Inverse(r.paddingLength, b[64..68]);
      Uint32Inverse(m.typeP, b[84..88]);
      Uint32Inverse(r.typeP, b[84..88]);
      assert false;
    }
  }

  lemma BuiltWellFormed(mode: TestMode, config: SessionConfig, command: uint8, sid: SID)
    ensures WellFormed(BuildRequest(mode, config, command, sid))
            <==> PaddingSent(mode, config) <= MAX_PACKET_SIZE && config.dscp < 64
  {
    var d: int := config.dscp;
    assert d * 0x4_0000 == (d * 4) * 0x1_0000;
    assert (d * 0x4_0000) / 0x1_0000 == d * 4;
    assert (d * 0x4_0000) / 0x100_0000 == d / 64;
  }

  /** A configured timeout reaches the server's session as it is or 1 ns short, exactly
      when it is below 2^32 s. */
  lemma TimeoutReachesServer(x: Protection, mode: TestMode, config: SessionConfig, command: uint8, sid: SID,
                             d: int, conv: FloatConversion)
    requires RoundsNanos(conv) && 0 <= d < TWO63 && config.timeout == RequestTimeout(d, conv)
    requires PaddingSent(mode, config) <= MAX_PACKET_SIZE && config.dscp < 64
    ensures var r := DecodeRequest(Finish(x, [], EncodeRequest(BuildRequest(mode, config, command, sid), false)),
                                   x.secured);
            && r.Ok?
            && (d - 1 <= Duration(r.value.timeout) <= d <==> d < TWO32 * NANOS)
  {
    hide EncodeRequest, DecodeRequest, Finish, Duration, RequestTimeout;
    BuiltWellFormed(mode, config, command, sid);
    RequestArrives(x, BuildRequest(mode, config, command, sid));
    TimeoutArrives(d, conv);
  }

  // ---- What a handler's events do to the connection's sessions ----

  lemma RequestFold(v: View, s: State, c: ConnId, m: Request, individual: bool, w: Surroundings, a: Allocation)
    requires v.held == None
    ensures forall e :: e in RequestEvents(s, c, m, individual, w, a) ==> Stays(e)
    ensures ViewFold(v, RequestEvents(s, c, m, individual, w, a)) ==
            if Granted(s, m, individual, w, a) then v.(ports := v.ports[RequestedSid(m, individual, w) := a.port])
            else v
  {
    var own := RequestEvents(s, c, m, individual, w, a);
    if own != [] {
      var v1 := ViewStep(v, own[0]);
      assert own[1..] == [own[1]] && own[1..][1..] == [];
      assert ViewFold(v1, own[1..]) == ViewStep(v1, own[1]);
    }
  }

  lemma {:induction false} StartFold(v: View, c: ConnId, sids: seq<SID>)
    ensures ViewFold(v, StartEvents(c, sids)) == v
    decreases |sids|
  {
    if sids != [] {
      assert StartEvents(c, sids)[1..] == StartEvents(c, sids[1..]);
      StartFold(v, c, sids[1..]);
    }
  }

  lemma EventsView(l: Link, j: Joint, events: seq<Event>, own: seq<Event>)
    requires InSync(l, j) && Runs(j.s, events) && Mine(l.c, events) == own
    requires forall e :: e in own ==> Stays(e)
    ensures l.c in Replay(j.s, events).conns
    ensures ViewOf(Replay(j.s, events), l.c) == ViewFold(View(Theirs(l, j), None), own)
  {
    MineStays(l.c, events);
    ViewReplay(j.s, events, l.c);
  }

  // ---- One exchange keeps the ends together ----

  lemma CommandReceived(l: Link, j: Joint, m: bytes)
    requires l.x.p.DecryptInverts() && Agree(j.client, j.server) && IsFrame(m)
    ensures Arrival(l, j, m).Ok? && Arrival(l, j, m).value.message == Finish(l.x, [], m)
    ensures Finish(l.x, [], m)[0] == m[0]
    ensures Agree(ClientSend(l.x, j.client, m).1, Arrival(l, j, m).value.end)
  {
    var sent := ClientSend(l.x, j.client, m);
    assert sent.0 + [] == sent.0;
    CommandArrives(l.x, j.client, j.server, m, []);
  }

  /** The request asks for what the configuration says: its ports, its address, its
      timeout, its DSCP in bits 18 to 23, and its padding or the 27 or 56 bytes that a
      reflection needs. */
  ghost predicate AsksFor(mode: TestMode, config: SessionConfig, r: Request) {
    var least := if mode.security == Unauthenticated then 27 else 56;
    && r.ipvn == (if config.ipv6 then 6 else 4) && r.confSender == 0 && r.confReceiver == 0
    && r.numSlots == 0 && r.numPackets == 0
    && r.senderPort == config.senderPort && r.receiverPort == config.receiverPort
    && r.senderAddress == Zeros(16) && r.receiverAddress == config.address
    && r.paddingLength == (if config.paddingLength < least then least else config.paddingLength)
    && r.startTime == Timestamp(0, 0) && r.timeout == config.timeout
    && r.typeP / 0x4_0000 == config.dscp && r.typeP % 0x4_0000 == 0
  }

  lemma BuiltAsksFor(mode: TestMode, config: SessionConfig, command: uint8, sid: SID)
    ensures config.dscp < 64 ==> AsksFor(mode, config, BuildRequest(mode, config, command, sid))
  {
  }

  /** What the server reads from a request: the configuration of the call, under the SID
      asked for, exactly when padding and DSCP fit. */
  lemma ConfigArrives(l: Link, j: Joint, call: Call, config: SessionConfig, sid: SID)
    requires l.x.p.DecryptInverts() && Agree(j.client, j.server)
    requires (call == RequestSession(config) && sid == Zeros(16))
             || (call == RequestSessionIndividual(config, sid) && sid !in j.ports)
    ensures var m := Command(l.mode, j.ports, call);
            && m.Some?
            && var got := Arrival(l, j, m.value);
            && got.Ok? && |got.value.message| == 112
            && got.value.message[0] == (if call.RequestSessionIndividual? then 6 else 5)
            && var r := if call.RequestSessionIndividual? then DecodeIndividual(got.value.message, l.x.secured)
                        else DecodeRequest(got.value.message, l.x.secured);
            && (r.Ok? <==> config.paddingLength <= 2048 && config.dscp < 64)
            && (r.Ok? ==> r.value.sid == sid && AsksFor(l.mode, config, r.value))
  {
    hide Arrival, ClientSend, EncodeRequest, DecodeRequest, AsksFor, WellFormed, BuildRequest;
    var command := if call.RequestSessionIndividual? then CMD_REQUEST_TW_SESSION_INDIVIDUAL
                   else CMD_REQUEST_TW_SESSION;
    RequestCommand(l.mode, j.ports, call, config, sid, command);
    var r := BuildRequest(l.mode, config, command, sid);
    var m := EncodeRequest(r, false);
    BuiltWellFormed(l.mode, config, command, sid);
    BuiltAsksFor(l.mode, config, command, sid);
    BuiltFields(l.mode, config, command, sid);
    CommandReceived(l, j, m);
    RequestArrives(l.x, r);
    AsksForFields(l.mode, config, r);
  }

  lemma BuiltFields(mode: TestMode, config: SessionConfig, command: uint8, sid: SID)
    ensures var r := BuildRequest(mode, config, command, sid);
            r.ipvn in {4, 6} && r.numSlots == 0 && r.numPackets == 0 && r.command == command && r.sid == sid
  {
  }

  lemma AsksForFields(mode: TestMode, config: SessionConfig, r: Request)
    ensures forall q: Request :: q.(hmac := r.hmac) == r ==> (AsksFor(mode, config, q) <==> AsksFor(mode, config, r))
  {
  }

  lemma RequestCommand(mode: TestMode, ports: map<SID, uint16>, call: Call, config: SessionConfig, sid: SID,
                       command: uint8)
    requires (call == RequestSession(config) && sid == Zeros(16) && command == 5)
             || (call == RequestSessionIndividual(config, sid) && sid !in ports && command == 6)
    ensures var m := EncodeRequest(BuildRequest(mode, config, command, sid), false);
            Command(mode, ports, call) == Some(m) && IsFrame(m) && m[0] == command
  {
    var m := EncodeRequest(BuildRequest(mode, config, command, sid), false);
    assert m[0] == command && m[0 := command] == m;
  }

  lemma ReplyReceived(x: Protection, client: Endpoint, server: Endpoint, reply: bytes)
    requires x.p.DecryptInverts() && Agree(client, server) && |reply| in {32, 48}
    ensures var back := ServerSend(x, server, reply);
            var answer := ClientReceive(x, client, |reply|, back.0);
            && answer.Ok? && answer.value.message == Finish(x, Cover(x, server), reply)
            && Agree(answer.value.end, back.1)
  {
    var back := ServerSend(x, server, reply);
    assert back.0 + [] == back.0;
    ReplyArrives(x, client, server, reply, []);
  }

  lemma RequestHandled(l: Link, mine: map<SID, uint16>, cmd: bytes, r: Request, env: Env)
    requires |cmd| >= 1 && cmd[0] == r.command
    requires r.command in {CMD_REQUEST_TW_SESSION, CMD_REQUEST_TW_SESSION_INDIVIDUAL}
    requires var d := DecodeRequest(cmd, l.x.secured);
             if WellFormed(r) then d.Ok? && d.value.(hmac := r.hmac) == r else d.Err?
    ensures if WellFormed(r) then
              Handle(l, mine, cmd, env) == HandleRequest(l, r, r.command == CMD_REQUEST_TW_SESSION_INDIVIDUAL, env)
            else
              Handle(l, mine, cmd, env).Closes?
  {
    hide DecodeRequest, DecodeShort, DecodeStop, DecodeStopN, EncodeAccept, WellFormed, ForgetEvents, FirstOf;
  }

  lemma RequestReaction(l: Link, j: Joint, step: Step, r: Request, m: bytes)
    requires l.x.p.DecryptInverts() && InSync(l, j) && IsFrame(m)
    requires r.command in {CMD_REQUEST_TW_SESSION, CMD_REQUEST_TW_SESSION_INDIVIDUAL}
    requires r.ipvn in {4, 6} && r.numSlots == 0 && r.numPackets == 0 && m == EncodeRequest(r, false)
    ensures if WellFormed(r) then
              Reaction(l, j, m, step.env)
                == HandleRequest(l, r, r.command == CMD_REQUEST_TW_SESSION_INDIVIDUAL, step.env)
            else
              Reaction(l, j, m, step.env).Closes?
  {
    assert m[0] == r.command;
    hide EncodeRequest, DecodeRequest, WellFormed, HandleRequest, Finish, Handle;
    CommandReceived(l, j, m);
    RequestArrives(l.x, r);
    RequestHandled(l, Theirs(l, j), Finish(l.x, [], m), r, step.env);
  }

  /** The client's view after an Accept-Session. */
  function AfterAccept(ports: map<SID, uint16>, call: Call, reply: AcceptSession): map<SID, uint16>
    requires call.RequestSession? || call.RequestSessionIndividual?
  {
    if reply.accept != ACCEPT_OK || (call.RequestSessionIndividual? && reply.sid != call.sid) then ports
    else ports[reply.sid := ChosenPort(call.config, reply.port)]
  }

  lemma AcceptReturns(l: Link, client: Endpoint, server: Endpoint, ports: map<SID, uint16>, call: Call,
                      reply: AcceptSession, s: State)
    requires l.x.p.DecryptInverts() && Agree(client, server)
    requires call.RequestSession? || call.RequestSessionIndividual?
    ensures var e := Return(l, client, server, ports, call, EncodeAccept(reply, false), s);
            e.Continues? && Agree(e.j.client, e.j.server) && e.j.ports == AfterAccept(ports, call, reply)
  {
    hide ClientReceive, ServerSend, Finish, EncodeAccept, DecodeAccept, Cover;
    ReplyReceived(l.x, client, server, EncodeAccept(reply, false));
    AcceptArrives(l.x, Cover(l.x, server), reply);
  }

  /** The port a client sends to is the server's exactly when the server's is not 0 or
      the client's own is. */
  lemma ChosenPortExactly(config: SessionConfig, port: uint16)
    ensures ChosenPort(config, port) == port <==> port != 0 || config.receiverPort == 0
  {
  }

  /** The server's sessions after a request. */
  function AfterGrant(theirs: map<SID, uint16>, r: Request, individual: bool, w: Surroundings, env: Env)
    : map<SID, uint16>
  {
    if Granted(env.checked, r, individual, w, env.a) then theirs[RequestedSid(r, individual, w) := env.a.port]
    else theirs
  }

  /** The client books what the server has published, but for port 0. */
  lemma AcceptMatches(mine: map<SID, uint16>, theirs: map<SID, uint16>, call: Call, r: Request, individual: bool,
                      w: Surroundings, env: Env)
    requires if individual then call.RequestSessionIndividual? && r.sid == call.sid else call.RequestSession?
    requires SameSessions(mine, theirs)
    ensures var mine' := AfterAccept(mine, call, RequestReply(env.checked, r, individual, w, env.a));
            var theirs' := AfterGrant(theirs, r, individual, w, env);
            && SameSessions(mine', theirs')
            && (mine == theirs ==>
                  (mine' == theirs' <==>
                     !(Granted(env.checked, r, individual, w, env.a) && env.a.port == 0
                       && call.config.receiverPort != 0)))
  {
    var sid := RequestedSid(r, individual, w);
    if Granted(env.checked, r, individual, w, env.a) {
      var mine' := mine[sid := ChosenPort(call.config, env.a.port)];
      assert AfterAccept(mine, call, RequestReply(env.checked, r, individual, w, env.a)) == mine';
      ChosenPortExactly(call.config, env.a.port);
      assert mine'[sid] == ChosenPort(call.config, env.a.port);
    }
  }

  /** The one step after which agreeing ports differ: a granted request for which the
      port search came up with 0 while the client has a port of its own in mind. */
  predicate GrantsZero(l: Link, j: Joint, step: Step) {
    var w := Surroundings(l.x.secured, step.env.receiverAllowed, l.mode, step.env.randomSid);
    match step.call
    case RequestSession(config) =>
      && config.receiverPort != 0 && step.env.a == Found(0)
      && Granted(step.env.checked, BuildRequest(l.mode, config, CMD_REQUEST_TW_SESSION, ZERO_SID), false, w, step.env.a)
    case RequestSessionIndividual(config, sid) =>
      && config.receiverPort != 0 && step.env.a == Found(0) && sid !in j.ports
      && Granted(step.env.checked, BuildRequest(l.mode, config, CMD_REQUEST_TW_SESSION_INDIVIDUAL, sid), true, w,
                 step.env.a)
    case _ => false
  }

  /** In step again, and the ports agree as they did unless 0 was granted. */
  ghost predicate StaysInSync(l: Link, j: Joint, step: Step, j': Joint)
    requires j.s.WellFormed() && l.c in j.s.conns
  {
    InSync(l, j') && (PortsAgree(l, j) ==> (PortsAgree(l, j') <==> !GrantsZero(l, j, step)))
  }

  function RequestOf(mode: TestMode, call: Call): Request
    requires call.RequestSession? || call.RequestSessionIndividual?
  {
    if call.RequestSession? then BuildRequest(mode, call.config, CMD_REQUEST_TW_SESSION, ZERO_SID)
    else BuildRequest(mode, call.config, CMD_REQUEST_TW_SESSION_INDIVIDUAL, call.sid)
  }

  lemma RequestedView(l: Link, j: Joint, events: seq<Event>, r: Request, individual: bool, w: Surroundings, env: Env)
    requires InSync(l, j) && Runs(j.s, events)
    requires Mine(l.c, events) == RequestEvents(env.checked, l.c, r, individual, w, env.a)
    ensures l.c in Replay(j.s, events).conns
    ensures ViewOf(Replay(j.s, events), l.c) == View(AfterGrant(Theirs(l, j), r, individual, w, env), None)
  {
    RequestFold(View(Theirs(l, j), None), env.checked, l.c, r, individual, w, env.a);
    EventsView(l, j, events, RequestEvents(env.checked, l.c, r, individual, w, env.a));
  }

  /** The session a call adds to the client's, if the server grants it one. */
  function Booked(l: Link, j: Joint, step: Step): set<SID> {
    if step.call.RequestSession? || (step.call.RequestSessionIndividual? && step.call.sid !in j.ports) then
      var w := Surroundings(l.x.secured, step.env.receiverAllowed, l.mode, step.env.randomSid);
      var r, individual := RequestOf(l.mode, step.call), step.call.RequestSessionIndividual?;
      if Granted(step.env.checked, r, individual, w, step.env.a) then {RequestedSid(r, individual, w)} else {}
    else
      {}
  }

  lemma BookedKeys(l: Link, j: Joint, step: Step, r: Request)
    requires step.call.RequestSession? || (step.call.RequestSessionIndividual? && step.call.sid !in j.ports)
    requires r == RequestOf(l.mode, step.call)
    ensures var w := Surroundings(l.x.secured, step.env.receiverAllowed, l.mode, step.env.randomSid);
            var reply := RequestReply(step.env.checked, r, step.call.RequestSessionIndividual?, w, step.env.a);
            AfterAccept(j.ports, step.call, reply).Keys == j.ports.Keys + Booked(l, j, step)
  {
    hide Refused;
  }

  /** A request that the server answers. */
  lemma RequestSync(l: Link, j: Joint, step: Step, r: Request, m: bytes, individual: bool)
    requires l.x.p.DecryptInverts() && InSync(l, j) && Possible(l, j, step)
    requires Command(l.mode, j.ports, step.call) == Some(m)
    requires if individual then step.call.RequestSessionIndividual? && step.call.sid !in j.ports
             else step.call.RequestSession?
    requires r == RequestOf(l.mode, step.call)
    requires Reaction(l, j, m, step.env) == HandleRequest(l, r, individual, step.env)
    requires Reaction(l, j, m, step.env).Answers?
    ensures Exchange(l, j, step).Continues? && StaysInSync(l, j, step, Exchange(l, j, step).j)
    ensures var w := Surroundings(l.x.secured, step.env.receiverAllowed, l.mode, step.env.randomSid);
            Exchange(l, j, step).j.ports ==
            AfterAccept(j.ports, step.call, RequestReply(step.env.checked, r, individual, w, step.env.a))
  {
    hide Return, Command, Arrival, ClientSend, RequestEvents, RequestReply, EncodeAccept, Replay, Runs, AfterAccept;
    var w, env := Surroundings(l.x.secured, step.env.receiverAllowed, l.mode, step.env.randomSid), step.env;
    CommandReceived(l, j, m);
    RequestedView(l, j, step.events, r, individual, w, env);
    AcceptReturns(l, ClientSend(l.x, j.client, m).1, Arrival(l, j, m).value.end, j.ports, step.call,
                  RequestReply(env.checked, r, individual, w, env.a), Replay(j.s, step.events));
    AcceptMatches(j.ports, Theirs(l, j), step.call, r, individual, w, env);
  }

  lemma StartReaction(l: Link, j: Joint, step: Step, reply: Short)
    requires l.x.p.DecryptInverts() && InSync(l, j) && Possible(l, j, step)
    requires step.call.StartSessions? && j.ports != map[]
    requires reply == Short(if step.env.allBound then ACCEPT_OK else ACCEPT_FAILURE, Zeros(16))
    ensures Reaction(l, j, Command(l.mode, j.ports, step.call).value, step.env)
            == Answers(StartEvents(l.c, step.env.started), EncodeShort(reply, false))
  {
    CommandReceived(l, j, Command(l.mode, j.ports, step.call).value);
    ShortArrives(l.x, [], Short(CMD_START_SESSIONS, Zeros(16)));
  }

  lemma StartReturns(l: Link, client: Endpoint, server: Endpoint, ports: map<SID, uint16>, reply: Short, s: State)
    requires l.x.p.DecryptInverts() && Agree(client, server)
    ensures var e := Return(l, client, server, ports, StartSessions, EncodeShort(reply, false), s);
            e.Continues? && Agree(e.j.client, e.j.server) && e.j.ports == ports
  {
    ReplyReceived(l.x, client, server, EncodeShort(reply, false));
    ShortArrives(l.x, Cover(l.x, server), reply);
  }

  /** Starting sessions leaves the server's list as it is. */
  lemma StartedView(l: Link, j: Joint, events: seq<Event>, sids: seq<SID>)
    requires InSync(l, j) && Runs(j.s, events) && Mine(l.c, events) == StartEvents(l.c, sids)
    ensures l.c in Replay(j.s, events).conns
    ensures ViewOf(Replay(j.s, events), l.c) == View(Theirs(l, j), None)
  {
    hide Runs, Replay, Mine, ViewFold;
    StartFold(View(Theirs(l, j), None), l.c, sids);
    EventsView(l, j, events, StartEvents(l.c, sids));
  }

  lemma StartSync(l: Link, j: Joint, step: Step)
    requires l.x.p.DecryptInverts() && InSync(l, j) && Possible(l, j, step)
    requires step.call.StartSessions? && j.ports != map[]
    ensures Exchange(l, j, step).Continues? && StaysInSync(l, j, step, Exchange(l, j, step).j)
  {
    assert Command(l.mode, j.ports, step.call).Some?;
    hide Return, Reaction, Arrival, ClientSend, EncodeShort, Command, Replay, Runs, Mine, StartEvents, ViewFold;
    var reply := Short(if step.env.allBound then ACCEPT_OK else ACCEPT_FAILURE, Zeros(16));
    var m := Command(l.mode, j.ports, step.call).value;
    StartReaction(l, j, step, reply);
    StartedView(l, j, step.events, step.env.started);
    CommandReceived(l, j, m);
    StartReturns(l, ClientSend(l.x, j.client, m).1, Arrival(l, j, m).value.end, j.ports, reply,
                 Replay(j.s, step.events));
  }

  lemma StopHandled(l: Link, mine: map<SID, uint16>, cmd: bytes, m: StopSessions, env: Env)
    requires |cmd| >= 1 && cmd[0] == CMD_STOP_SESSIONS && m.numSessions == |mine| % TWO32
    requires DecodeStop(cmd, l.x.secured).Ok? && DecodeStop(cmd, l.x.secured).value.(hmac := m.hmac) == m
    ensures Handle(l, mine, cmd, env) == Answers(ForgetEvents(l.c, env.order), [])
  {
    hide DecodeStop, DecodeRequest, DecodeIndividual, DecodeShort, DecodeStopN, HandleRequest, ForgetEvents, FirstOf;
  }

  /** The count in Stop-Sessions is the server's own, so the check passes. */
  lemma StopReaction(l: Link, j: Joint, step: Step)
    requires l.x.p.DecryptInverts() && InSync(l, j) && Possible(l, j, step)
    requires step.call.StopAllSessions? && j.ports != map[]
    ensures Reaction(l, j, Command(l.mode, j.ports, step.call).value, step.env)
              == Answers(ForgetEvents(l.c, step.env.order), [])
  {
    var m := EncodeStop(StopAll(j.ports), false);
    assert m[0] == CMD_STOP_SESSIONS && Command(l.mode, j.ports, step.call) == Some(m);
    assert |j.ports| == |j.ports.Keys| && |Theirs(l, j)| == |Theirs(l, j).Keys|;
    hide EncodeStop, DecodeStop, Finish, ForgetEvents, Handle, Command;
    CommandReceived(l, j, m);
    StopArrives(l.x, StopAll(j.ports));
    StopHandled(l, Theirs(l, j), Finish(l.x, [], m), StopAll(j.ports), step.env);
  }

  /** A stop command: the server drops what the client drops, and nothing is replied. */
  lemma ForgetSync(l: Link, j: Joint, step: Step, sids: seq<SID>)
    requires l.x.p.DecryptInverts() && InSync(l, j) && Possible(l, j, step)
    requires Command(l.mode, j.ports, step.call).Some?
    requires Reaction(l, j, Command(l.mode, j.ports, step.call).value, step.env) == Answers(ForgetEvents(l.c, sids), [])
    requires Conclude(l.x, j.ports, step.call, []) == Ok(j.ports - SidSet(sids))
    ensures Exchange(l, j, step).Continues? && StaysInSync(l, j, step, Exchange(l, j, step).j)
  {
    hide Command, Handle, Conclude, ClientSend, ForgetEvents, GrantsZero;
    CommandReceived(l, j, Command(l.mode, j.ports, step.call).value);
    ForgottenView(l, j, step.events, sids);
    StopsGrantNothing(l, j, step, sids);
  }

  lemma ForgottenView(l: Link, j: Joint, events: seq<Event>, sids: seq<SID>)
    requires InSync(l, j) && Runs(j.s, events) && Mine(l.c, events) == ForgetEvents(l.c, sids)
    ensures l.c in Replay(j.s, events).conns
    ensures ViewOf(Replay(j.s, events), l.c) == View(Theirs(l, j) - SidSet(sids), None)
    ensures SameSessions(j.ports - SidSet(sids), Theirs(l, j) - SidSet(sids))
    ensures PortsAgree(l, j) ==> j.ports - SidSet(sids) == Theirs(l, j) - SidSet(sids)
  {
    ForgetFold(View(Theirs(l, j), None), l.c, sids);
    EventsView(l, j, events, ForgetEvents(l.c, sids));
  }

  lemma StopsGrantNothing(l: Link, j: Joint, step: Step, sids: seq<SID>)
    requires Conclude(l.x, j.ports, step.call, []) == Ok(j.ports - SidSet(sids))
    ensures !GrantsZero(l, j, step)
  {
  }

  lemma StopSync(l: Link, j: Joint, step: Step)
    requires l.x.p.DecryptInverts() && InSync(l, j) && Possible(l, j, step)
    requires step.call.StopAllSessions? && j.ports != map[]
    ensures Exchange(l, j, step).Continues? && StaysInSync(l, j, step, Exchange(l, j, step).j)
  {
    hide Reaction, ClientSend, Exchange, StaysInSync, ForgetEvents, EncodeStop;
    StopReaction(l, j, step);
    assert Theirs(l, j).Keys == j.s.conns[l.c].Keys;
    assert j.ports - SidSet(step.env.order) == map[];
    ForgetSync(l, j, step, step.env.order);
  }

  lemma StopNParses(x: Protection, selected: seq<SID>)
    requires |selected| < TWO32
    ensures var cmd := Finish(x, [], EncodeStopN(StopSelected(selected), false));
            var r := DecodeStopN(cmd, x.secured);
            r.Ok? && cmd[0] == CMD_STOP_N_SESSIONS && r.value.sids == selected
  {
    StopNArrives(x, StopSelected(selected));
  }

  lemma StopNHandled(l: Link, mine: map<SID, uint16>, cmd: bytes, m: StopN, env: Env)
    requires |cmd| >= 1 && cmd[0] == CMD_STOP_N_SESSIONS && DecodeStopN(cmd, l.x.secured) == Ok(m)
    ensures Handle(l, mine, cmd, env) == Answers(ForgetEvents(l.c, FirstOf(mine.Keys, m.sids)), [])
  {
    hide DecodeStopN, DecodeRequest, DecodeIndividual, DecodeShort, DecodeStop, HandleRequest, ForgetEvents, FirstOf;
  }

  lemma StopNReaction(l: Link, j: Joint, step: Step)
    requires l.x.p.DecryptInverts() && InSync(l, j) && Possible(l, j, step) && step.call.StopNSessions?
    ensures Reaction(l, j, Command(l.mode, j.ports, step.call).value, step.env)
            == Answers(ForgetEvents(l.c, FirstOf(j.ports.Keys, step.call.selected)), [])
  {
    hide EncodeStopN, DecodeStopN, Finish, Handle, ForgetEvents, FirstOf;
    var cmd := Finish(l.x, [], EncodeStopN(StopSelected(step.call.selected), false));
    CommandReceived(l, j, Command(l.mode, j.ports, step.call).value);
    StopNParses(l.x, step.call.selected);
    StopNHandled(l, Theirs(l, j), cmd, DecodeStopN(cmd, l.x.secured).value, step.env);
  }

  lemma StopNDrops(x: Protection, ports: map<SID, uint16>, call: Call)
    requires call.StopNSessions?
    ensures Conclude(x, ports, call, []) == Ok(ports - SidSet(FirstOf(ports.Keys, call.selected)))
  {
    FirstOfSet(ports.Keys, call.selected);
    hide FirstOf;
    assert ports - SidSet(FirstOf(ports.Keys, call.selected)) == ports - SidSet(call.selected);
  }

  lemma StopNSync(l: Link, j: Joint, step: Step)
    requires l.x.p.DecryptInverts() && InSync(l, j) && Possible(l, j, step) && step.call.StopNSessions?
    ensures Exchange(l, j, step).Continues? && StaysInSync(l, j, step, Exchange(l, j, step).j)
  {
    hide Conclude, Handle, Reaction, FirstOf, EncodeStopN, InSync, ForgetEvents;
    StopNReaction(l, j, step);
    StopNDrops(l.x, j.ports, step.call);
    ForgetSync(l, j, step, FirstOf(j.ports.Keys, step.call.selected));
  }

  lemma SilentSync(l: Link, j: Joint, step: Step)
    requires InSync(l, j) && Possible(l, j, step) && Command(l.mode, j.ports, step.call).None?
    ensures Exchange(l, j, step).Continues? && StaysInSync(l, j, step, Exchange(l, j, step).j)
  {
    EventsView(l, j, step.events, []);
  }

  /** The request a call sends and what the server makes of it. */
  lemma RequestCallSync(l: Link, j: Joint, step: Step)
    requires l.x.p.DecryptInverts() && InSync(l, j) && Possible(l, j, step)
    requires step.call.RequestSession? || (step.call.RequestSessionIndividual? && step.call.sid !in j.ports)
    ensures var e := Exchange(l, j, step);
            && (Malformed(l.mode, step.call) <==> e.Closed?)
            && (e.Unanswered? ==> step.env.a.NeverReturns?)
            && !e.Refuses? && (e.Continues? ==> StaysInSync(l, j, step, e.j))
            && (e.Continues? ==> e.j.ports.Keys == j.ports.Keys + Booked(l, j, step))
  {
    hide Arrival, Return, StaysInSync, WellFormed, ClientSend, RequestEvents, RequestReply, EncodeAccept, Booked;
    var individual := step.call.RequestSessionIndividual?;
    var command := if individual then CMD_REQUEST_TW_SESSION_INDIVIDUAL else CMD_REQUEST_TW_SESSION;
    var sid := if individual then step.call.sid else ZERO_SID;
    var r := BuildRequest(l.mode, step.call.config, command, sid);
    var m := EncodeRequest(r, false);
    assert m[0] == command && m[0 := command] == m;
    assert Command(l.mode, j.ports, step.call) == Some(m);
    BuiltWellFormed(l.mode, step.call.config, command, sid);
    RequestReaction(l, j, step, r, m);
    if Reaction(l, j, m, step.env).Answers? {
      RequestSync(l, j, step, r, m, individual);
      BookedKeys(l, j, step, r);
    }
  }

  /** Whatever is replied to it, only a request adds to the client's sessions. */
  lemma KeysFromBefore(l: Link, j: Joint, step: Step)
    requires Possible(l, j, step) && !step.call.RequestSession?
    requires step.call.RequestSessionIndividual? ==> step.call.sid in j.ports
    ensures var e := Exchange(l, j, step); e.Continues? ==> e.j.ports.Keys <= j.ports.Keys
  {
    hide Reaction, ClientSend, Arrival, ClientReceive, ServerSend, DecodeAccept, DecodeShort;
  }

  /** Every complete exchange leaves the two ends agreed: the vectors of both streams,
      the Server-Start flags, the sessions, and every port but 0, whatever timers,
      reflectors, stops of single sessions and other connections do meanwhile; ports
      that agree cease to exactly when 0 is granted to a client that has another in
      mind.  In answering, the server closes the connection exactly on a malformed
      request, never on a Stop-Sessions count; the client never turns a reply down; only
      a port search that never returns goes unanswered. */
  lemma ExchangeKeepsSync(l: Link, j: Joint, step: Step)
    requires l.x.p.DecryptInverts() && InSync(l, j) && Possible(l, j, step)
    ensures var e := Exchange(l, j, step);
            && (e.Closed? <==> Command(l.mode, j.ports, step.call).Some? && Malformed(l.mode, step.call))
            && (e.Unanswered? ==> step.env.a.NeverReturns?)
            && !e.Refuses? && (e.Continues? ==> StaysInSync(l, j, step, e.j))
            && (e.Continues? ==> e.j.ports.Keys <= j.ports.Keys + Booked(l, j, step))
  {
    hide Booked;
    if !step.call.RequestSession? && (step.call.RequestSessionIndividual? ==> step.call.sid in j.ports) {
      KeysFromBefore(l, j, step);
    }
    if Command(l.mode, j.ports, step.call).None? {
      SilentSync(l, j, step);
    } else {
      match step.call
      case RequestSession(_) => RequestCallSync(l, j, step);
      case RequestSessionIndividual(_, _) => RequestCallSync(l, j, step);
      case StartSessions => StartSync(l, j, step);
      case StopAllSessions => StopSync(l, j, step);
      case StopNSessions(_, _) => StopNSync(l, j, step);
    }
  }

  // ---- Whole connections ----

  /** A connection's life: calls one after the other until one of them is the last. */
  predicate History(l: Link, j: Joint, steps: seq<Step>)
    decreases |steps|
  {
    steps == []
    || (&& Possible(l, j, steps[0])
        && match Exchange(l, j, steps[0])
           case Continues(j') => History(l, j', steps[1..])
           case _ => |steps| == 1)
  }

  function Outcome(l: Link, j: Joint, steps: seq<Step>): Ended
    requires History(l, j, steps)
    decreases |steps|
  {
    if steps == [] then Continues(j) else
      match Exchange(l, j, steps[0])
      case Continues(j') => Outcome(l, j', steps[1..])
      case e => e
  }

  lemma HistoryStep(l: Link, j: Joint, steps: seq<Step>)
    requires History(l, j, steps) && steps != []
    ensures Possible(l, j, steps[0])
    ensures var e := Exchange(l, j, steps[0]);
            if e.Continues? then History(l, e.j, steps[1..]) && Outcome(l, j, steps) == Outcome(l, e.j, steps[1..])
            else |steps| == 1 && Outcome(l, j, steps) == e
  {
    hide Possible, Exchange;
  }

  lemma ExchangeEnds(l: Link, j: Joint, step: Step)
    requires l.x.p.DecryptInverts() && InSync(l, j) && Possible(l, j, step)
    ensures match Exchange(l, j, step)
            case Continues(j') => InSync(l, j')
            case Closed(_) => Malformed(l.mode, step.call)
            case Unanswered => step.env.a.NeverReturns?
            case Refuses(_) => false
  {
    hide InSync, Possible, Exchange, PortsAgree, GrantsZero, Malformed, Booked;
    ExchangeKeepsSync(l, j, step);
    InSyncFacts(l, j);
  }

  /** From the setup on, over every history of calls, the ends stay in step; the
      connection ends early only on a malformed request or an endless port search. */
  lemma {:induction false} HistoryKeepsSync(l: Link, j: Joint, steps: seq<Step>)
    requires l.x.p.DecryptInverts() && InSync(l, j) && History(l, j, steps)
    ensures match Outcome(l, j, steps)
            case Continues(j') => InSync(l, j')
            case Closed(_) => steps != [] && Malformed(l.mode, steps[|steps| - 1].call)
            case Unanswered => steps != [] && steps[|steps| - 1].env.a.NeverReturns?
            case Refuses(_) => false
    decreases |steps|
  {
    hide Exchange, Possible, InSync, Malformed;
    if steps != [] {
      HistoryStep(l, j, steps);
      ExchangeEnds(l, j, steps[0]);
      var e := Exchange(l, j, steps[0]);
      if e.Continues? {
        HistoryKeepsSync(l, e.j, steps[1..]);
      }
    }
  }

  predicate NeverZero(l: Link, j: Joint, steps: seq<Step>)
    requires History(l, j, steps)
    decreases |steps|
  {
    steps == []
    || (!GrantsZero(l, j, steps[0])
        && match Exchange(l, j, steps[0])
           case Continues(j') => NeverZero(l, j', steps[1..])
           case _ => true)
  }

  /** Ports agree over every history in which 0 is never granted so. */
  lemma {:induction false} HistoryKeepsPorts(l: Link, j: Joint, steps: seq<Step>)
    requires l.x.p.DecryptInverts() && InSync(l, j) && PortsAgree(l, j) && History(l, j, steps)
               && NeverZero(l, j, steps)
    ensures match Outcome(l, j, steps)
            case Continues(j') => InSync(l, j') && PortsAgree(l, j')
            case _ => true
    decreases |steps|
  {
    hide Exchange, Possible, InSync, PortsAgree, GrantsZero, StaysInSync;
    if steps != [] {
      InSyncFacts(l, j);
      HistoryStep(l, j, steps);
      ExchangeKeepsSync(l, j, steps[0]);
      var e := Exchange(l, j, steps[0]);
      if e.Continues? {
        StayedFacts(l, j, steps[0], e.j);
        HistoryKeepsPorts(l, e.j, steps[1..]);
      }
    }
  }

  lemma StayedFacts(l: Link, j: Joint, step: Step, j': Joint)
    requires j.s.WellFormed() && l.c in j.s.conns && StaysInSync(l, j, step, j')
    ensures InSync(l, j') && j'.s.WellFormed() && l.c in j'.s.conns
    ensures PortsAgree(l, j) ==> (PortsAgree(l, j') <==> !GrantsZero(l, j, step))
  {
  }

  /** The two ends as the connection setup leaves them. */
  function AfterSetup(l: Link, clientIV: Block, serverIV: Block, s: State): Joint {
    Joint(Endpoint(clientIV, serverIV, l.x.secured), Endpoint(serverIV, clientIV, l.x.secured), map[], s)
  }

  lemma SetupInSync(l: Link, clientIV: Block, serverIV: Block, s: State)
    requires s.WellFormed() && Enabled(s, Connect(l.c))
    ensures InSync(l, AfterSetup(l, clientIV, serverIV, Next(s, Connect(l.c))))
  {
    var t := Next(s, Connect(l.c));
    assert ViewOf(t, l.c).ports == map[];
  }

  /** The first messages after the setup: the client encrypts from its own vector, the
      server from its own, and on a secured connection the server's MAC covers the
      Server-Start message as well. */
  lemma FirstMessages(l: Link, clientIV: Block, serverIV: Block, s: State, message: bytes)
    requires l.x.secured && |message| >= 16 && Aligned(message)
    ensures var j := AfterSetup(l, clientIV, serverIV, s);
            var body := message[..|message| - 16];
            && ClientSend(l.x, j.client, message).0 ==
               CbcEncrypt(l.x.p, l.x.aes, clientIV, body + l.x.p.mac(l.x.hmac, body))
            && ServerSend(l.x, j.server, message).0 ==
               CbcEncrypt(l.x.p, l.x.aes, serverIV, body + l.x.p.mac(l.x.hmac, l.x.serverStart + body))
  {
    hide ClientSend, ServerSend;
    MessagesSealed(l.x, AfterSetup(l, clientIV, serverIV, s).client, message);
    MessagesSealed(l.x, AfterSetup(l, clientIV, serverIV, s).server, message);
  }

  // ---- Every call can be served ----

  /** Surroundings of a server with no other request under way: the duplicate check sees
      the state as it is, a port found is free, listings are of the connection's own
      sessions. */
  predicate Undisturbed(c: ConnId, s: State, env: Env)
    requires c in s.conns
  {
    && s.holding == map[] && env.checked == s
    && (env.a.Found? ==> env.a.port !in s.used)
    && (forall sid :: sid in env.started ==> sid in s.conns[c])
    && Distinct(env.order) && SidSet(env.order) == s.conns[c].Keys
  }

  lemma {:induction false} MineOwn(c: ConnId, events: seq<Event>)
    requires forall i :: 0 <= i < |events| ==> Own(c, events[i])
    ensures Mine(c, events) == events
  {
    if events != [] {
      MineOwn(c, events[1..]);
    }
  }

  lemma RequestAlone(l: Link, s: State, m: Request, individual: bool, env: Env)
    requires s.WellFormed() && l.c in s.conns && Undisturbed(l.c, s, env)
    requires HandleRequest(l, m, individual, env).Answers?
    ensures var own := HandleRequest(l, m, individual, env).own;
            Runs(s, own) && Mine(l.c, own) == own
  {
    var w := Surroundings(l.x.secured, env.receiverAllowed, l.mode, env.randomSid);
    RequestRuns(s, l.c, m, individual, w, env.a);
    MineOwn(l.c, RequestEvents(s, l.c, m, individual, w, env.a));
  }

  lemma StopNAlone(l: Link, s: State, sids: seq<SID>)
    requires s.WellFormed() && l.c in s.conns && s.holding == map[]
    ensures var own := ForgetEvents(l.c, FirstOf(ViewOf(s, l.c).ports.Keys, sids));
            Runs(s, own) && Mine(l.c, own) == own
  {
    assert ViewOf(s, l.c).ports.Keys == s.conns[l.c].Keys;
    StopNRuns(s, l.c, sids);
    MineOwn(l.c, ForgetEvents(l.c, FirstOf(s.conns[l.c].Keys, sids)));
  }

  lemma StopAlone(l: Link, s: State, env: Env)
    requires s.WellFormed() && l.c in s.conns && Undisturbed(l.c, s, env)
    ensures Runs(s, ForgetEvents(l.c, env.order))
              && Mine(l.c, ForgetEvents(l.c, env.order)) == ForgetEvents(l.c, env.order)
  {
    assert forall x :: x in env.order ==> x in SidSet(env.order);
    ForgetRuns(s, l.c, env.order);
    MineOwn(l.c, ForgetEvents(l.c, env.order));
  }

  lemma StartAlone(l: Link, s: State, env: Env)
    requires s.WellFormed() && l.c in s.conns && Undisturbed(l.c, s, env)
    ensures Runs(s, StartEvents(l.c, env.started))
              && Mine(l.c, StartEvents(l.c, env.started)) == StartEvents(l.c, env.started)
  {
    StartRuns(s, l.c, env.started);
    MineOwn(l.c, StartEvents(l.c, env.started));
  }

  /** Whatever bytes arrive, what the handler answers with is a run of the machine. */
  lemma HandleAlone(l: Link, s: State, cmd: bytes, env: Env)
    requires s.WellFormed() && l.c in s.conns && Undisturbed(l.c, s, env) && |cmd| >= 1
    ensures var r := Handle(l, ViewOf(s, l.c).ports, cmd, env);
            r.Answers? ==> Runs(s, r.own) && Mine(l.c, r.own) == r.own
  {
    hide DecodeRequest, DecodeIndividual, DecodeShort, DecodeStop, DecodeStopN, HandleRequest;
    hide Undisturbed, Runs, Mine, ForgetEvents, StartEvents, FirstOf;
    var inc := l.x.secured;
    if cmd[0] == CMD_REQUEST_TW_SESSION {
      if DecodeRequest(cmd, inc).Ok? && HandleRequest(l, DecodeRequest(cmd, inc).value, false, env).Answers? {
        RequestAlone(l, s, DecodeRequest(cmd, inc).value, false, env);
      }
    } else if cmd[0] == CMD_REQUEST_TW_SESSION_INDIVIDUAL {
      if DecodeIndividual(cmd, inc).Ok? && HandleRequest(l, DecodeIndividual(cmd, inc).value, true, env).Answers? {
        RequestAlone(l, s, DecodeIndividual(cmd, inc).value, true, env);
      }
    } else if cmd[0] == CMD_START_SESSIONS {
      StartAlone(l, s, env);
    } else if cmd[0] == CMD_STOP_SESSIONS {
      StopAlone(l, s, env);
    } else if cmd[0] == CMD_STOP_N_SESSIONS && DecodeStopN(cmd, inc).Ok? {
      NothingHeld(l.c, s, env);
      StopNAlone(l, s, DecodeStopN(cmd, inc).value.sids);
    }
  }

  lemma NothingHeld(c: ConnId, s: State, env: Env)
    requires c in s.conns && Undisturbed(c, s, env)
    ensures s.holding == map[] && SidSet(env.order) == s.conns[c].Keys
  {
  }

  /** The events of the connection's own handler for a call. */
  function OwnEvents(l: Link, j: Joint, call: Call, env: Env): seq<Event>
    requires j.s.WellFormed() && l.c in j.s.conns && Permitted(j.ports, call)
  {
    var m := Command(l.mode, j.ports, call);
    if m.Some? && Reaction(l, j, m.value, env).Answers? then Reaction(l, j, m.value, env).own else []
  }

  /** From every state in step every permitted call makes a possible exchange, already
      with no other goroutine at work, so the histories above exist for all lists of
      calls. */
  lemma EveryCallPossible(l: Link, j: Joint, call: Call, env: Env)
    requires InSync(l, j) && Permitted(j.ports, call) && Undisturbed(l.c, j.s, env)
    ensures Possible(l, j, Step(call, env, OwnEvents(l, j, call, env)))
  {
    hide InSync, Handle, Undisturbed, Command, Permitted;
    InSyncFacts(l, j);
    NothingHeld(l.c, j.s, env);
    var m := Command(l.mode, j.ports, call);
    if m.Some? && Arrival(l, j, m.value).Ok? {
      HandleAlone(l, j.s, Arrival(l, j, m.value).value.message, env);
    }
  }

  /** For every number wanted there is one selection of SIDs, and the call with it is
      possible. */
  lemma StopNPossible(l: Link, j: Joint, n: uint32, env: Env) returns (selected: seq<SID>)
    requires InSync(l, j) && Undisturbed(l.c, j.s, env)
    ensures Permitted(j.ports, StopNSessions(n, selected))
    ensures var call := StopNSessions(n, selected);
            j.s.WellFormed() && l.c in j.s.conns && Possible(l, j, Step(call, env, OwnEvents(l, j, call, env)))
    ensures forall other :: Permitted(j.ports, StopNSessions(n, other)) ==> other == selected
  {
    selected := SelectionExists(j.ports.Keys, n);
    InSyncFacts(l, j);
    EveryCallPossible(l, j, StopNSessions(n, selected), env);
  }

  lemma InSyncFacts(l: Link, j: Joint)
    requires InSync(l, j)
    ensures j.s.WellFormed() && l.c in j.s.conns
  {
  }

  // ---- Port 0 ----

  /** A connection with one session, on the only port of a range that ends at 65535. */
  function OneSession(l: Link, iv: Block, sid: SID): Joint {
    Joint(Endpoint(iv, iv, l.x.secured), Endpoint(iv, iv, l.x.secured), map[sid := 0xffff],
          State({0xffff}, map[sid := 0], [Session(sid, 0xffff, Requested)], map[0 := map[sid := 0]], map[], map[],
                multiset{}))
  }

  lemma OneSessionInSync(l: Link, iv: Block, sid: SID)
    requires l.c == 0
    ensures var j := OneSession(l, iv, sid);
            && InSync(l, j) && PortsAgree(l, j) && j.s.WellFormed()
            && Runs(INITIAL, FirstRequest(sid, 0xffff)) && j.s == Replay(INITIAL, FirstRequest(sid, 0xffff))
  {
    AfterFirstRequest(sid, 0xffff);
    var j := OneSession(l, iv, sid);
    assert ViewOf(j.s, 0).ports == map[sid := 0xffff];
  }

  /** Wherever 0 is granted so, an exchange goes through after which the ports differ. */
  lemma GrantedZeroDiffers(l: Link, j: Joint, call: Call, env: Env)
    requires l.x.p.DecryptInverts() && InSync(l, j) && PortsAgree(l, j)
    requires Permitted(j.ports, call) && Undisturbed(l.c, j.s, env) && !Malformed(l.mode, call)
    ensures var step := Step(call, env, OwnEvents(l, j, call, env));
            && Possible(l, j, step)
            && (GrantsZero(l, j, step) ==>
                  var e := Exchange(l, j, step);
                  e.Continues? && InSync(l, e.j) && !PortsAgree(l, e.j))
  {
    hide InSync, PortsAgree, Possible, Exchange, Undisturbed, Malformed, StaysInSync, Permitted, OwnEvents;
    InSyncFacts(l, j);
    EveryCallPossible(l, j, call, env);
    var step := Step(call, env, OwnEvents(l, j, call, env));
    ExchangeKeepsSync(l, j, step);
    if GrantsZero(l, j, step) {
      StayedFacts(l, j, step, Exchange(l, j, step).j);
    }
  }

  /** The second request on that connection: the port search wraps to 0 and finds it, the
      server grants it, and the client, reading 0 as no port, books its own. */
  lemma PortZeroCounterexample(l: Link, iv: Block, sid: SID, other: SID, config: SessionConfig, pm: PortManager)
    requires l.c == 0 && l.x.p.DecryptInverts() && sid != other
    requires PaddingSent(l.mode, config) <= MaxSenderPadding(l.mode) && config.dscp < 64 && config.receiverPort != 0
    requires pm.minPort == pm.maxPort == 0xffff && pm.usedPorts == {0xffff}
    ensures pm.Finds({0}, Found(0))
    ensures var j := OneSession(l, iv, sid);
            && InSync(l, j) && PortsAgree(l, j)
            && var call, env := RequestSession(config), Env(true, other, Found(0), j.s, [], true, [sid]);
            var step := Step(call, env, OwnEvents(l, j, call, env));
            && Possible(l, j, step)
            && var e := Exchange(l, j, step);
            && e.Continues? && InSync(l, e.j) && !PortsAgree(l, e.j)
  {
    hide Possible, Exchange, InSync, PortsAgree, OwnEvents, Runs, Replay, OneSession;
    var j := OneSession(l, iv, sid);
    OneSessionInSync(l, iv, sid);
    var call, env := RequestSession(config), Env(true, other, Found(0), j.s, [], true, [sid]);
    OneSessionUndisturbed(l, iv, sid, env);
    GrantedZeroDiffers(l, j, call, env);
  }

  lemma OneSessionUndisturbed(l: Link, iv: Block, sid: SID, env: Env)
    requires env.a == Found(0) && env.checked == OneSession(l, iv, sid).s && env.started == [] && env.order == [sid]
    ensures Undisturbed(0, OneSession(l, iv, sid).s, env)
  {
  }
}
