/** The calls of client/client.go over a control channel, each from its command to the
    client's bookkeeping, and how they fit the exchanges of Lockstep. */
module Client {
  import opened Bytes
  import opened TestPackets
  import opened ControlMessages
  import opened ControlChannel
  import opened Server
  import opened SessionMachine
  import opened SidOrder
  import opened Lockstep

  /** A client, with what its connection will still deliver and has been given. */
  datatype ClientState = ClientState(end: Endpoint, ports: map<SID, uint16>, incoming: bytes, outgoing: bytes)

  /** The state after a call that is not cut short by the connection. */
  function AfterCall(x: Protection, mode: TestMode, s: ClientState, call: Call): Option<ClientState>
    requires Permitted(s.ports, call)
  {
    match Command(mode, s.ports, call)
    case None => Some(s)
    case Some(m) =>
      var sent := ClientSend(x, s.end, m);
      var out := s.outgoing + sent.0;
      if call.StopAllSessions? || call.StopNSessions? then
        Some(ClientState(sent.1, Conclude(x, s.ports, call, []).value, s.incoming, out))
      else
        match ClientReceive(x, sent.1, ReplyLength(call), s.incoming)
        case Err(_) => None
        case Ok(answer) =>
          match Conclude(x, s.ports, call, answer.message)
          case Err(_) => None
          case Ok(ports) => Some(ClientState(answer.end, ports, answer.rest, out))
  }

  /** The reply a call will read, if one can be read. */
  function ReplyAtHand(x: Protection, mode: TestMode, s: ClientState, call: Call): Option<bytes>
    requires Permitted(s.ports, call)
  {
    match Command(mode, s.ports, call)
    case None => None
    case Some(m) =>
      match ClientReceive(x, ClientSend(x, s.end, m).1, ReplyLength(call), s.incoming)
      case Err(_) => None
      case Ok(answer) => Some(answer.message)
  }

  /** An acceptance, byte by byte: code 0, and zeros in bytes 1 and 20 to 31. */
  predicate Accepts(b: Option<bytes>) {
    b.Some? && |b.value| == 48 && b.value[0] == 0 && b.value[1] == 0 && forall k :: 20 <= k < 32 ==> b.value[k] == 0
  }

  /** A positive Start-Ack: code 0 and fifteen zeros. */
  predicate Acknowledges(b: Option<bytes>) {
    b.Some? && |b.value| == 32 && b.value[0] == 0 && forall k :: 1 <= k < 16 ==> b.value[k] == 0
  }

  /** What the server writes during an exchange. */
  function ReplyBytes(l: Link, j: Joint, m: bytes, env: Env): bytes
    requires j.s.WellFormed() && l.c in j.s.conns && IsFrame(m)
  {
    var r := Reaction(l, j, m, env);
    if r.Answers? then Respond(l.x, Arrival(l, j, m).value.end, r.reply).0 else []
  }

  predicate Stops(call: Call) {
    call.StopAllSessions? || call.StopNSessions?
  }

  lemma StopsGetNoReply(l: Link, j: Joint, step: Step)
    requires l.x.p.DecryptInverts() && InSync(l, j) && Possible(l, j, step) && Stops(step.call)
    requires Command(l.mode, j.ports, step.call).Some?
    ensures var r := Reaction(l, j, Command(l.mode, j.ports, step.call).value, step.env);
            r.Answers? && r.reply == []
  {
    if step.call.StopAllSessions? {
      StopReaction(l, j, step);
    } else {
      StopNReaction(l, j, step);
    }
  }

  lemma ReturnIsACall(l: Link, client: Endpoint, server: Endpoint, ports: map<SID, uint16>, call: Call, reply: bytes,
                      s: State)
    requires Sendable(reply) && Return(l, client, server, ports, call, reply, s).Continues?
    requires Stops(call) ==> reply == []
    requires l.x.p.DecryptInverts() && Agree(client, server)
    ensures var e := Return(l, client, server, ports, call, reply, s).j;
            if Stops(call) then e.client == client && Conclude(l.x, ports, call, []) == Ok(e.ports)
            else
              && var answer := ClientReceive(l.x, client, ReplyLength(call), Respond(l.x, server, reply).0);
              && answer.Ok? && answer.value.end == e.client
              && Conclude(l.x, ports, call, answer.value.message) == Ok(e.ports)
  {
  }

  /** In an exchange that goes through, the client's side is the client's call, fed with
      what the server writes. */
  lemma ExchangeIsACall(l: Link, j: Joint, step: Step, m: bytes)
    requires l.x.p.DecryptInverts() && InSync(l, j) && Possible(l, j, step) && Exchange(l, j, step).Continues?
    requires Command(l.mode, j.ports, step.call) == Some(m)
    ensures var s := AfterCall(l.x, l.mode, ClientState(j.client, j.ports, ReplyBytes(l, j, m, step.env), []),
                               step.call);
            s.Some? && s.value.end == Exchange(l, j, step).j.client && s.value.ports == Exchange(l, j, step).j.ports
  {
    hide Command, Reaction, Arrival, Conclude, ClientReceive, InSync, Return, Respond, ClientSend;
    InSyncAgrees(l, j, m);
    if Stops(step.call) {
      StopsGetNoReply(l, j, step);
    }
    ReturnIsACall(l, ClientSend(l.x, j.client, m).1, Arrival(l, j, m).value.end, j.ports, step.call,
                  Reaction(l, j, m, step.env).reply, Replay(j.s, step.events));
  }

  lemma InSyncAgrees(l: Link, j: Joint, m: bytes)
    requires l.x.p.DecryptInverts() && InSync(l, j) && IsFrame(m)
    ensures j.s.WellFormed() && l.c in j.s.conns
    ensures Arrival(l, j, m).Ok? && Agree(ClientSend(l.x, j.client, m).1, Arrival(l, j, m).value.end)
  {
    CommandReceived(l, j, m);
  }

  class Client {
    const channel: Channel
    const testMode: TestMode
    var currentSessions: map<SID, uint16>    // SID to the port test packets go to

    constructor (channel: Channel, testMode: TestMode)
      requires channel.Valid()
      ensures Valid() && this.channel == channel && this.testMode == testMode && currentSessions == map[]
    {
      this.channel, this.testMode, currentSessions := channel, testMode, map[];
    }

    ghost predicate Valid()
      reads this, channel
    {
      channel.Valid()
    }

    ghost function Footprint(): set<object>
      reads this
    {
      {this, channel, channel.incoming, channel.outgoing, channel.controlEncrypt, channel.controlDecrypt}
    }

    ghost function State(): ClientState
      reads Footprint()
    {
      ClientState(channel.End(), currentSessions, channel.incoming.data, channel.outgoing.data)
    }

    method Send(m: bytes)
      requires Valid() && IsFrame(m)
      modifies channel.outgoing, channel.controlEncrypt
      ensures Valid()
      ensures var sent := ClientSend(channel.protection, old(channel.End()), m);
              State() == old(State()).(end := sent.1, outgoing := old(channel.outgoing.data) + sent.0)
    {
      var data := new uint8[|m|](i requires 0 <= i < |m| => m[i]);
      assert data[..] == m;
      var err := channel.SendCommand(data);
    }

    method RequestSession(config: SessionConfig) returns (r: Result<SID>)
      requires Valid()
      modifies Footprint()
      ensures Valid()
      ensures var s := AfterCall(channel.protection, testMode, old(State()), Call.RequestSession(config));
              if s.Some? then State() == s.value else r.Err?
      ensures var b := ReplyAtHand(channel.protection, testMode, old(State()), Call.RequestSession(config));
              && (r.Ok? <==> Accepts(b))
              && (r.Ok? ==>
                    && r.value == b.value[4..20]
                    && currentSessions == old(currentSessions)[r.value := ChosenPort(config, Uint16(b.value[2..4]))])
      ensures r.Err? ==> currentSessions == old(currentSessions)
    {
      hide ClientSend, ClientReceive, EncodeRequest, DecodeAccept, BuildRequest, Uint16;
      var request := BuildRequest(testMode, config, CMD_REQUEST_TW_SESSION, ZERO_SID);
      ghost var m := Command(testMode, currentSessions, Call.RequestSession(config));
      Send(EncodeRequest(request, false));
      var reply := channel.ReceiveAndVerify(48);
      if reply.Err? {
        return Err(reply.error);
      }
      AllZeroIsZeros(reply.value[32..]);
      AcceptsRead(reply.value, channel.protection.secured);
      var accept := DecodeAccept(reply.value, channel.protection.secured);
      if accept.Err? {
        return Err(accept.error);
      }
      if accept.value.accept != ACCEPT_OK {
        return Err(ServerRejected);
      }
      currentSessions := currentSessions[accept.value.sid := ChosenPort(config, accept.value.port)];
      return Ok(accept.value.sid);
    }

    method RequestSessionIndividual(config: SessionConfig, sid: SID) returns (r: Result<SID>)
      requires Valid()
      modifies Footprint()
      ensures Valid()
      ensures var s := AfterCall(channel.protection, testMode, old(State()),
                                 Call.RequestSessionIndividual(config, sid));
              if s.Some? then State() == s.value else r.Err?
      ensures sid in old(currentSessions) ==> r == Err(SessionConflict) && State() == old(State())
      ensures var b := ReplyAtHand(channel.protection, testMode, old(State()),
                                   Call.RequestSessionIndividual(config, sid));
              && (r.Ok? <==> Accepts(b) && b.value[4..20] == sid)
              && (r.Ok? ==>
                    && r.value == sid && sid !in old(currentSessions)
                    && currentSessions == old(currentSessions)[sid := ChosenPort(config, Uint16(b.value[2..4]))])
      ensures r.Err? ==> currentSessions == old(currentSessions)
    {
      hide ClientSend, ClientReceive, EncodeRequest, DecodeAccept, BuildRequest, Uint16;
      if sid in currentSessions {
        return Err(SessionConflict);
      }
      var request := BuildRequest(testMode, config, CMD_REQUEST_TW_SESSION_INDIVIDUAL, sid);
      ghost var m := Command(testMode, currentSessions, Call.RequestSessionIndividual(config, sid));
      Send(EncodeIndividual(request, false));
      var reply := channel.ReceiveAndVerify(48);
      if reply.Err? {
        return Err(reply.error);
      }
      AllZeroIsZeros(reply.value[32..]);
      AcceptsRead(reply.value, channel.protection.secured);
      var accept := DecodeAccept(reply.value, channel.protection.secured);
      if accept.Err? {
        return Err(accept.error);
      }
      if accept.value.accept != ACCEPT_OK || accept.value.sid != sid {
        return Err(ServerRejected);
      }
      currentSessions := currentSessions[sid := ChosenPort(config, accept.value.port)];
      return Ok(sid);
    }

    method StartSessions() returns (err: Option<Error>)
      requires Valid()
      modifies Footprint()
      ensures Valid() && currentSessions == old(currentSessions)
      ensures var s := AfterCall(channel.protection, testMode, old(State()), Call.StartSessions);
              if s.Some? then State() == s.value else err.Some?
      ensures old(currentSessions) == map[] ==> err == Some(NoSessionsToStart) && State() == old(State())
      ensures err == None <==>
                Acknowledges(ReplyAtHand(channel.protection, testMode, old(State()), Call.StartSessions))
    {
      hide ClientSend, ClientReceive, EncodeShort, DecodeShort;
      if currentSessions == map[] {
        return Some(NoSessionsToStart);
      }
      ghost var m := Command(testMode, currentSessions, Call.StartSessions);
      Send(EncodeShort(Short(CMD_START_SESSIONS, Zeros(16)), false));
      var reply := channel.ReceiveAndVerify(32);
      if reply.Err? {
        return Some(reply.error);
      }
      AllZeroIsZeros(reply.value[16..]);
      ShortsRead(reply.value, channel.protection.secured);
      var ack := DecodeShort(reply.value, channel.protection.secured);
      if ack.Err? {
        return Some(ack.error);
      }
      return if ack.value.code == ACCEPT_OK then None else Some(ServerRejected);
    }

    method StopSessions()
      requires Valid()
      modifies Footprint()
      ensures Valid() && currentSessions == map[]
      ensures Some(State()) == AfterCall(channel.protection, testMode, old(State()), Call.StopAllSessions)
    {
      if currentSessions == map[] {
        return;
      }
      ghost var m := Command(testMode, currentSessions, Call.StopAllSessions);
      Send(EncodeStop(StopAll(currentSessions), false));
      currentSessions := map[];
    }

    /** The least SIDs in sorted order, as many as wanted and available. */
    method StopNSessions(numSessions: uint32) returns (ghost chosen: seq<SID>)
      requires Valid()
      modifies Footprint()
      ensures Valid() && Selects(old(currentSessions).Keys, numSessions, chosen)
      ensures currentSessions == old(currentSessions) - SidSet(chosen)
      ensures Some(State()) == AfterCall(channel.protection, testMode, old(State()),
                                         Call.StopNSessions(numSessions, chosen))
    {
      hide ClientSend, EncodeStopN, Selects;
      var selected := LeastSessions(numSessions);
      ghost var m := Command(testMode, currentSessions, Call.StopNSessions(numSessions, selected));
      Send(EncodeStopN(StopSelected(selected), false));
      Drop(selected);
      chosen := selected;
    }

    /** The sorted SIDs, cut to the number wanted. */
    method LeastSessions(numSessions: uint32) returns (selected: seq<SID>)
      ensures Selects(currentSessions.Keys, numSessions, selected) && |selected| < TWO32
    {
      var sessionIDs := SortedSids(currentSessions.Keys);
      var stopCount: int := numSessions;
      if stopCount > |sessionIDs| {
        stopCount := |sessionIDs|;
      }
      selected := sessionIDs[..stopCount];
      CutSelects(sessionIDs, currentSessions.Keys, numSessions);
    }

    /** The loop that takes the stopped sessions off the client's list. */
    method Drop(selected: seq<SID>)
      modifies this`currentSessions
      ensures currentSessions == old(currentSessions) - SidSet(selected)
    {
      assert currentSessions - {} == currentSessions;
      for i := 0 to |selected|
        invariant currentSessions == old(currentSessions) - SidSet(selected[..i])
      {
        currentSessions := currentSessions - {selected[i]};
        assert SidSet(selected[..i + 1]) == SidSet(selected[..i]) + {selected[i]};
      }
      assert selected[..|selected|] == selected;
    }
  }
}
