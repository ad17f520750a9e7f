/** The command handlers of server/server.go, run one after the other.  Each is proved
    to perform a sequence of events of the session machine, so everything proved about
    runs of that machine holds of the handlers too. */
module Server {
  import opened Bytes
  import opened ControlMessages
  import opened TestPackets
  import opened PortPool
  import opened SessionMachine
  import opened ConnectionView
  import opened Supervision

  // ---- What a handler decides ----

  /** The surroundings of a session request: how the connection is secured, whether an
      unsecured receiver address is acceptable, and the randomly drawn SID. */
  datatype Surroundings = Surroundings(
    authenticated: bool, receiverAllowed: bool, testMode: TestMode, randomSid: SID)

  /** Requests turned down before a port is allocated. */
  predicate Refused(request: Request, individual: bool, w: Surroundings) {
    || (!individual && request.sid != ZERO_SID)
    || request.confSender != 0 || request.confReceiver != 0
    || (!w.authenticated && !w.receiverAllowed)
    || request.paddingLength > MaxSenderPadding(w.testMode)
  }

  function Reject(code: uint8): AcceptSession {
    AcceptSession(code, 0, ZERO_SID, Zeros(16))
  }

  function RequestedSid(request: Request, individual: bool, w: Surroundings): SID {
    if individual then request.sid else w.randomSid
  }

  predicate Granted(s: State, request: Request, individual: bool, w: Surroundings, a: Allocation) {
    !Refused(request, individual, w) && a.Found? && !(individual && request.sid in s.table)
  }

  function RequestReply(s: State, request: Request, individual: bool, w: Surroundings, a: Allocation): AcceptSession {
    if Refused(request, individual, w) then Reject(ACCEPT_NOT_SUPPORTED)
    else if !a.Found? then Reject(ACCEPT_TEMP_RES_LIMITED)
    else if individual && request.sid in s.table then Reject(ACCEPT_FAILURE)
    else AcceptSession(ACCEPT_OK, a.port, RequestedSid(request, individual, w), Zeros(16))
  }

  /** Which requests are turned down before a port is looked for. */
  lemma RefusedExactly(request: Request, individual: bool, w: Surroundings)
    ensures Refused(request, individual, w) <==>
              || (!individual && request.sid != Zeros(16))
              || request.confSender != 0 || request.confReceiver != 0
              || (!w.authenticated && !w.receiverAllowed)
              || SenderBase(w.testMode) + request.paddingLength > 2048
  {
  }

  /** The codes of the replies: 3 for what the server does not support, 5 for want of a
      port, 1 for a client's SID in use, 0 for none of these. */
  lemma RepliesExactly(s: State, request: Request, individual: bool, w: Surroundings, a: Allocation)
    ensures var code := RequestReply(s, request, individual, w, a).accept;
            var unsupported := || (!individual && request.sid != Zeros(16))
                               || request.confSender != 0 || request.confReceiver != 0
                               || (!w.authenticated && !w.receiverAllowed)
                               || SenderBase(w.testMode) + request.paddingLength > 2048;
            && (code == 3 <==> unsupported)
            && (code == 5 <==> !unsupported && !a.Found?)
            && (code == 1 <==> !unsupported && a.Found? && individual && request.sid in s.table)
            && (code == 0 <==> !unsupported && a.Found? && (individual ==> request.sid !in s.table))
  {
  }

  /** A reply accepts exactly when a session was created, and then names the session and
      the port that the server now lists; every other reply carries a zero port and a
      zero SID, and the server is as before. */
  lemma RequestOutcome(s: State, c: ConnId, request: Request, individual: bool, w: Surroundings, a: Allocation)
    requires s.WellFormed() && c in s.conns
    ensures var reply := RequestReply(s, request, individual, w, a);
            var t := RequestEffect(s, c, request, individual, w, a);
            if reply.accept == ACCEPT_OK then
              && reply.sid in t.table && t.table[reply.sid] == |s.heap| == |t.heap| - 1
              && t.heap[|s.heap|] == Session(reply.sid, reply.port, Requested)
              && reply.sid in t.conns[c] && t.conns[c][reply.sid] == |s.heap|
              && t.used == s.used + {reply.port}
            else
              t == s && reply.port == 0 && reply.sid == ZERO_SID
                && reply.accept in {ACCEPT_NOT_SUPPORTED, ACCEPT_TEMP_RES_LIMITED, ACCEPT_FAILURE}
  {
  }

  function RequestEvents(s: State, c: ConnId, request: Request, individual: bool, w: Surroundings,
                         a: Allocation): seq<Event> {
    if Refused(request, individual, w) || !a.Found? then []
    else if individual && request.sid in s.table then [Allocate(c, a.port), GiveBack(c)]
    else [Allocate(c, a.port), Publish(c, RequestedSid(request, individual, w))]
  }

  lemma {:induction false} CleanConcat(s: State, a: seq<Event>, b: seq<Event>)
    requires s.WellFormed() && Runs(s, a) && CleanRun(s, a) && Runs(Replay(s, a), b) && CleanRun(Replay(s, a), b)
    ensures Runs(s, a + b) && CleanRun(s, a + b)
    decreases |a|
  {
    hide Next, Enabled, Clean;
    if a == [] {
      assert a + b == b;
    } else {
      var c := a + b;
      assert c[0] == a[0] && c[1..] == a[1..] + b;
      CleanConcat(Next(s, a[0]), a[1..], b);
    }
  }

  function StopEvents(s: State, id: Id): seq<Event>
    requires id < |s.heap|
  {
    if s.heap[id].life == Active then [Swap(0, id), RemoveSid(0), ReleasePort(0)] else [Swap(0, id)]
  }

  /** A stopSession call running alone: the session ends stopped, unlisted and without
      its port, or nothing happens. */
  function StopEffect(s: State, id: Id): State
    requires id < |s.heap|
  {
    var x := s.heap[id];
    if x.life == Active then
      s.(heap := s.heap[id := x.(life := Stopped)], table := s.table - {x.sid},
         used := s.used - {x.port}, released := s.released + multiset{id})
    else
      s
  }

  lemma StopRuns(s: State, id: Id)
    requires s.WellFormed() && id < |s.heap| && s.stops == map[]
    ensures Runs(s, StopEvents(s, id)) && CleanRun(s, StopEvents(s, id))
    ensures Replay(s, StopEvents(s, id)) == StopEffect(s, id)
  {
    OnlyStopsClean(s, StopEvents(s, id));
    if s.heap[id].life == Active {
      ThreeSteps(s, Swap(0, id), RemoveSid(0), ReleasePort(0));
    } else {
      RunSnoc(s, [], Swap(0, id));
      assert [] + [Swap(0, id)] == [Swap(0, id)];
    }
  }

  /** Several stopSession calls one after the other. */
  function StopAllEffect(s: State, ids: seq<Id>): (r: State)
    requires forall i :: 0 <= i < |ids| ==> ids[i] < |s.heap|
    ensures |r.heap| == |s.heap| && r.conns == s.conns && r.stops == s.stops && r.holding == s.holding
    decreases |ids|
  {
    if ids == [] then s else StopEffect(StopAllEffect(s, ids[..|ids| - 1]), ids[|ids| - 1])
  }

  lemma StopNone(s: State)
    ensures StopAllEffect(s, []) == s
  {
  }

  lemma StopAllSnoc(s: State, ids: seq<Id>, i: nat)
    requires i < |ids| && forall k :: 0 <= k < |ids| ==> ids[k] < |s.heap|
    ensures StopAllEffect(s, ids[..i + 1]) == StopEffect(StopAllEffect(s, ids[..i]), ids[i])
  {
    assert ids[..i + 1][..i] == ids[..i];
  }

  lemma {:induction false} StopAllRuns(s: State, ids: seq<Id>) returns (events: seq<Event>)
    requires s.WellFormed() && s.stops == map[]
    requires forall i :: 0 <= i < |ids| ==> ids[i] < |s.heap|
    ensures Runs(s, events) && CleanRun(s, events) && Replay(s, events) == StopAllEffect(s, ids)
    decreases |ids|
  {
    if ids == [] {
      events := [];
    } else {
      var n := |ids| - 1;
      var first := StopAllRuns(s, ids[..n]);
      var t := Replay(s, first);
      StopRuns(t, ids[n]);
      RunConcat(s, first, StopEvents(t, ids[n]));
      CleanConcat(s, first, StopEvents(t, ids[n]));
      events := first + StopEvents(t, ids[n]);
    }
  }

  /** Stopping any sessions any number of times leaves each listed one stopped unless
      it was never started, and touches no other. */
  lemma {:induction false} StopAllLives(s: State, ids: seq<Id>, id: Id)
    requires forall i :: 0 <= i < |ids| ==> ids[i] < |s.heap|
    requires id < |s.heap|
    ensures StopAllEffect(s, ids).heap[id] ==
            if id in ids && s.heap[id].life == Active then s.heap[id].(life := Stopped) else s.heap[id]
    decreases |ids|
  {
    if ids != [] {
      var n := |ids| - 1;
      StopAllLives(s, ids[..n], id);
      assert ids == ids[..n] + [ids[n]];
    }
  }

  function KeepEffect(s: State, c: ConnId, sid: SID, id: Id): State
    requires c in s.conns
  {
    var mine: map<SID, Id> := s.conns[c];
    s.(conns := s.conns[c := mine[sid := id]])
  }

  /** A port is taken and a new session on it stands in both maps. */
  function PublishEffect(s: State, c: ConnId, sid: SID, port: uint16): State
    requires c in s.conns
  {
    KeepEffect(s.(used := s.used + {port}, table := s.table[sid := |s.heap|],
                  heap := s.heap + [Session(sid, port, Requested)]), c, sid, |s.heap|)
  }

  /** The state after a session request. */
  function RequestEffect(s: State, c: ConnId, request: Request, individual: bool, w: Surroundings, a: Allocation): State
    requires c in s.conns
  {
    if !Granted(s, request, individual, w, a) then s else
      PublishEffect(s, c, RequestedSid(request, individual, w), a.port)
  }

  lemma PublishedBySteps(s: State, c: ConnId, sid: SID, port: uint16)
    requires s.WellFormed() && c in s.conns && s.holding == map[] && port !in s.used
    ensures Next(Next(s, Allocate(c, port)), Publish(c, sid)) == PublishEffect(s, c, sid, port)
  {
  }

  lemma GivenBack(s: State, c: ConnId, port: uint16)
    requires s.WellFormed() && c in s.conns && s.holding == map[] && port !in s.used
    ensures Next(Next(s, Allocate(c, port)), GiveBack(c)) == s
  {
  }

  lemma RequestRuns(s: State, c: ConnId, request: Request, individual: bool, w: Surroundings, a: Allocation)
    requires s.WellFormed() && c in s.conns && s.holding == map[]
    requires a.Found? ==> a.port !in s.used
    ensures var events := RequestEvents(s, c, request, individual, w, a);
            && Runs(s, events) && Replay(s, events) == RequestEffect(s, c, request, individual, w, a)
            && (individual || w.randomSid !in s.table ==> CleanRun(s, events))
  {
    hide Refused;
    var events := RequestEvents(s, c, request, individual, w, a);
    if events != [] {
      var sid := RequestedSid(request, individual, w);
      TwoSteps(s, events[0], events[1]);
      assert events == [events[0], events[1]];
      if events[1].Publish? {
        PublishedBySteps(s, c, sid, a.port);
      } else {
        GivenBack(s, c, a.port);
      }
    }
  }

  /** A request keeps the ownership invariant exactly when a randomly drawn SID is not
      one the table lists. */
  lemma RequestKeepsInv(s: State, c: ConnId, request: Request, individual: bool, w: Surroundings, a: Allocation)
    requires Inv(s) && c in s.conns && s.holding == map[]
    requires a.Found? ==> a.port !in s.used
    ensures Inv(RequestEffect(s, c, request, individual, w, a)) <==>
              !Granted(s, request, individual, w, a) || individual || w.randomSid !in s.table
  {
    RequestRuns(s, c, request, individual, w, a);
    var events := RequestEvents(s, c, request, individual, w, a);
    if individual || w.randomSid !in s.table {
      CleanRunKeepsInv(s, events);
    } else if Granted(s, request, individual, w, a) {
      StepKeepsInv(s, events[0]);
      var t := Next(s, events[0]);
      RepublishBreaks(t, c, w.randomSid);
      PublishedBySteps(s, c, w.randomSid, a.port);
    }
  }

  /** The race on a client-chosen SID, handler by handler: on each of two connections
      the duplicate check sees a table without the SID, so each handler allocates and
      publishes, and ownership is lost. */
  lemma DuplicateSidRace(sid: SID, p: uint16, q: uint16, r: Request, t: Request, w: Surroundings)
    requires p != q && r.sid == t.sid == sid && !Refused(r, true, w) && !Refused(t, true, w)
    ensures var events := RaceToCheck(p, q) + RaceToPublish(sid);
            && Runs(INITIAL, RaceToCheck(p, q)) && Runs(INITIAL, events)
            && var checked := Replay(INITIAL, RaceToCheck(p, q));
            && Mine(0, events) == [Connect(0)] + RequestEvents(checked, 0, r, true, w, Found(p))
            && Mine(1, events) == [Connect(1)] + RequestEvents(checked, 1, t, true, w, Found(q))
            && !Inv(Replay(INITIAL, events))
  {
    hide Refused, Mine, Runs, Replay, RaceToCheck, RaceToPublish, PortsOwned, ReleasedOnce, StopsExact, Filed;
    DuplicateSidCounterexample(sid, p, q);
    RaceParts(0, sid, p, q);
    RaceParts(1, sid, p, q);
    var s := Replay(INITIAL, RaceToCheck(p, q) + RaceToPublish(sid));
    assert !Listed(s, 0) && s.heap[0].life == Requested;
  }

  lemma RaceParts(c: ConnId, sid: SID, p: uint16, q: uint16)
    requires c in {0, 1}
    ensures Mine(c, RaceToCheck(p, q) + RaceToPublish(sid))
            == [Connect(c)] + ([Allocate(c, if c == 0 then p else q)] + [Publish(c, sid)])
  {
    assert RaceToCheck(p, q) == [Connect(0), Connect(1)] + [Allocate(0, p), Allocate(1, q)];
    MineTwo(c, Connect(0), Connect(1));
    MineTwo(c, Allocate(0, p), Allocate(1, q));
    MineTwo(c, Publish(0, sid), Publish(1, sid));
    MineConcat(c, [Connect(0), Connect(1)], [Allocate(0, p), Allocate(1, q)]);
    MineConcat(c, RaceToCheck(p, q), RaceToPublish(sid));
  }

  /** Stop-N-Sessions drops the listed sessions the connection has, each once. */
  function Dropped(mine: map<SID, TestSession>, sids: seq<SID>): (r: seq<TestSession>)
    ensures forall x :: x in r ==> x in mine.Values
  {
    if sids == [] then [] else
      var last := sids[|sids| - 1];
      var before := Dropped(mine, sids[..|sids| - 1]);
      if last in mine && last !in sids[..|sids| - 1] then before + [mine[last]] else before
  }

  /** The state after a connection has dropped some of its sessions. */
  function ForgetEffect(s: State, c: ConnId, gone: set<SID>): State
    requires c in s.conns
  {
    s.(conns := s.conns[c := s.conns[c] - gone])
  }

  lemma ForgetTwice(s: State, c: ConnId, a: set<SID>, b: set<SID>)
    requires c in s.conns
    ensures ForgetEffect(ForgetEffect(s, c, a), c, b) == ForgetEffect(s, c, a + b)
    ensures ForgetEffect(s, c, {}) == s
  {
    assert s.conns[c] - a - b == s.conns[c] - (a + b);
    assert s.conns[c] - {} == s.conns[c];
    assert s.conns[c := s.conns[c]] == s.conns;
  }

  function SidSet(sids: seq<SID>): set<SID> {
    set sid | sid in sids
  }

  predicate Distinct(sids: seq<SID>) {
    forall i, j :: 0 <= i < j < |sids| ==> sids[i] != sids[j]
  }

  lemma ForgetStep(s: State, c: ConnId, sid: SID)
    requires s.WellFormed() && s.holding == map[] && c in s.conns && sid in s.conns[c]
    ensures Enabled(s, Forget(c, sid)) && Clean(s, Forget(c, sid))
    ensures Next(s, Forget(c, sid)) == ForgetEffect(s, c, {sid})
  {
  }

  /** Dropping a connection's sessions one by one. */
  lemma {:induction false} ForgetRuns(s: State, c: ConnId, sids: seq<SID>)
    requires s.WellFormed() && s.holding == map[] && c in s.conns
    requires Distinct(sids) && forall x :: x in sids ==> x in s.conns[c]
    ensures Runs(s, ForgetEvents(c, sids)) && CleanRun(s, ForgetEvents(c, sids))
    ensures Replay(s, ForgetEvents(c, sids)) == ForgetEffect(s, c, SidSet(sids))
    decreases |sids|
  {
    hide Next, Enabled, Clean;
    if sids == [] {
      ForgetTwice(s, c, {}, {});
      assert SidSet([]) == {};
    } else {
      ForgetStep(s, c, sids[0]);
      var t := Next(s, Forget(c, sids[0]));
      assert ForgetEvents(c, sids)[1..] == ForgetEvents(c, sids[1..]);
      forall x | x in sids[1..] ensures x in t.conns[c] {
        var i :| 0 <= i < |sids| - 1 && sids[1..][i] == x;
        assert sids[0] != sids[i + 1];
      }
      ForgetRuns(t, c, sids[1..]);
      assert SidSet(sids) == {sids[0]} + SidSet(sids[1..]);
      ForgetTwice(s, c, {sids[0]}, SidSet(sids[1..]));
    }
  }

  /** Each listed session the connection still has, once. */
  function FirstOf(mine: set<SID>, sids: seq<SID>): seq<SID> {
    if sids == [] then [] else
      (if sids[0] in mine then [sids[0]] else []) + FirstOf(mine - {sids[0]}, sids[1..])
  }

  lemma {:induction false} FirstOfSet(mine: set<SID>, sids: seq<SID>)
    ensures SidSet(FirstOf(mine, sids)) == mine * SidSet(sids)
    decreases |sids|
  {
    if sids != [] {
      var rest := FirstOf(mine - {sids[0]}, sids[1..]);
      FirstOfSet(mine - {sids[0]}, sids[1..]);
      assert SidSet(sids) == {sids[0]} + SidSet(sids[1..]);
      if sids[0] in mine {
        assert SidSet([sids[0]] + rest) == {sids[0]} + SidSet(rest);
      } else {
        assert [] + rest == rest;
      }
    }
  }

  lemma {:induction false} FirstOfDistinct(mine: set<SID>, sids: seq<SID>)
    ensures Distinct(FirstOf(mine, sids))
    decreases |sids|
  {
    if sids != [] {
      var rest := FirstOf(mine - {sids[0]}, sids[1..]);
      FirstOfDistinct(mine - {sids[0]}, sids[1..]);
      FirstOfSet(mine - {sids[0]}, sids[1..]);
      forall i | 0 <= i < |rest| ensures rest[i] != sids[0] {
        assert rest[i] in SidSet(rest);
      }
    }
  }

  /** What Stop-N-Sessions amounts to is dropping each listed session it finds, once. */
  lemma StopNRuns(s: State, c: ConnId, sids: seq<SID>)
    requires s.WellFormed() && s.holding == map[] && c in s.conns
    ensures var events := ForgetEvents(c, FirstOf(s.conns[c].Keys, sids));
            Runs(s, events) && CleanRun(s, events) && Replay(s, events) == ForgetEffect(s, c, SidSet(sids))
  {
    hide FirstOf, ForgetEvents, Next, Enabled, Runs, CleanRun, Replay;
    var first := FirstOf(s.conns[c].Keys, sids);
    FirstOfSet(s.conns[c].Keys, sids);
    FirstOfDistinct(s.conns[c].Keys, sids);
    assert forall x :: x in first ==> x in SidSet(first);
    ForgetRuns(s, c, first);
    assert s.conns[c] - SidSet(first) == s.conns[c] - SidSet(sids);
  }

  function StartEvents(c: ConnId, sids: seq<SID>): seq<Event> {
    seq(|sids|, i requires 0 <= i < |sids| => Start(c, sids[i]))
  }

  lemma OneMore(s: State, c: ConnId, mine: map<SID, TestSession>, sids: seq<SID>, i: nat)
    requires c in s.conns && i < |sids|
    ensures ForgetEffect(ForgetEffect(s, c, SidSet(sids[..i])), c, {sids[i]})
              == ForgetEffect(s, c, SidSet(sids[..i + 1]))
    ensures mine - SidSet(sids[..i]) - {sids[i]} == mine - SidSet(sids[..i + 1])
    ensures Dropped(mine, sids[..i + 1]) ==
            Dropped(mine, sids[..i]) + if sids[i] in mine - SidSet(sids[..i]) then [mine[sids[i]]] else []
  {
    assert sids[..i + 1][..i] == sids[..i];
    assert SidSet(sids[..i + 1]) == SidSet(sids[..i]) + {sids[i]};
    ForgetTwice(s, c, SidSet(sids[..i]), {sids[i]});
  }

  lemma Append3(a: seq<TestSession>, b: seq<TestSession>, c: seq<TestSession>)
    ensures a + b + c == a + (b + c)
  {
  }

  /** Sessions of one connection started one after the other. */
  function StartEffect(s: State, c: ConnId, sids: seq<SID>): (r: State)
    requires s.WellFormed() && c in s.conns && forall x :: x in sids ==> x in s.conns[c]
    ensures r == s.(heap := r.heap) && |r.heap| == |s.heap|
    decreases |sids|
  {
    if sids == [] then s else
      SetLife(StartEffect(s, c, sids[..|sids| - 1]), s.conns[c][sids[|sids| - 1]], Active)
  }

  lemma StartSnoc(s: State, c: ConnId, sids: seq<SID>, sid: SID)
    requires s.WellFormed() && c in s.conns && sid in s.conns[c] && forall x :: x in sids ==> x in s.conns[c]
    ensures StartEffect(s, c, sids + [sid]) == SetLife(StartEffect(s, c, sids), s.conns[c][sid], Active)
  {
    assert (sids + [sid])[..|sids|] == sids;
  }

  lemma StartStep(s: State, c: ConnId, sid: SID)
    requires s.WellFormed() && s.holding == map[] && c in s.conns && sid in s.conns[c]
    ensures Enabled(s, Start(c, sid)) && Next(s, Start(c, sid)) == SetLife(s, s.conns[c][sid], Active)
    ensures s.heap[s.conns[c][sid]].life != Stopped ==> Clean(s, Start(c, sid))
  {
  }

  lemma {:induction false} StartRuns(s: State, c: ConnId, sids: seq<SID>)
    requires s.WellFormed() && s.holding == map[]
    requires c in s.conns && forall x :: x in sids ==> x in s.conns[c]
    ensures Runs(s, StartEvents(c, sids)) && Replay(s, StartEvents(c, sids)) == StartEffect(s, c, sids)
    decreases |sids|
  {
    hide Next, Enabled;
    if sids != [] {
      var n := |sids| - 1;
      StartRuns(s, c, sids[..n]);
      StartStep(StartEffect(s, c, sids[..n]), c, sids[n]);
      RunSnoc(s, StartEvents(c, sids[..n]), Start(c, sids[n]));
      assert StartEvents(c, sids[..n]) + [Start(c, sids[n])] == StartEvents(c, sids);
    }
  }

  /** A session ends up active when it is among those started. */
  lemma {:induction false} StartLives(s: State, c: ConnId, sids: seq<SID>, id: Id)
    requires s.WellFormed() && c in s.conns && id < |s.heap| && forall x :: x in sids ==> x in s.conns[c]
    ensures StartEffect(s, c, sids).heap[id] ==
            if exists x :: x in sids && s.conns[c][x] == id then s.heap[id].(life := Active) else s.heap[id]
    decreases |sids|
  {
    if sids != [] {
      var n := |sids| - 1;
      StartLives(s, c, sids[..n], id);
      assert sids == sids[..n] + [sids[n]];
    }
  }

  lemma {:induction false} StartClean(s: State, c: ConnId, sids: seq<SID>)
    requires s.WellFormed() && s.holding == map[] && c in s.conns
    requires forall x :: x in sids ==> x in s.conns[c] && s.heap[s.conns[c][x]].life != Stopped
    ensures Runs(s, StartEvents(c, sids)) && CleanRun(s, StartEvents(c, sids))
    decreases |sids|
  {
    hide Next, Enabled, Clean;
    StartRuns(s, c, sids);
    if sids != [] {
      StartStep(s, c, sids[0]);
      var t := Next(s, Start(c, sids[0]));
      assert StartEvents(c, sids)[1..] == StartEvents(c, sids[1..]);
      StartClean(t, c, sids[1..]);
    }
  }

  /** Start-Sessions keeps the ownership invariant exactly when none of the sessions it
      starts has been stopped before. */
  lemma StartKeepsInv(s: State, c: ConnId, sids: seq<SID>)
    requires Inv(s) && s.stops == map[] && s.holding == map[]
    requires c in s.conns && forall x :: x in sids ==> x in s.conns[c]
    ensures Inv(StartEffect(s, c, sids)) <==> forall x :: x in sids ==> s.heap[s.conns[c][x]].life != Stopped
  {
    if forall x :: x in sids ==> s.heap[s.conns[c][x]].life != Stopped {
      StartRuns(s, c, sids);
      StartClean(s, c, sids);
      CleanRunKeepsInv(s, StartEvents(c, sids));
    } else {
      var x :| x in sids && s.heap[s.conns[c][x]].life == Stopped;
      var id, t := s.conns[c][x], StartEffect(s, c, sids);
      StartLives(s, c, sids, id);
      assert !Stopping(s, id) && id in s.released;
      assert t.heap[id].life == Active && id in t.released;
    }
  }

  // ---- No handler forgets a session at work ----

  /** Connections in order, and every active session listed by one or with a timer. */
  ghost predicate Supervises(s: State, armed: set<Id>) {
    s.WellFormed() && Filed(s) && Watched(s, armed)
  }

  lemma StopSupervises(s: State, id: Id, a: set<Id>, b: set<Id>)
    requires id < |s.heap| && a - {id} <= b
    ensures Supervises(s, a) ==> Supervises(StopEffect(s, id), b)
  {
    hide Filed;
    var t := StopEffect(s, id);
    if Supervises(s, a) {
      FiledWhenFewer(s, t);
      StaysWatched(s, t, a, b);
    }
  }

  /** Sessions that are at work after a change were so before, and are still listed. */
  lemma StaysWatched(s: State, t: State, a: set<Id>, b: set<Id>)
    requires Watched(s, a) && |s.heap| == |t.heap|
    requires forall x :: 0 <= x < |t.heap| && t.heap[x].life == Active && x !in b ==>
               s.heap[x].life == Active && x !in a && forall c :: ListedBy(s, c, x) ==> ListedBy(t, c, x)
    ensures Watched(t, b)
  {
    forall x | 0 <= x < |t.heap| && t.heap[x].life == Active ensures x in b || exists c :: ListedBy(t, c, x) {
      if x !in b {
        var c :| ListedBy(s, c, x);
        assert ListedBy(t, c, x);
      }
    }
  }

  lemma {:induction false} StopAllSupervises(s: State, ids: seq<Id>, a: set<Id>)
    requires forall i :: 0 <= i < |ids| ==> ids[i] < |s.heap|
    ensures Supervises(s, a) ==> Supervises(StopAllEffect(s, ids), a)
    decreases |ids|
  {
    hide Supervises, StopEffect;
    if ids != [] {
      StopAllSupervises(s, ids[..|ids| - 1], a);
      StopSupervises(StopAllEffect(s, ids[..|ids| - 1]), ids[|ids| - 1], a, a);
    }
  }

  /** A connection may drop the sessions whose timers run. */
  lemma ForgetSupervises(s: State, c: ConnId, gone: set<SID>, a: set<Id>, b: set<Id>)
    requires c in s.conns && a <= b
    requires forall sid :: sid in gone && sid in s.conns[c] ==> s.conns[c][sid] in b
    ensures Supervises(s, a) ==> Supervises(ForgetEffect(s, c, gone), b)
  {
    hide Filed;
    var t := ForgetEffect(s, c, gone);
    if Supervises(s, a) {
      FiledWhenFewer(s, t);
      StaysWatched(s, t, a, b);
    }
  }

  lemma StartSupervises(s: State, c: ConnId, sids: seq<SID>, a: set<Id>)
    requires s.WellFormed() && c in s.conns && forall x :: x in sids ==> x in s.conns[c]
    ensures Supervises(s, a) ==> Supervises(StartEffect(s, c, sids), a)
  {
    hide StartEffect;
    var t := StartEffect(s, c, sids);
    forall id | 0 <= id < |s.heap|
      ensures t.heap[id].sid == s.heap[id].sid
      ensures t.heap[id] == s.heap[id] || exists x :: x in sids && s.conns[c][x] == id
    {
      StartLives(s, c, sids, id);
    }
    if Supervises(s, a) {
      FiledWhenFewer(s, t);
      forall id | 0 <= id < |t.heap| && t.heap[id].life == Active ensures id in a || exists d :: ListedBy(t, d, id) {
        if t.heap[id] != s.heap[id] {
          assert ListedBy(t, c, id);
        } else if id !in a {
          var d :| ListedBy(s, d, id);
          assert ListedBy(t, d, id);
        }
      }
    }
  }

  lemma PublishSupervises(s: State, c: ConnId, sid: SID, port: uint16, a: set<Id>)
    requires c in s.conns && s.holding == map[]
    ensures Inv(s) && Supervises(s, a) && port !in s.used && sid !in s.table ==>
              Supervises(PublishEffect(s, c, sid, port), a)
  {
    hide PublishEffect, PortsOwned, ReleasedOnce, TableExact, StopsExact, Filed, Watched, Orderly;
    if Inv(s) && Supervises(s, a) && port !in s.used && sid !in s.table {
      var t := Next(s, Allocate(c, port));
      StepKeepsInv(s, Allocate(c, port));
      EventOrderly(s, a, Allocate(c, port));
      StepKeepsWatched(s, a, Allocate(c, port));
      CleanPublishOrderly(t, a, c, sid);
      StepKeepsWatched(t, a, Publish(c, sid));
      StepKeepsFiled(t, Publish(c, sid));
      PublishedBySteps(s, c, sid, port);
    }
  }

  lemma ConnectSupervises(s: State, c: ConnId, a: set<Id>)
    requires s.WellFormed() && c !in s.conns
    ensures Supervises(s, a) ==> Supervises(Next(s, Connect(c)), a)
  {
    if Supervises(s, a) {
      StepKeepsWatched(s, a, Connect(c));
      StepKeepsFiled(s, Connect(c));
    }
  }

  /** A connection may go when its sessions have been stopped. */
  lemma CloseSupervises(s: State, c: ConnId, ids: seq<Id>, a: set<Id>)
    requires s.WellFormed() && s.holding == map[] && forall i :: 0 <= i < |ids| ==> ids[i] < |s.heap|
    requires c in s.conns && forall sid :: sid in s.conns[c] ==> s.conns[c][sid] in ids
    ensures Supervises(s, a) ==> Supervises(StopAllEffect(s, ids).(conns := s.conns - {c}), a)
  {
    hide StopAllEffect, Filed;
    var m := StopAllEffect(s, ids);
    var t := m.(conns := m.conns - {c});
    StopAllSupervises(s, ids, a);
    if Supervises(s, a) {
      FiledWhenFewer(m, t);
      forall x | 0 <= x < |t.heap| && t.heap[x].life == Active ensures !ListedBy(m, c, x) {
        StopAllLives(s, ids, x);
      }
      assert forall x, d :: ListedBy(m, d, x) && d != c ==> ListedBy(t, d, x);
      WatchedElsewhere(m, t, a);
    }
  }

  lemma WatchedElsewhere(s: State, t: State, a: set<Id>)
    requires Watched(s, a) && t.heap == s.heap
    requires forall x, c :: 0 <= x < |t.heap| && t.heap[x].life == Active && ListedBy(s, c, x) ==> ListedBy(t, c, x)
    ensures Watched(t, a)
  {
    forall x | 0 <= x < |t.heap| && t.heap[x].life == Active ensures x in a || exists c :: ListedBy(t, c, x) {
      if x !in a {
        var c :| ListedBy(s, c, x);
        assert ListedBy(t, c, x);
      }
    }
  }

  // ---- Objects ----

  class TestSession {
    const sid: SID
    const reflectorPort: uint16
    var isActive: bool
    ghost const id: Id
    ghost var stopped: bool

    constructor (sid: SID, reflectorPort: uint16, ghost id: Id)
      ensures this.sid == sid && this.reflectorPort == reflectorPort && this.id == id
      ensures !isActive && !stopped
    {
      this.sid, this.reflectorPort, this.id := sid, reflectorPort, id;
      isActive, stopped := false, false;
    }

    ghost function Snapshot(): Session
      reads this
    {
      Session(sid, reflectorPort, if isActive then Active else if stopped then Stopped else Requested)
    }
  }

  class ControlConnection {
    ghost const id: ConnId
    var sessions: map<SID, TestSession>

    constructor (ghost id: ConnId)
      ensures this.id == id && sessions == map[]
    {
      this.id, sessions := id, map[];
    }
  }

  /** The values of a map, key by key in this order. */
  ghost function ValuesOf(m: map<SID, TestSession>, keys: seq<SID>): (xs: seq<TestSession>)
    requires forall sid :: sid in keys ==> sid in m
    ensures |xs| == |keys| && forall i :: 0 <= i < |keys| ==> xs[i] == m[keys[i]]
  {
    seq(|keys|, i requires 0 <= i < |keys| => assert keys[i] in keys; m[keys[i]])
  }

  /** The keys of a map, each once. */
  ghost predicate Orders(keys: seq<SID>, m: map<SID, TestSession>) {
    Distinct(keys) && forall sid :: sid in keys <==> sid in m
  }

  /** The values of a map in the order the runtime happens to yield its keys. */
  method Listing(m: map<SID, TestSession>) returns (xs: seq<TestSession>, ghost keys: seq<SID>)
    ensures Orders(keys, m) && xs == ValuesOf(m, keys)
  {
    xs, keys := [], [];
    var rest := m.Keys;
    while rest != {}
      invariant rest <= m.Keys
      invariant Distinct(keys) && forall sid :: sid in keys <==> sid in m && sid !in rest
      invariant xs == ValuesOf(m, keys)
      decreases rest
    {
      var sid :| sid in rest;
      rest := rest - {sid};
      xs, keys := xs + [m[sid]], keys + [sid];
    }
  }

  ghost function IdsOf(m: map<SID, TestSession>): set<Id> {
    set sid | sid in m :: m[sid].id
  }

  ghost function IdList(xs: seq<TestSession>): seq<Id> {
    seq(|xs|, i requires 0 <= i < |xs| => xs[i].id)
  }

  lemma IdListing(xs: seq<TestSession>, keys: seq<SID>, m: map<SID, TestSession>)
    requires Orders(keys, m) && xs == ValuesOf(m, keys)
    ensures forall id :: id in IdList(xs) <==> id in IdsOf(m)
    ensures forall x :: x in xs ==> exists sid :: sid in m && m[sid] == x
  {
    forall id ensures id in IdList(xs) <==> id in IdsOf(m) {
      if id in IdList(xs) {
        var i :| 0 <= i < |xs| && xs[i].id == id;
        assert keys[i] in keys;
      }
      if id in IdsOf(m) {
        var sid :| sid in m && m[sid].id == id;
        var i :| 0 <= i < |keys| && keys[i] == sid;
        assert IdList(xs)[i] == id;
      }
    }
    forall x | x in xs ensures exists sid :: sid in m && m[sid] == x {
      var i :| 0 <= i < |xs| && xs[i] == x;
      assert keys[i] in keys;
    }
  }

  class Server {
    const portManager: PortManager
    var sessions: map<SID, TestSession>
    var armed: seq<TestSession>                       // sessions with a stop timer running
    ghost var state: State                            // what the fields amount to
    ghost var objects: seq<TestSession>               // every session created
    ghost var conns: map<ConnId, ControlConnection>   // every connection being served

    constructor (portManager: PortManager)
      requires portManager.usedPorts == {}
      ensures Valid() && state == INITIAL && armed == [] && this.portManager == portManager
    {
      this.portManager := portManager;
      sessions, armed, objects, conns, state := map[], [], [], map[], INITIAL;
    }

    /** The session is one of the server's. */
    ghost predicate Known(x: TestSession)
      reads this`objects
    {
      x.id < |objects| && objects[x.id] == x
    }

    ghost predicate Represents(m: map<SID, TestSession>, ids: map<SID, Id>)
      reads this`objects
    {
      && m.Keys == ids.Keys
      && forall sid :: sid in m ==> Known(m[sid]) && ids[sid] == m[sid].id
    }

    ghost predicate ObjectsMatch()
      reads this`objects, this`state, objects
    {
      && |state.heap| == |objects|
      && forall i :: 0 <= i < |objects| ==> objects[i].id == i && state.heap[i] == objects[i].Snapshot()
    }

    ghost predicate ConnsMatch()
      reads this`conns, this`objects, this`state, conns.Values
    {
      && state.conns.Keys == conns.Keys
      && forall c :: c in conns ==> conns[c].id == c && Represents(conns[c].sessions, state.conns[c])
    }

    ghost predicate Valid()
      reads this, portManager, objects, conns.Values
    {
      && state.used == portManager.usedPorts && state.stops == map[] && state.holding == map[]
      && ObjectsMatch() && ConnsMatch()
      && Represents(sessions, state.table)
      && (forall i :: 0 <= i < |armed| ==> Known(armed[i]))
    }

    ghost function ArmedIds(): set<Id>
      reads this`armed
    {
      set i | 0 <= i < |armed| :: armed[i].id
    }

    /** Nothing at work is forgotten. */
    ghost predicate Supervised()
      reads this`state, this`armed
    {
      Supervises(state, ArmedIds())
    }

    lemma ValidWellFormed()
      requires Valid()
      ensures state.WellFormed()
    {
    }

    /** Nothing about the sessions or the connections changes but perhaps more sessions. */
    twostate lemma ConnsSame()
      requires old(ConnsMatch()) && conns == old(conns) && old(objects) <= objects && state.conns == old(state).conns
      requires forall c :: c in conns ==> unchanged(conns[c])
      ensures ConnsMatch()
    {
      forall c | c in conns ensures conns[c].id == c && Represents(conns[c].sessions, state.conns[c]) {
        assert old(Represents(conns[c].sessions, state.conns[c]));
      }
    }

    twostate lemma ObjectsSame()
      requires old(ObjectsMatch()) && objects == old(objects) && state.heap == old(state).heap
      requires forall x :: x in objects ==> unchanged(x)
      ensures ObjectsMatch()
    {
      forall i | 0 <= i < |objects| ensures state.heap[i] == objects[i].Snapshot() {
        assert objects[i] in objects;
      }
    }

    twostate lemma OneObjectChanged(x: TestSession)
      requires old(ObjectsMatch()) && objects == old(objects) && Known(x)
      requires forall y :: y in objects && y != x ==> unchanged(y)
      requires |state.heap| == |old(state).heap| == |objects|
      requires state.heap == old(state).heap[x.id := x.Snapshot()]
      ensures ObjectsMatch()
    {
      forall i | 0 <= i < |objects| ensures objects[i].id == i && state.heap[i] == objects[i].Snapshot() {
        assert objects[i] in objects && old(objects[i].id) == i;
      }
    }

    /** stopSession: only the call that turns isActive off does anything. */
    method StopSession(session: TestSession)
      requires Valid() && Known(session)
      modifies this`sessions, this`state, session, portManager
      ensures Valid() && state == StopEffect(old(state), session.id)
      ensures old(Supervised()) ==> Supervised()
    {
      StopSupervises(state, session.id, ArmedIds(), ArmedIds());
      assert |state.heap| == |objects| && state.heap[session.id] == session.Snapshot();
      hide ConnsMatch, ObjectsMatch, Supervises;
      if !session.isActive {
        return;
      }
      session.isActive, session.stopped := false, true;
      sessions := sessions - {session.sid};
      portManager.ReleasePort(session.reflectorPort);
      state := StopEffect(state, session.id);
      ConnsSame();
      OneObjectChanged(session);
      assert sessions.Keys == state.table.Keys;
      assert Represents(sessions, state.table);
    }

    /** startSession guards on isActive alone.  `bindable` stands for the ports a
        listening socket can be opened on. */
    method StartSession(session: TestSession, bindable: set<uint16>) returns (ok: bool)
      requires Valid() && Known(session)
      modifies session, this`state
      ensures Valid()
      ensures ok <==> old(session.isActive) || session.reflectorPort in bindable
      ensures state == if ok then SetLife(old(state), session.id, Active) else old(state)
    {
      if session.isActive {
        assert SetLife(state, session.id, Active).heap == state.heap;
        return true;
      }
      if session.reflectorPort !in bindable {
        return false;
      }
      session.isActive := true;
      state := SetLife(state, session.id, Active);
      return true;
    }

    /** A change of one connection leaves the other connections matched. */
    twostate lemma OthersMatch(id: ConnId)
      requires old(ConnsMatch()) && objects == old(objects) && state.conns.Keys == conns.Keys
      requires forall c :: c in conns && c != id ==>
                 && c in old(conns) && conns[c] == old(conns)[c] && unchanged(conns[c])
                 && state.conns[c] == old(state).conns[c]
      requires id in conns ==> conns[id].id == id && Represents(conns[id].sessions, state.conns[id])
      ensures ConnsMatch()
    {
      forall c | c in conns ensures conns[c].id == c && Represents(conns[c].sessions, state.conns[c]) {
        if c != id {
          assert old(Represents(conns[c].sessions, state.conns[c]));
        }
      }
    }

    ghost predicate Serves(cc: ControlConnection)
      reads this`conns
    {
      cc.id in conns && conns[cc.id] == cc
    }

    method Accept(cc: ControlConnection)
      requires Valid() && cc.id !in conns && cc.sessions == map[] && cc !in conns.Values
      modifies this`conns, this`state
      ensures Valid() && Serves(cc) && state == Next(old(state), Connect(cc.id))
      ensures old(Supervised()) ==> Supervised()
    {
      ConnectSupervises(state, cc.id, ArmedIds());
      conns := conns[cc.id := cc];
      state := Next(state, Connect(cc.id));
      OthersMatch(cc.id);
    }

    /** handleRequestTWSession and handleRequestTWSessionIndividual.  A result of
        NeverReturns is the allocation loop running for ever; nothing is sent then. */
    method HandleRequest(cc: ControlConnection, request: Request, individual: bool, w: Surroundings,
                         bindable: set<uint16>)
      returns (reply: AcceptSession, a: Allocation)
      requires Valid() && Serves(cc)
      modifies this`sessions, this`state, this`objects, portManager, cc
      ensures Valid() && Serves(cc)
      ensures !Refused(request, individual, w) ==> old(portManager.Finds(bindable, a))
      ensures a.NeverReturns? ==> state == old(state)
      ensures !a.NeverReturns? ==>
                && reply == RequestReply(old(state), request, individual, w, a)
                && state == RequestEffect(old(state), cc.id, request, individual, w, a)
      ensures !a.NeverReturns? ==>
                (reply.accept == 3 <==>
                   || (!individual && request.sid != Zeros(16))
                   || request.confSender != 0 || request.confReceiver != 0
                   || (!w.authenticated && !w.receiverAllowed)
                   || SenderBase(w.testMode) + request.paddingLength > 2048)
      ensures Inv(old(state)) && old(Supervised()) && (individual || w.randomSid !in old(state).table) ==> Supervised()
    {
      assert cc.id in state.conns;
      RefusedExactly(request, individual, w);
      hide PublishEffect, KeepEffect, ObjectsMatch, ConnsMatch, Inv, Supervises;
      a := NoAvailablePorts;
      var refused := (!individual && request.sid != ZERO_SID) || request.confSender != 0 || request.confReceiver != 0
                     || (!w.authenticated && !w.receiverAllowed)
                     || request.paddingLength > MaxSenderPadding(w.testMode);
      assert refused == Refused(request, individual, w);
      hide Refused;
      if refused {
        return Reject(ACCEPT_NOT_SUPPORTED), a;
      }
      a := portManager.AllocatePort(bindable);
      if !a.Found? {
        return Reject(ACCEPT_TEMP_RES_LIMITED), a;
      }
      var sid := if individual then request.sid else w.randomSid;
      var ok := Settle(cc, sid, individual, a.port);
      return if ok then AcceptSession(ACCEPT_OK, a.port, sid, Zeros(16)) else Reject(ACCEPT_FAILURE), a;
    }

    /** The duplicate check of an individual request, and what follows. */
    method Settle(cc: ControlConnection, sid: SID, individual: bool, port: uint16) returns (ok: bool)
      requires ObjectsMatch() && ConnsMatch() && Represents(sessions, state.table) && Serves(cc)
      requires forall i :: 0 <= i < |armed| ==> Known(armed[i])
      requires state.stops == map[] && state.holding == map[]
      requires port !in state.used && portManager.usedPorts == state.used + {port}
      modifies this`sessions, this`state, this`objects, portManager, cc
      ensures Valid() && Serves(cc)
      ensures ok <==> !(individual && sid in old(state).table)
      ensures state == if ok then PublishEffect(old(state), cc.id, sid, port) else old(state)
      ensures Inv(old(state)) && old(Supervised()) && (individual || sid !in old(state).table) ==> Supervised()
    {
      assert cc.id in state.conns;
      hide PublishEffect, KeepEffect, ObjectsMatch, ConnsMatch, Inv, Supervises;
      if individual && sid in sessions {
        portManager.ReleasePort(port);
        return false;
      }
      PublishSupervises(state, cc.id, sid, port, ArmedIds());
      Publish(cc, sid, port);
      return true;
    }

    /** A new session goes into the server's and the connection's map. */
    method Publish(cc: ControlConnection, sid: SID, port: uint16)
      requires ObjectsMatch() && ConnsMatch() && Represents(sessions, state.table) && Serves(cc)
      requires forall i :: 0 <= i < |armed| ==> Known(armed[i])
      requires state.stops == map[] && state.holding == map[] && portManager.usedPorts == state.used + {port}
      modifies this`sessions, this`state, this`objects, cc
      ensures Valid() && Serves(cc)
      ensures state == PublishEffect(old(state), cc.id, sid, port)
    {
      var session := NewSession(sid, port);
      Enlist(session);
      Keep(cc, session);
    }

    method Enlist(session: TestSession)
      requires Valid() && Known(session)
      modifies this`sessions, this`state
      ensures Valid() && state == old(state).(table := old(state).table[session.sid := session.id])
    {
      sessions := sessions[session.sid := session];
      state := state.(table := state.table[session.sid := session.id]);
    }

    method Keep(cc: ControlConnection, session: TestSession)
      requires Valid() && Serves(cc) && Known(session)
      modifies this`state, cc
      ensures Valid() && Serves(cc)
      ensures state == KeepEffect(old(state), cc.id, session.sid, session.id)
    {
      assert Represents(cc.sessions, state.conns[cc.id]) && state.conns.Keys == conns.Keys;
      assert forall c :: c in conns ==> conns[c].id == c;
      hide ObjectsMatch, ConnsMatch;
      cc.sessions := cc.sessions[session.sid := session];
      state := KeepEffect(state, cc.id, session.sid, session.id);
      ObjectsSame();
      OthersMatch(cc.id);
    }

    method Drop(cc: ControlConnection, gone: set<SID>)
      requires Valid() && Serves(cc)
      modifies this`state, cc
      ensures Valid() && Serves(cc) && cc.sessions == old(cc.sessions) - gone
      ensures state == ForgetEffect(old(state), cc.id, gone)
    {
      cc.sessions := cc.sessions - gone;
      state := ForgetEffect(state, cc.id, gone);
      OthersMatch(cc.id);
    }

    method NewSession(sid: SID, port: uint16) returns (session: TestSession)
      requires ObjectsMatch() && ConnsMatch() && Represents(sessions, state.table)
      requires forall i :: 0 <= i < |armed| ==> Known(armed[i])
      requires state.stops == map[] && state.holding == map[] && portManager.usedPorts == state.used + {port}
      modifies this`state, this`objects
      ensures Valid() && Known(session) && session.sid == sid && session.id == |old(objects)|
      ensures state == old(state).(used := old(state).used + {port},
                                   heap := old(state).heap + [Session(sid, port, Requested)])
    {
      hide ConnsMatch;
      session := new TestSession(sid, port, |objects|);
      objects := objects + [session];
      state := state.(used := state.used + {port}, heap := state.heap + [Session(sid, port, Requested)]);
      ConnsSame();
    }

    /** handleStartSessions: the sessions in any order, until one cannot be bound. */
    method HandleStartSessions(cc: ControlConnection, bindable: set<uint16>)
      returns (accept: uint8, ghost started: seq<SID>)
      requires Valid() && Serves(cc)
      modifies objects, this`state
      ensures Valid() && Serves(cc)
      ensures old(state).WellFormed() && forall x :: x in started ==> x in old(state).conns[cc.id]
      ensures state == StartEffect(old(state), cc.id, started)
      ensures accept == ACCEPT_OK ==> forall sid :: sid in cc.sessions ==> sid in started
      ensures accept != ACCEPT_OK ==>
                && accept == ACCEPT_FAILURE
                && exists sid :: sid in cc.sessions && cc.sessions[sid].reflectorPort !in bindable
      ensures old(Supervised()) ==> Supervised()
    {
      hide Supervises, ObjectsMatch;
      ValidWellFormed();
      started := [];
      ghost var s := state;
      var rest := cc.sessions.Keys;
      while rest != {}
        invariant Valid() && rest <= cc.sessions.Keys
        invariant forall sid :: sid in cc.sessions && sid !in rest ==> sid in started
        invariant forall x :: x in started ==> x in s.conns[cc.id]
        invariant state == StartEffect(s, cc.id, started)
        decreases rest
      {
        var sid :| sid in rest;
        rest := rest - {sid};
        assert Represents(cc.sessions, state.conns[cc.id]);
        var ok := StartSession(cc.sessions[sid], bindable);
        if !ok {
          StartSupervises(s, cc.id, started, ArmedIds());
          return ACCEPT_FAILURE, started;
        }
        StartSnoc(s, cc.id, started, sid);
        started := started + [sid];
      }
      StartSupervises(s, cc.id, started, ArmedIds());
      return ACCEPT_OK, started;
    }

    /** time.AfterFunc(timeout, stopSession) for each of the sessions. */
    method Arm(xs: seq<TestSession>)
      requires Valid() && forall x :: x in xs ==> Known(x)
      modifies this`armed
      ensures Valid() && armed == old(armed) + xs
    {
      armed := armed + xs;
      assert forall i :: 0 <= i < |armed| ==> armed[i] in old(armed) || armed[i] in xs;
    }

    /** handleStopSessions: a count that differs from the connection's sessions closes
        the connection; otherwise they are dropped and their timers armed. */
    method HandleStopSessions(cc: ControlConnection, numSessions: uint32) returns (ok: bool, ghost keys: seq<SID>)
      requires Valid() && Serves(cc)
      modifies cc, this`armed, this`state
      ensures Valid() && Serves(cc)
      ensures ok <==> numSessions == |old(state).conns[cc.id]| % TWO32
      ensures !ok ==> state == old(state) && armed == old(armed)
      ensures ok ==> cc.sessions == map[] && state == ForgetEffect(old(state), cc.id, old(cc.sessions).Keys)
      ensures ok ==> Orders(keys, old(cc.sessions)) && armed == old(armed) + ValuesOf(old(cc.sessions), keys)
      ensures old(Supervised()) ==> Supervised()
    {
      hide Supervises, ObjectsMatch;
      assert |cc.sessions.Keys| == |state.conns[cc.id].Keys|;
      var activeSessions := |cc.sessions| % TWO32;
      if numSessions != activeSessions {
        return false, [];
      }
      var sessionsToStop;
      sessionsToStop, keys := Listing(cc.sessions);
      IdListing(sessionsToStop, keys, cc.sessions);
      assert Represents(cc.sessions, state.conns[cc.id]);
      Arm(sessionsToStop);
      ArmedFor(old(armed), sessionsToStop, keys, cc);
      ForgetSupervises(state, cc.id, cc.sessions.Keys, old(ArmedIds()), ArmedIds());
      Drop(cc, cc.sessions.Keys);
      ok := true;
    }

    /** Every session of the connection has its timer now. */
    lemma ArmedFor(before: seq<TestSession>, xs: seq<TestSession>, keys: seq<SID>, cc: ControlConnection)
      requires Valid() && Serves(cc) && armed == before + xs
      requires Orders(keys, cc.sessions) && xs == ValuesOf(cc.sessions, keys)
      ensures (set i | 0 <= i < |before| :: before[i].id) <= ArmedIds()
      ensures forall sid :: sid in state.conns[cc.id] ==> state.conns[cc.id][sid] in ArmedIds()
    {
      forall i | 0 <= i < |before| ensures before[i].id in ArmedIds() {
        assert armed[i] == before[i];
      }
      assert Represents(cc.sessions, state.conns[cc.id]);
      forall sid | sid in state.conns[cc.id] ensures state.conns[cc.id][sid] in ArmedIds() {
        var i :| 0 <= i < |keys| && keys[i] == sid;
        assert armed[|before| + i] == cc.sessions[sid];
      }
    }

    method StopOne(cc: ControlConnection, sid: SID)
      requires Valid() && Serves(cc)
      modifies cc, this`armed, this`state
      ensures Valid() && Serves(cc) && cc.sessions == old(cc.sessions) - {sid}
      ensures state == ForgetEffect(old(state), cc.id, {sid})
      ensures armed == old(armed) + if sid in old(cc.sessions) then [old(cc.sessions)[sid]] else []
      ensures old(Supervised()) ==> Supervised()
    {
      hide Supervises;
      if sid in cc.sessions {
        assert Represents(cc.sessions, state.conns[cc.id]);
        Arm([cc.sessions[sid]]);
        assert forall i :: 0 <= i < |old(armed)| ==> armed[i] == old(armed)[i];
        assert armed[|old(armed)|] == cc.sessions[sid];
        ForgetSupervises(state, cc.id, {sid}, old(ArmedIds()), ArmedIds());
        Drop(cc, {sid});
      } else {
        assert state.conns[cc.id] - {sid} == state.conns[cc.id];
        assert state.conns[cc.id := state.conns[cc.id]] == state.conns;
      }
    }

    /** handleStopNSessions. */
    method HandleStopNSessions(cc: ControlConnection, numSessions: uint32, sids: seq<SID>)
      requires Valid() && Serves(cc) && |sids| == numSessions
      modifies cc, this`armed, this`state
      ensures Valid() && Serves(cc)
      ensures state == ForgetEffect(old(state), cc.id, SidSet(sids))
      ensures armed == old(armed) + Dropped(old(cc.sessions), sids)
      ensures old(Supervised()) ==> Supervised()
    {
      hide Supervises;
      ghost var s, mine, before := state, cc.sessions, armed;
      ForgetTwice(state, cc.id, {}, {});
      if numSessions == 0 || |sids| == 0 {
        return;
      }
      assert SidSet(sids[..0]) == {};
      for i := 0 to |sids|
        invariant Valid()
        invariant state == ForgetEffect(s, cc.id, SidSet(sids[..i]))
        invariant cc.sessions == mine - SidSet(sids[..i])
        invariant armed == before + Dropped(mine, sids[..i])
        invariant old(Supervised()) ==> Supervised()
      {
        ghost var gone := if sids[i] in cc.sessions then [cc.sessions[sids[i]]] else [];
        StopOne(cc, sids[i]);
        Append3(before, Dropped(mine, sids[..i]), gone);
        OneMore(s, cc.id, mine, sids, i);
      }
      assert sids[..|sids|] == sids;
    }

    /** A stop timer fires: time.AfterFunc(timeout, stopSession). */
    method FireTimer(i: nat)
      requires Valid() && i < |armed|
      modifies this, armed[i], portManager
      ensures Valid() && conns == old(conns) && objects == old(objects)
      ensures state == StopEffect(old(state), old(armed[i].id)) && armed == old(armed)[..i] + old(armed)[i + 1..]
      ensures old(Supervised()) ==> Supervised()
    {
      hide Supervises, StopEffect;
      var session := Disarm(i);
      OneFewer(old(armed), i);
      StopSupervises(state, session.id, old(ArmedIds()), ArmedIds());
      StopSession(session);
    }

    method Disarm(i: nat) returns (session: TestSession)
      requires Valid() && i < |armed|
      modifies this`armed
      ensures Valid() && session == old(armed[i]) && Known(session) && session.id < |state.heap|
      ensures armed == old(armed)[..i] + old(armed)[i + 1..]
    {
      session := armed[i];
      assert forall k :: 0 <= k < |armed| ==> Known(armed[k]);
      armed := armed[..i] + armed[i + 1..];
    }

    /** Taking one timer away takes at most its session off. */
    lemma OneFewer(before: seq<TestSession>, i: nat)
      requires i < |before| && armed == before[..i] + before[i + 1..]
      ensures (set k | 0 <= k < |before| :: before[k].id) - {before[i].id} <= ArmedIds()
    {
      forall k | 0 <= k < |before| && before[k].id != before[i].id ensures before[k].id in ArmedIds() {
        assert armed[if k < i then k else k - 1] == before[k];
      }
    }

    /** stopSession for one session after the other. */
    method StopList(xs: seq<TestSession>)
      requires Valid() && forall x :: x in xs ==> Known(x)
      modifies this`sessions, this`state, objects, portManager
      ensures Valid()
      ensures forall i :: 0 <= i < |xs| ==> IdList(xs)[i] < |old(state).heap|
      ensures state == StopAllEffect(old(state), IdList(xs))
    {
      ghost var ids, n := IdList(xs), |state.heap|;
      assert n == |objects|;
      forall i | 0 <= i < |xs| ensures ids[i] < n {
        assert xs[i] in xs && Known(xs[i]);
      }
      StopNone(state);
      hide Supervises, ObjectsMatch, ConnsMatch, StopEffect, StopAllEffect;
      for i := 0 to |xs|
        invariant Valid() && forall x :: x in xs ==> Known(x)
        invariant state == StopAllEffect(old(state), ids[..i])
      {
        assert xs[i] in xs && Known(xs[i]);
        StopAllSnoc(old(state), ids, i);
        StopSession(xs[i]);
      }
      assert ids[..|xs|] == ids;
    }

    /** Stops every session of a map, in any order. */
    method StopEach(m: map<SID, TestSession>) returns (ghost ids: seq<Id>)
      requires Valid() && forall sid :: sid in m ==> Known(m[sid])
      modifies this`sessions, this`state, objects, portManager
      ensures Valid()
      ensures forall id :: id in ids <==> id in IdsOf(m)
      ensures forall i :: 0 <= i < |ids| ==> ids[i] < |old(state).heap|
      ensures state == StopAllEffect(old(state), ids)
    {
      ghost var keys;
      var xs;
      xs, keys := Listing(m);
      ids := IdList(xs);
      IdListing(xs, keys, m);
      StopList(xs);
    }

    method Remove(ghost c: ConnId)
      requires Valid()
      modifies this`state, this`conns
      ensures Valid() && conns == old(conns) - {c} && state == old(state).(conns := old(state).conns - {c})
    {
      conns := conns - {c};
      state := state.(conns := state.conns - {c});
      OthersMatch(c);
    }

    /** The end of handleConnection: the connection's sessions are stopped, then it is
        forgotten. */
    method CloseConnection(cc: ControlConnection) returns (ghost ids: seq<Id>)
      requires Valid() && Serves(cc)
      modifies this`sessions, this`state, this`conns, objects, portManager
      ensures Valid() && cc.id !in conns
      ensures forall id :: id in ids <==> id in IdsOf(cc.sessions)
      ensures forall i :: 0 <= i < |ids| ==> ids[i] < |old(state).heap|
      ensures state == StopAllEffect(old(state), ids).(conns := old(state).conns - {cc.id})
      ensures old(Supervised()) ==> Supervised()
    {
      hide Supervises;
      assert Represents(cc.sessions, state.conns[cc.id]);
      ids := StopEach(cc.sessions);
      CloseSupervises(old(state), cc.id, ids, ArmedIds());
      Remove(cc.id);
    }

    /** Server.Stop: every listed session is stopped.  Those never started stay listed
        and keep their ports. */
    method Stop()
      requires Valid() && Inv(state)
      modifies this`sessions, this`state, objects, portManager
      ensures Valid() && Inv(state)
      ensures sessions.Keys == NeverStarted(old(state))
      ensures state.used == set sid | sid in state.table :: state.heap[state.table[sid]].port
      ensures old(Supervised()) ==> Supervised()
    {
      hide Supervises;
      ghost var s := state;
      ghost var ids := StopEach(sessions);
      StopAllSupervises(s, ids, ArmedIds());
      ShutdownTable(s, ids);
      QuiescentPorts(state);
    }

    /** When every connection is closed and every timer has fired, only sessions never
        started hold ports. */
    lemma OnlyNeverStarted()
      requires Valid() && Inv(state) && Supervised() && conns == map[] && armed == []
      ensures forall x :: x in objects ==> !x.isActive
      ensures portManager.usedPorts == set x | x in objects && !x.stopped :: x.reflectorPort
    {
      hide Inv, Watched, Filed, Supervised, ConnsMatch;
      AllDown();
      NothingLeft(state);
      forall x | x in objects ensures !x.isActive && x.id < |state.heap| && state.heap[x.id] == x.Snapshot() {
      }
      forall p ensures p in portManager.usedPorts <==> exists x :: x in objects && !x.stopped && x.reflectorPort == p {
        if p in portManager.usedPorts {
          var id: Id :| id < |state.heap| && state.heap[id].life == Requested && state.heap[id].port == p;
          assert state.heap[id] == objects[id].Snapshot() && objects[id] in objects;
        }
        if x :| x in objects && !x.stopped && x.reflectorPort == p {
          assert state.heap[x.id].life == Requested;
        }
      }
    }

    lemma AllDown()
      requires Valid() && Supervised() && conns == map[] && armed == []
      ensures Watched(state, {}) && state.conns == map[] && state.stops == map[]
    {
      hide Watched, Filed;
      assert ArmedIds() == {};
    }
  }

  ghost function NeverStarted(s: State): set<SID>
    requires s.WellFormed()
  {
    set sid | sid in s.table && s.heap[s.table[sid]].life == Requested
  }

  lemma ShutdownTable(s: State, ids: seq<Id>)
    requires Inv(s) && s.stops == map[]
    requires forall id :: id in ids <==> exists sid :: sid in s.table && s.table[sid] == id
    requires forall i :: 0 <= i < |ids| ==> ids[i] < |s.heap|
    ensures Inv(StopAllEffect(s, ids))
    ensures StopAllEffect(s, ids).table.Keys == NeverStarted(s)
  {
    hide PortsOwned, ReleasedOnce, StopsExact, Filed, StopAllEffect, Runs, Replay, CleanRun;
    var t := StopAllEffect(s, ids);
    var events := StopAllRuns(s, ids);
    CleanRunKeepsInv(s, events);
    forall sid ensures sid in t.table <==> sid in s.table && s.heap[s.table[sid]].life == Requested {
      if sid in t.table {
        var id := t.table[sid];
        assert Listed(t, id);
        StopAllLives(s, ids, id);
        assert Listed(s, id);
      }
      if sid in s.table && s.heap[s.table[sid]].life == Requested {
        StopAllLives(s, ids, s.table[sid]);
        assert Listed(t, s.table[sid]);
      }
    }
  }
}
