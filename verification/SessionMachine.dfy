/** The server's sessions and ports as a state machine at lock granularity
    (server/server.go).  One event is one critical section, atomic operation or
    goroutine-local update; the goroutines are one handler per control connection and
    any number of callers of stopSession (timers, the reflector on REFWAIT or too many
    MAC failures, connection cleanup, server shutdown), interleaved in any order. */
module SessionMachine {
  import opened Bytes
  import opened ControlMessages

  type Id = nat           // identity of a TestSession object: its index in `heap`
  type ConnId = nat
  type ThreadId = nat

  /** isActive is false both before the start and after the stop; the two are told
      apart here because the port has moved on in between. */
  datatype Life = Requested | Active | Stopped

  datatype Session = Session(sid: SID, port: uint16, life: Life)

  /** Where a stopSession call that won the swap of isActive stands. */
  datatype StopPC = Unlink(id: Id) | Release(id: Id)

  datatype State = State(
    used: set<uint16>,                     // portManager.usedPorts
    table: map<SID, Id>,                   // Server.sessions
    heap: seq<Session>,                    // every TestSession ever created
    conns: map<ConnId, map<SID, Id>>,      // controlConnection.sessions
    holding: map<ConnId, uint16>,          // port a request handler has not published yet
    stops: map<ThreadId, StopPC>,          // stopSession calls in flight
    released: multiset<Id>)                // completed port releases of sessions
  {
    predicate WellFormed() {
      && (forall sid :: sid in table ==> table[sid] < |heap|)
      && (forall c, sid :: c in conns && sid in conns[c] ==> conns[c][sid] < |heap|)
      && (forall t :: t in stops ==> stops[t].id < |heap|)
      && holding.Keys <= conns.Keys
    }
  }

  const INITIAL := State({}, map[], [], map[], map[], map[], multiset{})

  datatype Event =
    | Connect(c: ConnId)
    | Disconnect(c: ConnId)
    | Allocate(c: ConnId, port: uint16)    // allocatePort succeeds
    | GiveBack(c: ConnId)                  // releasePort before any session exists
    | Publish(c: ConnId, sid: SID)         // s.sessions[sid] = session; cc.sessions[sid] = session
    | Start(c: ConnId, sid: SID)           // startSession, the socket bound
    | Forget(c: ConnId, sid: SID)          // the stop commands drop the session and arm its timer
    | Swap(t: ThreadId, id: Id)            // isActive.CompareAndSwap(true, false)
    | RemoveSid(t: ThreadId)               // delete(s.sessions, session.sid)
    | ReleasePort(t: ThreadId)             // releasePort(session.reflectorPort)

  predicate Enabled(s: State, e: Event) {
    match e
    case Connect(c) => c !in s.conns
    case Disconnect(c) => c in s.conns && c !in s.holding
    case Allocate(c, port) => c in s.conns && c !in s.holding && port !in s.used
    case GiveBack(c) => c in s.holding
    case Publish(c, sid) => c in s.holding
    case Start(c, sid) => c in s.conns && c !in s.holding && sid in s.conns[c]
    case Forget(c, sid) => c in s.conns && c !in s.holding && sid in s.conns[c]
    case Swap(t, id) => id < |s.heap| && t !in s.stops
    case RemoveSid(t) => t in s.stops && s.stops[t].Unlink?
    case ReleasePort(t) => t in s.stops && s.stops[t].Release?
  }

  function SetLife(s: State, id: Id, life: Life): State
    requires id < |s.heap|
  {
    s.(heap := s.heap[id := s.heap[id].(life := life)])
  }

  function Next(s: State, e: Event): (s': State)
    requires s.WellFormed() && Enabled(s, e)
    ensures s'.WellFormed()
  {
    match e
    case Connect(c) => s.(conns := s.conns[c := map[]])
    case Disconnect(c) => s.(conns := s.conns - {c})
    case Allocate(c, port) => s.(used := s.used + {port}, holding := s.holding[c := port])
    case GiveBack(c) => s.(used := s.used - {s.holding[c]}, holding := s.holding - {c})
    case Publish(c, sid) =>
      var id, mine: map<SID, Id> := |s.heap|, s.conns[c];
      s.(heap := s.heap + [Session(sid, s.holding[c], Requested)],
         table := s.table[sid := id],
         conns := s.conns[c := mine[sid := id]],
         holding := s.holding - {c})
    case Start(c, sid) => SetLife(s, s.conns[c][sid], Active)
    case Forget(c, sid) => s.(conns := s.conns[c := s.conns[c] - {sid}])
    case Swap(t, id) =>
      if s.heap[id].life == Active then SetLife(s, id, Stopped).(stops := s.stops[t := Unlink(id)]) else s
    case RemoveSid(t) =>
      var id := s.stops[t].id;
      s.(table := s.table - {s.heap[id].sid}, stops := s.stops[t := Release(id)])
    case ReleasePort(t) =>
      var id := s.stops[t].id;
      s.(used := s.used - {s.heap[id].port}, stops := s.stops - {t}, released := s.released + multiset{id})
  }

  // ---- Ownership ----

  /** Who may hold a port: a session until its port is released, or the handler that
      has allocated one and not yet published a session. */
  datatype Owner = OfSession(id: Id) | OfHandler(c: ConnId)

  ghost predicate Owns(s: State, o: Owner) {
    match o
    case OfSession(id) => id < |s.heap| && s.released[id] == 0
    case OfHandler(c) => c in s.holding
  }

  ghost function PortOf(s: State, o: Owner): uint16
    requires Owns(s, o)
  {
    match o
    case OfSession(id) => s.heap[id].port
    case OfHandler(c) => s.holding[c]
  }

  ghost predicate Stopping(s: State, id: Id) {
    exists t :: t in s.stops && s.stops[t].id == id
  }

  /** The pool marks exactly the owned ports, and no port has two owners. */
  ghost predicate PortsOwned(s: State) {
    && (forall o :: Owns(s, o) ==> PortOf(s, o) in s.used)
    && (forall p :: p in s.used ==> exists o :: Owns(s, o) && PortOf(s, o) == p)
    && (forall o, o' :: Owns(s, o) && Owns(s, o') && PortOf(s, o) == PortOf(s, o') ==> o == o')
  }

  /** A session releases its port once, when it is stopped and no call is at work. */
  ghost predicate ReleasedOnce(s: State) {
    && (forall id :: id in s.released ==> id < |s.heap| && s.released[id] == 1)
    && (forall id :: 0 <= id < |s.heap| ==>
          (id in s.released <==> s.heap[id].life == Stopped && !Stopping(s, id)))
  }

  /** The table lists every session that is requested, active, or stopped with its
      removal outstanding, under its own SID, and nothing else. */
  ghost predicate TableExact(s: State)
    requires s.WellFormed()
  {
    && (forall sid :: sid in s.table ==> s.heap[s.table[sid]].sid == sid)
    && (forall id :: 0 <= id < |s.heap| ==> (Listed(s, id) <==> s.heap[id].life != Stopped || Removing(s, id)))
  }

  ghost predicate Listed(s: State, id: Id)
    requires id < |s.heap|
  {
    s.heap[id].sid in s.table && s.table[s.heap[id].sid] == id
  }

  ghost predicate Removing(s: State, id: Id) {
    exists t :: t in s.stops && s.stops[t] == Unlink(id)
  }

  /** Calls in flight work on distinct stopped sessions. */
  ghost predicate StopsExact(s: State)
    requires s.WellFormed()
  {
    && (forall t :: t in s.stops ==> s.heap[s.stops[t].id].life == Stopped)
    && (forall t, t' :: t in s.stops && t' in s.stops && s.stops[t].id == s.stops[t'].id ==> t == t')
  }

  ghost predicate SessionsExact(s: State) {
    s.WellFormed() && ReleasedOnce(s) && TableExact(s) && StopsExact(s)
  }

  /** The connection lists the session under the session's own SID. */
  ghost predicate ListedBy(s: State, c: ConnId, id: Id) {
    && c in s.conns && id < |s.heap|
    && s.heap[id].sid in s.conns[c] && s.conns[c][s.heap[id].sid] == id
  }

  /** Connections list sessions under the sessions' own SIDs only, and no session is
      listed by two connections. */
  ghost predicate Filed(s: State)
    requires s.WellFormed()
  {
    && (forall c, sid :: c in s.conns && sid in s.conns[c] ==> s.heap[s.conns[c][sid]].sid == sid)
    && (forall c, d, id :: ListedBy(s, c, id) && ListedBy(s, d, id) ==> c == d)
  }

  ghost predicate Inv(s: State) {
    PortsOwned(s) && SessionsExact(s) && Filed(s)
  }

  /** What the code leaves to its callers and to luck: a stopped session is not
      started again, and a SID is not published while the table still lists it. */
  predicate Clean(s: State, e: Event)
    requires s.WellFormed() && Enabled(s, e)
  {
    match e
    case Start(c, sid) => s.heap[s.conns[c][sid]].life != Stopped
    case Publish(c, sid) => sid !in s.table
    case _ => true
  }

  lemma InitialInv()
    ensures Inv(INITIAL)
  {
  }

  // ---- How the set of owners changes ----

  lemma OwnersSame(s: State, s': State)
    requires PortsOwned(s) && s'.used == s.used
    requires forall o :: Owns(s', o) <==> Owns(s, o)
    requires forall o :: Owns(s, o) ==> PortOf(s', o) == PortOf(s, o)
    ensures PortsOwned(s')
  {
    forall p | p in s'.used ensures exists o :: Owns(s', o) && PortOf(s', o) == p {
      var o :| Owns(s, o) && PortOf(s, o) == p;
      assert Owns(s', o);
    }
  }

  lemma OwnerAdded(s: State, s': State, x: Owner)
    requires PortsOwned(s) && Owns(s', x) && !Owns(s, x) && PortOf(s', x) !in s.used
    requires s'.used == s.used + {PortOf(s', x)}
    requires forall o :: Owns(s', o) <==> Owns(s, o) || o == x
    requires forall o :: Owns(s, o) ==> PortOf(s', o) == PortOf(s, o)
    ensures PortsOwned(s')
  {
    forall p | p in s'.used ensures exists o :: Owns(s', o) && PortOf(s', o) == p {
      if p != PortOf(s', x) {
        var o :| Owns(s, o) && PortOf(s, o) == p;
        assert Owns(s', o);
      }
    }
  }

  lemma OwnerRemoved(s: State, s': State, x: Owner)
    requires PortsOwned(s) && Owns(s, x) && s'.used == s.used - {PortOf(s, x)}
    requires forall o :: Owns(s', o) <==> Owns(s, o) && o != x
    requires forall o :: Owns(s', o) ==> PortOf(s', o) == PortOf(s, o)
    ensures PortsOwned(s')
  {
    forall p | p in s'.used ensures exists o :: Owns(s', o) && PortOf(s', o) == p {
      var o :| Owns(s, o) && PortOf(s, o) == p;
      assert Owns(s', o);
    }
  }

  lemma OwnerReplaced(s: State, s': State, x: Owner, y: Owner)
    requires PortsOwned(s) && Owns(s, x) && !Owns(s, y) && Owns(s', y) && PortOf(s', y) == PortOf(s, x)
    requires s'.used == s.used
    requires forall o :: Owns(s', o) <==> o == y || (Owns(s, o) && o != x)
    requires forall o :: Owns(s, o) && o != x ==> PortOf(s', o) == PortOf(s, o)
    ensures PortsOwned(s')
  {
    forall p | p in s'.used ensures exists o :: Owns(s', o) && PortOf(s', o) == p {
      var o :| Owns(s, o) && PortOf(s, o) == p;
      if o != x {
        assert Owns(s', o);
      }
    }
  }

  lemma HandlerPorts(s: State, e: Event)
    requires s.WellFormed() && PortsOwned(s) && Enabled(s, e) && (e.Allocate? || e.GiveBack?)
    ensures PortsOwned(Next(s, e))
  {
    if e.Allocate? {
      OwnerAdded(s, Next(s, e), OfHandler(e.c));
    } else {
      OwnerRemoved(s, Next(s, e), OfHandler(e.c));
    }
  }

  lemma PublishPorts(s: State, c: ConnId, sid: SID)
    requires Inv(s) && Enabled(s, Publish(c, sid))
    ensures PortsOwned(Next(s, Publish(c, sid)))
  {
    OwnerReplaced(s, Next(s, Publish(c, sid)), OfHandler(c), OfSession(|s.heap|));
  }

  lemma ReleasePorts(s: State, t: ThreadId)
    requires Inv(s) && Enabled(s, ReleasePort(t))
    ensures PortsOwned(Next(s, ReleasePort(t)))
  {
    assert Stopping(s, s.stops[t].id);
    OwnerRemoved(s, Next(s, ReleasePort(t)), OfSession(s.stops[t].id));
  }

  lemma OtherPorts(s: State, e: Event)
    requires s.WellFormed() && PortsOwned(s) && Enabled(s, e) && !e.Allocate? && !e.GiveBack? && !e.Publish?
               && !e.ReleasePort?
    ensures PortsOwned(Next(s, e))
  {
    OwnersSame(s, Next(s, e));
  }

  // ---- How sessions, table and calls in flight change ----

  /** Nothing about the calls in flight changes. */
  lemma StopsSame(s: State, s': State)
    requires s'.stops == s.stops
    ensures forall i :: Stopping(s', i) <==> Stopping(s, i)
    ensures forall i :: Removing(s', i) <==> Removing(s, i)
  {
  }

  /** Only the call `t`, on session `id`, changes. */
  lemma StopsChange(s: State, s': State, t: ThreadId, id: Id)
    requires forall u :: u != t ==> (u in s'.stops <==> u in s.stops)
    requires forall u :: u != t && u in s.stops ==> s'.stops[u] == s.stops[u]
    requires t in s.stops ==> s.stops[t].id == id
    requires t in s'.stops ==> s'.stops[t].id == id
    ensures forall i :: i != id ==> (Stopping(s', i) <==> Stopping(s, i))
    ensures forall i :: i != id ==> (Removing(s', i) <==> Removing(s, i))
  {
    forall i | i != id
      ensures (Stopping(s', i) <==> Stopping(s, i)) && (Removing(s', i) <==> Removing(s, i))
    {
      if Stopping(s, i) {
        var u :| u in s.stops && s.stops[u].id == i;
        assert u in s'.stops && s'.stops[u] == s.stops[u];
      }
      if Stopping(s', i) {
        var u :| u in s'.stops && s'.stops[u].id == i;
        assert u in s.stops && s'.stops[u] == s.stops[u];
      }
    }
  }

  /** The bookkeeping half of SessionsExact. */
  ghost predicate CallsExact(s: State)
    requires s.WellFormed()
  {
    ReleasedOnce(s) && StopsExact(s)
  }

  lemma SwapCalls(s: State, t: ThreadId, id: Id)
    requires s.WellFormed() && CallsExact(s) && Enabled(s, Swap(t, id)) && s.heap[id].life == Active
    ensures CallsExact(Next(s, Swap(t, id)))
  {
    hide StopsExact;
    var s' := Next(s, Swap(t, id));
    SwapStops(s, t, id);
    StopsChange(s, s', t, id);
    assert s'.stops[t].id == id && Stopping(s', id);
  }

  lemma SwapStops(s: State, t: ThreadId, id: Id)
    requires s.WellFormed() && StopsExact(s) && Enabled(s, Swap(t, id)) && s.heap[id].life == Active
    ensures StopsExact(Next(s, Swap(t, id)))
  {
  }

  lemma SwapTable(s: State, t: ThreadId, id: Id)
    requires SessionsExact(s) && Enabled(s, Swap(t, id)) && s.heap[id].life == Active
    ensures TableExact(Next(s, Swap(t, id)))
  {
    var s' := Next(s, Swap(t, id));
    StopsChange(s, s', t, id);
    assert s'.stops[t] == Unlink(id) && Removing(s', id);
    assert forall i :: 0 <= i < |s.heap| ==> (Listed(s', i) <==> Listed(s, i));
  }

  lemma RemoveCalls(s: State, t: ThreadId)
    requires s.WellFormed() && CallsExact(s) && Enabled(s, RemoveSid(t))
    ensures CallsExact(Next(s, RemoveSid(t)))
  {
    hide StopsExact;
    var s', id := Next(s, RemoveSid(t)), s.stops[t].id;
    RemoveStops(s, t);
    StopsChange(s, s', t, id);
    assert Stopping(s, id) && s'.stops[t].id == id && Stopping(s', id);
  }

  lemma RemoveStops(s: State, t: ThreadId)
    requires s.WellFormed() && StopsExact(s) && Enabled(s, RemoveSid(t))
    ensures StopsExact(Next(s, RemoveSid(t)))
  {
  }

  lemma RemoveTable(s: State, t: ThreadId)
    requires SessionsExact(s) && Enabled(s, RemoveSid(t))
    ensures TableExact(Next(s, RemoveSid(t)))
  {
    var s', id := Next(s, RemoveSid(t)), s.stops[t].id;
    StopsChange(s, s', t, id);
    assert Removing(s, id) && !Removing(s', id);
    ListedWithout(s, s', id);
  }

  lemma ListedWithout(s: State, s': State, id: Id)
    requires s.WellFormed() && id < |s.heap| && Listed(s, id)
    requires s'.heap == s.heap && s'.table == s.table - {s.heap[id].sid}
    ensures forall i :: 0 <= i < |s.heap| ==> (Listed(s', i) <==> Listed(s, i) && i != id)
  {
  }

  lemma ReleaseStep(s: State, t: ThreadId)
    requires SessionsExact(s) && Enabled(s, ReleasePort(t))
    ensures SessionsExact(Next(s, ReleasePort(t)))
  {
    var s', id := Next(s, ReleasePort(t)), s.stops[t].id;
    StopsChange(s, s', t, id);
    assert Stopping(s, id) && !Stopping(s', id);
    assert !Removing(s, id) && !Removing(s', id);
    assert forall i :: 0 <= i < |s.heap| ==> (Listed(s', i) <==> Listed(s, i));
  }

  lemma PublishCalls(s: State, c: ConnId, sid: SID)
    requires s.WellFormed() && CallsExact(s) && Enabled(s, Publish(c, sid)) && sid !in s.table
    ensures CallsExact(Next(s, Publish(c, sid)))
  {
    var s', id := Next(s, Publish(c, sid)), |s.heap|;
    StopsSame(s, s');
    assert id !in s.released;
    assert forall i :: 0 <= i < id ==> s'.heap[i] == s.heap[i];
  }

  lemma PublishTable(s: State, c: ConnId, sid: SID)
    requires SessionsExact(s) && Enabled(s, Publish(c, sid)) && sid !in s.table
    ensures TableExact(Next(s, Publish(c, sid)))
  {
    var s', id := Next(s, Publish(c, sid)), |s.heap|;
    StopsSame(s, s');
    assert forall i :: 0 <= i < id ==> s'.heap[i] == s.heap[i];
    assert forall i :: 0 <= i < id ==> (Listed(s', i) <==> Listed(s, i));
    assert Listed(s', id);
  }

  lemma StartCalls(s: State, c: ConnId, sid: SID)
    requires s.WellFormed() && CallsExact(s) && Enabled(s, Start(c, sid)) && s.heap[s.conns[c][sid]].life != Stopped
    ensures CallsExact(Next(s, Start(c, sid)))
  {
    StopsSame(s, Next(s, Start(c, sid)));
  }

  lemma StartTable(s: State, c: ConnId, sid: SID)
    requires s.WellFormed() && TableExact(s) && Enabled(s, Start(c, sid)) && s.heap[s.conns[c][sid]].life != Stopped
    ensures TableExact(Next(s, Start(c, sid)))
  {
    var s' := Next(s, Start(c, sid));
    StopsSame(s, s');
    assert forall i :: 0 <= i < |s.heap| ==> (Listed(s', i) <==> Listed(s, i));
  }

  /** Steps that leave sessions, table and calls alone. */
  lemma OtherSteps(s: State, e: Event)
    requires SessionsExact(s) && Enabled(s, e)
    requires !e.Publish? && !e.Start? && !e.Swap? && !e.RemoveSid? && !e.ReleasePort?
    ensures SessionsExact(Next(s, e))
  {
    var s' := Next(s, e);
    StopsSame(s, s');
    assert forall i :: 0 <= i < |s.heap| ==> (Listed(s', i) <==> Listed(s, i));
  }

  lemma FiledWhenFewer(s: State, t: State)
    requires s.WellFormed() && t.WellFormed() && Filed(s)
    requires |s.heap| == |t.heap| && forall i :: 0 <= i < |s.heap| ==> t.heap[i].sid == s.heap[i].sid
    requires forall c, sid :: c in t.conns && sid in t.conns[c] ==>
               c in s.conns && sid in s.conns[c] && s.conns[c][sid] == t.conns[c][sid]
    ensures Filed(t)
  {
    forall c, d, id | ListedBy(t, c, id) && ListedBy(t, d, id) ensures c == d {
      assert ListedBy(s, c, id) && ListedBy(s, d, id);
    }
  }

  lemma PublishKeepsFiled(s: State, c: ConnId, sid: SID)
    requires s.WellFormed() && Filed(s) && Enabled(s, Publish(c, sid))
    ensures Filed(Next(s, Publish(c, sid)))
  {
    var t, n := Next(s, Publish(c, sid)), |s.heap|;
    assert forall i :: 0 <= i < n ==> t.heap[i] == s.heap[i];
    forall d, id ensures ListedBy(t, d, id) ==> if id == n then d == c else ListedBy(s, d, id) {
      if ListedBy(t, d, id) && d != c {
        assert t.conns[d] == s.conns[d];
      }
    }
  }

  /** Whatever a step does, clean or not, the connections stay in order. */
  lemma StepKeepsFiled(s: State, e: Event)
    requires s.WellFormed() && Filed(s) && Enabled(s, e)
    ensures Filed(Next(s, e))
  {
    hide Filed;
    if e.Publish? {
      PublishKeepsFiled(s, e.c, e.sid);
    } else {
      FiledWhenFewer(s, Next(s, e));
    }
  }

  /** The exact frame of the ownership argument: a step keeps the invariant precisely
      when it neither restarts a stopped session nor publishes a listed SID. */
  lemma StepKeepsInv(s: State, e: Event)
    requires Inv(s) && Enabled(s, e)
    ensures Inv(Next(s, e)) <==> Clean(s, e)
  {
    hide Filed;
    if Clean(s, e) {
      StepKeepsFiled(s, e);
      if e.Allocate? || e.GiveBack? {
        HandlerPorts(s, e);
      } else if e.Publish? {
        PublishPorts(s, e.c, e.sid);
      } else if e.ReleasePort? {
        ReleasePorts(s, e.t);
      } else {
        OtherPorts(s, e);
      }
      match e
      case Publish(c, sid) => PublishCalls(s, c, sid); PublishTable(s, c, sid);
      case Start(c, sid) => StartCalls(s, c, sid); StartTable(s, c, sid);
      case Swap(t, id) => if s.heap[id].life == Active { SwapCalls(s, t, id); SwapTable(s, t, id); }
      case RemoveSid(t) => RemoveCalls(s, t); RemoveTable(s, t);
      case ReleasePort(t) => ReleaseStep(s, t);
      case _ => OtherSteps(s, e);
    } else if e.Start? {
      RestartBreaks(s, e.c, e.sid);
    } else {
      RepublishBreaks(s, e.c, e.sid);
    }
  }

  /** A restarted session is active although its port is released or about to be. */
  lemma RestartBreaks(s: State, c: ConnId, sid: SID)
    requires Inv(s) && Enabled(s, Start(c, sid)) && s.heap[s.conns[c][sid]].life == Stopped
    ensures !Inv(Next(s, Start(c, sid)))
  {
    hide Filed;
    var s', id := Next(s, Start(c, sid)), s.conns[c][sid];
    if Stopping(s, id) {
      var t :| t in s.stops && s.stops[t].id == id;
      assert s'.heap[s'.stops[t].id].life == Active;
    }
  }

  /** The session listed before is still at work but no longer listed. */
  lemma RepublishBreaks(s: State, c: ConnId, sid: SID)
    requires Inv(s) && Enabled(s, Publish(c, sid)) && sid in s.table
    ensures !Inv(Next(s, Publish(c, sid)))
  {
    hide Filed;
    var s', id := Next(s, Publish(c, sid)), s.table[sid];
    assert s'.heap[id] == s.heap[id] && s'.table[sid] != id;
    StopsSame(s, s');
    assert Listed(s, id) && !Listed(s', id);
  }

  // ---- Runs ----

  predicate Runs(s: State, events: seq<Event>)
    requires s.WellFormed()
    decreases |events|
  {
    events == [] || (Enabled(s, events[0]) && Runs(Next(s, events[0]), events[1..]))
  }

  function Replay(s: State, events: seq<Event>): (s': State)
    requires s.WellFormed() && Runs(s, events)
    ensures s'.WellFormed()
    decreases |events|
  {
    if events == [] then s else Replay(Next(s, events[0]), events[1..])
  }

  predicate CleanRun(s: State, events: seq<Event>)
    requires s.WellFormed() && Runs(s, events)
    decreases |events|
  {
    events == [] || (Clean(s, events[0]) && CleanRun(Next(s, events[0]), events[1..]))
  }

  lemma {:induction false} RunConcat(s: State, a: seq<Event>, b: seq<Event>)
    requires s.WellFormed() && Runs(s, a) && Runs(Replay(s, a), b)
    ensures Runs(s, a + b) && Replay(s, a + b) == Replay(Replay(s, a), b)
    decreases |a|
  {
    hide Next, Enabled;
    if a == [] {
      assert a + b == b;
    } else {
      assert (a + b)[1..] == a[1..] + b;
      RunConcat(Next(s, a[0]), a[1..], b);
    }
  }

  lemma OneStep(s: State, e: Event)
    requires s.WellFormed() && Enabled(s, e)
    ensures Runs(s, [e]) && Replay(s, [e]) == Next(s, e)
  {
    hide Next, Enabled;
    var rest := [e][1..];
    assert rest == [];
    assert Runs(Next(s, e), rest) && Replay(Next(s, e), rest) == Next(s, e);
  }

  lemma RunSnoc(s: State, a: seq<Event>, e: Event)
    requires s.WellFormed() && Runs(s, a) && Enabled(Replay(s, a), e)
    ensures Runs(s, a + [e]) && Replay(s, a + [e]) == Next(Replay(s, a), e)
  {
    var t := Replay(s, a);
    OneStep(t, e);
    RunConcat(s, a, [e]);
  }

  lemma {:induction false} CleanRunKeepsInv(s: State, events: seq<Event>)
    requires Inv(s) && Runs(s, events) && CleanRun(s, events)
    ensures Inv(Replay(s, events))
    decreases |events|
  {
    hide Next, Enabled, Clean, PortsOwned, ReleasedOnce, TableExact, StopsExact, Filed;
    if events != [] {
      StepKeepsInv(s, events[0]);
      CleanRunKeepsInv(Next(s, events[0]), events[1..]);
    }
  }

  lemma {:induction false} RunKeepsFiled(s: State, events: seq<Event>)
    requires s.WellFormed() && Filed(s) && Runs(s, events)
    ensures Filed(Replay(s, events))
    decreases |events|
  {
    hide Next, Enabled, Filed;
    if events != [] {
      StepKeepsFiled(s, events[0]);
      RunKeepsFiled(Next(s, events[0]), events[1..]);
    }
  }

  /** In every reachable state of a clean run: two sessions that are requested or active
      never share a port, their ports are marked, no session releases its port twice,
      and a stopped session has released it unless a call is still at work on it. */
  lemma ReachableOwnership(events: seq<Event>, x: Id, y: Id)
    requires Runs(INITIAL, events) && CleanRun(INITIAL, events)
    requires x < |Replay(INITIAL, events).heap| && y < |Replay(INITIAL, events).heap|
    ensures var s := Replay(INITIAL, events);
            && s.released[x] <= 1
            && (s.released[x] == 1 <==> s.heap[x].life == Stopped && !Stopping(s, x))
            && (s.heap[x].life != Stopped ==> s.heap[x].port in s.used && Listed(s, x))
            && (s.heap[x].life != Stopped && s.heap[y].life != Stopped && x != y ==> s.heap[x].port != s.heap[y].port)
  {
    hide Filed;
    InitialInv();
    CleanRunKeepsInv(INITIAL, events);
    var s := Replay(INITIAL, events);
    if s.heap[x].life != Stopped {
      assert Owns(s, OfSession(x));
      if s.heap[y].life != Stopped && x != y {
        assert Owns(s, OfSession(y));
        assert OfSession(x) != OfSession(y);
      }
    }
  }

  /** With no call and no request handler under way, the marked ports are exactly the
      ports of the sessions in the table, all of them requested or active. */
  lemma QuiescentPorts(s: State)
    requires Inv(s) && s.stops == map[] && s.holding == map[]
    ensures s.used == set sid | sid in s.table :: s.heap[s.table[sid]].port
    ensures forall sid :: sid in s.table ==> s.heap[s.table[sid]].life != Stopped
  {
    hide Filed;
    forall sid | sid in s.table ensures s.heap[s.table[sid]].life != Stopped {
      assert Listed(s, s.table[sid]);
    }
    forall p | p in s.used ensures exists sid :: sid in s.table && s.heap[s.table[sid]].port == p {
      var o :| Owns(s, o) && PortOf(s, o) == p;
      assert Listed(s, o.id);
    }
    forall sid | sid in s.table ensures s.heap[s.table[sid]].port in s.used {
      assert Owns(s, OfSession(s.table[sid]));
    }
  }

  // ---- Sessions nobody can stop ----

  /** Requested, never started, and dropped by its connection. */
  ghost predicate Orphaned(s: State, id: Id) {
    && id < |s.heap| && s.heap[id].life == Requested
    && forall c, sid :: c in s.conns && sid in s.conns[c] ==> s.conns[c][sid] != id
  }

  lemma OrphanStep(s: State, e: Event, id: Id)
    requires s.WellFormed() && Enabled(s, e) && Orphaned(s, id)
    ensures Orphaned(Next(s, e), id) && Next(s, e).heap[id] == s.heap[id]
  {
    var t := Next(s, e);
    assert t.heap[id] == s.heap[id];
    forall c, sid | c in t.conns && sid in t.conns[c] ensures t.conns[c][sid] != id {
      assert t.conns[c][sid] == |s.heap| || (c in s.conns && sid in s.conns[c] && s.conns[c][sid] == t.conns[c][sid]);
    }
  }

  lemma OrphanHoldsPort(s: State, id: Id)
    requires Inv(s) && Orphaned(s, id)
    ensures Listed(s, id) && s.heap[id].port in s.used
  {
    hide Filed;
    assert Owns(s, OfSession(id));
  }

  /** stopSession does nothing to a session that was never started, so one dropped
      before its start stays listed and keeps its port for ever. */
  lemma {:induction false} OrphanKeepsPort(s: State, events: seq<Event>, id: Id)
    requires Inv(s) && Runs(s, events) && CleanRun(s, events) && Orphaned(s, id)
    ensures var s' := Replay(s, events);
            Orphaned(s', id) && Listed(s', id) && s'.heap[id] == s.heap[id] && s'.heap[id].port in s'.used
    decreases |events|
  {
    hide Next, Enabled, Clean, PortsOwned, ReleasedOnce, TableExact, StopsExact, Filed;
    if events == [] {
      OrphanHoldsPort(s, id);
    } else {
      StepKeepsInv(s, events[0]);
      OrphanStep(s, events[0], id);
      OrphanKeepsPort(Next(s, events[0]), events[1..], id);
    }
  }

  lemma OrphanStays(s: State, events: seq<Event>, id: Id)
    requires Inv(s) && Runs(s, events) && CleanRun(s, events) && Orphaned(s, id)
    ensures id < |Replay(s, events).heap| && Replay(s, events).heap[id].life == Requested
  {
    OrphanKeepsPort(s, events, id);
  }

  /** Of a session that is listed by a connection exactly three events make an orphan:
      its connection drops it, its connection ends, or its connection publishes its
      SID again. */
  lemma OrphanedExactly(s: State, e: Event, c: ConnId, id: Id)
    requires Inv(s) && Enabled(s, e) && ListedBy(s, c, id) && s.heap[id].life == Requested
    ensures Orphaned(Next(s, e), id) <==>
              e == Forget(c, s.heap[id].sid) || e == Disconnect(c) || e == Publish(c, s.heap[id].sid)
  {
    hide PortsOwned, ReleasedOnce, TableExact, StopsExact, Filed;
    var t, sid := Next(s, e), s.heap[id].sid;
    OnePlace(s, c, id);
    if e != Forget(c, sid) && e != Disconnect(c) && e != Publish(c, sid) {
      assert c in t.conns && sid in t.conns[c] && t.conns[c][sid] == id;
    }
  }

  lemma OnePlace(s: State, c: ConnId, id: Id)
    requires Inv(s) && ListedBy(s, c, id)
    ensures s.WellFormed()
    ensures forall d, x :: d in s.conns && x in s.conns[d] && s.conns[d][x] == id ==> d == c && x == s.heap[id].sid
  {
    hide PortsOwned, ReleasedOnce, TableExact, StopsExact;
    forall d, x | d in s.conns && x in s.conns[d] && s.conns[d][x] == id ensures d == c && x == s.heap[id].sid {
      assert ListedBy(s, d, id);
    }
  }

  lemma {:induction false} FreshThread(used: set<ThreadId>) returns (t: ThreadId)
    ensures forall u :: u in used ==> u < t
    decreases |used|
  {
    t := 0;
    if used != {} {
      var u :| u in used;
      var rest := used - {u};
      var r := FreshThread(rest);
      t := if u < r then r else u + 1;
      assert forall v :: v in used ==> v == u || v in rest;
    }
  }

  /** A run, through the connection that lists it, that starts and stops a session and
      gives back its port. */
  lemma StopThroughConnection(s: State, c: ConnId, id: Id) returns (events: seq<Event>)
    requires s.WellFormed() && ListedBy(s, c, id) && c !in s.holding && s.heap[id].life == Requested
    ensures Runs(s, events) && CleanRun(s, events)
    ensures id < |Replay(s, events).heap| && Replay(s, events).heap[id].life == Stopped
              && id in Replay(s, events).released
  {
    hide Next, Enabled, Runs, Replay, CleanRun;
    var t := FreshThread(s.stops.Keys);
    StopSteps(s, c, id, t);
    events := StartToRelease(c, s.heap[id].sid, t, id);
    OneCleanStart(s, events, c, s.heap[id].sid);
  }

  function StartToRelease(c: ConnId, sid: SID, t: ThreadId, id: Id): seq<Event> {
    [Start(c, sid), Swap(t, id), RemoveSid(t)] + [ReleasePort(t)]
  }

  lemma StopSteps(s: State, c: ConnId, id: Id, t: ThreadId)
    requires s.WellFormed() && ListedBy(s, c, id) && c !in s.holding && s.heap[id].life == Requested && t !in s.stops
    ensures var events := StartToRelease(c, s.heap[id].sid, t, id);
            && Runs(s, events) && id < |Replay(s, events).heap|
            && Replay(s, events).heap[id].life == Stopped && id in Replay(s, events).released
  {
    hide Runs, Replay;
    var sid := s.heap[id].sid;
    ThreeSteps(s, Start(c, sid), Swap(t, id), RemoveSid(t));
    RunSnoc(s, [Start(c, sid), Swap(t, id), RemoveSid(t)], ReleasePort(t));
  }

  lemma OneCleanStart(s: State, events: seq<Event>, c: ConnId, sid: SID)
    requires s.WellFormed() && Runs(s, events) && events != [] && events[0] == Start(c, sid)
    requires s.heap[s.conns[c][sid]].life != Stopped
    requires forall i :: 1 <= i < |events| ==> !events[i].Start? && !events[i].Publish?
    ensures CleanRun(s, events)
  {
    OnlyStopsClean(Next(s, events[0]), events[1..]);
  }

  lemma {:induction false} OnlyStopsClean(s: State, events: seq<Event>)
    requires s.WellFormed()
    requires forall i :: 0 <= i < |events| ==> !events[i].Start? && !events[i].Publish?
    ensures Runs(s, events) ==> CleanRun(s, events)
    decreases |events|
  {
    hide Next, Enabled;
    if Runs(s, events) && events != [] {
      OnlyStopsClean(Next(s, events[0]), events[1..]);
    }
  }

  lemma StopFromAnywhere(s: State, c: ConnId, id: Id) returns (events: seq<Event>)
    requires s.WellFormed() && ListedBy(s, c, id) && s.heap[id].life == Requested
    ensures Runs(s, events) && CleanRun(s, events)
    ensures id < |Replay(s, events).heap| && Replay(s, events).heap[id].life == Stopped
              && id in Replay(s, events).released
  {
    if c in s.holding {
      var rest := StopThroughConnection(Next(s, GiveBack(c)), c, id);
      events := [GiveBack(c)] + rest;
      assert events[1..] == rest;
    } else {
      events := StopThroughConnection(s, c, id);
    }
  }

  ghost predicate StopsAndReleases(s: State, events: seq<Event>, id: Id)
    requires s.WellFormed()
  {
    Runs(s, events) && CleanRun(s, events)
    && var t := Replay(s, events);
    id < |t.heap| && t.heap[id].life == Stopped && id in t.released
  }

  /** Which sessions can still be stopped: some clean run ends with a requested session
      stopped and its port given back if and only if a connection still lists it. */
  lemma StoppableExactly(s: State, id: Id)
    requires Inv(s) && id < |s.heap| && s.heap[id].life == Requested
    ensures (exists events :: StopsAndReleases(s, events, id)) <==> exists c :: ListedBy(s, c, id)
    ensures (exists c :: ListedBy(s, c, id)) <==> !Orphaned(s, id)
  {
    hide PortsOwned, ReleasedOnce, TableExact, StopsExact;
    if Orphaned(s, id) {
      forall events ensures !StopsAndReleases(s, events, id) {
        if Runs(s, events) && CleanRun(s, events) {
          OrphanStays(s, events, id);
        }
      }
    } else {
      var c, sid :| c in s.conns && sid in s.conns[c] && s.conns[c][sid] == id;
      assert ListedBy(s, c, id);
      var events := StopFromAnywhere(s, c, id);
      assert StopsAndReleases(s, events, id);
    }
  }

  // ---- What the two guards exclude ----

  lemma ThreeSteps(s: State, d: Event, e: Event, f: Event)
    requires s.WellFormed() && Enabled(s, d) && Enabled(Next(s, d), e) && Enabled(Next(Next(s, d), e), f)
    ensures Runs(s, [d, e, f]) && Replay(s, [d, e, f]) == Next(Next(Next(s, d), e), f)
  {
    RunSnoc(s, [], d);
    assert [] + [d] == [d] && [d] + [e] == [d, e] && [d, e] + [f] == [d, e, f];
    RunSnoc(s, [d], e);
    RunSnoc(s, [d, e], f);
  }

  lemma TwoSteps(s: State, d: Event, e: Event)
    requires s.WellFormed() && Enabled(s, d) && Enabled(Next(s, d), e)
    ensures Runs(s, [d, e]) && Replay(s, [d, e]) == Next(Next(s, d), e)
    ensures Clean(s, d) && Clean(Next(s, d), e) ==> CleanRun(s, [d, e])
  {
    hide Next, Enabled, Clean;
    OneStep(Next(s, d), e);
    assert [d, e][1..] == [e] && [e][1..] == [];
    assert CleanRun(Next(Next(s, d), e), [e][1..]);
  }

  /** A request that leads to a session, on a fresh server. */
  function FirstRequest(sid: SID, port: uint16): seq<Event> {
    [Connect(0), Allocate(0, port), Publish(0, sid)]
  }

  /** A start and a complete stop of session 0. */
  function StartAndStop(sid: SID): seq<Event> {
    [Start(0, sid), Swap(1, 0), RemoveSid(1)]
  }

  lemma AfterFirstRequest(sid: SID, port: uint16)
    ensures Runs(INITIAL, FirstRequest(sid, port))
    ensures Replay(INITIAL, FirstRequest(sid, port)) ==
            State({port}, map[sid := 0], [Session(sid, port, Requested)], map[0 := map[sid := 0]], map[], map[],
                  multiset{})
  {
    hide Runs, Replay;
    ThreeSteps(INITIAL, Connect(0), Allocate(0, port), Publish(0, sid));
  }

  lemma AfterStop(sid: SID, port: uint16, s: State)
    requires s == State({port}, map[sid := 0], [Session(sid, port, Requested)], map[0 := map[sid := 0]], map[],
                        map[], multiset{})
    ensures s.WellFormed() && Runs(s, StartAndStop(sid))
    ensures Replay(s, StartAndStop(sid)) ==
            State({port}, map[], [Session(sid, port, Stopped)], map[0 := map[sid := 0]], map[], map[1 := Release(0)],
                  multiset{})
  {
    hide Runs, Replay;
    ThreeSteps(s, Start(0, sid), Swap(1, 0), RemoveSid(1));
  }

  /** The port is given back and granted to a second connection; then the first starts
      its stopped session again, which can bind the port as nobody uses it yet. */
  function ReuseAndRestart(sid: SID, other: SID, port: uint16): seq<Event> {
    [ReleasePort(1), Connect(1), Allocate(1, port)] + [Publish(1, other), Start(0, sid)]
  }

  lemma AfterReuse(sid: SID, port: uint16, s: State)
    requires s == State({port}, map[], [Session(sid, port, Stopped)], map[0 := map[sid := 0]],
                        map[], map[1 := Release(0)], multiset{})
    ensures var reuse := [ReleasePort(1), Connect(1), Allocate(1, port)];
            && s.WellFormed() && Runs(s, reuse)
            && Replay(s, reuse) == State({port}, map[], [Session(sid, port, Stopped)],
                                         map[0 := map[sid := 0], 1 := map[]], map[1 := port], map[], multiset{0})
  {
    hide Runs, Replay;
    ThreeSteps(s, ReleasePort(1), Connect(1), Allocate(1, port));
  }

  lemma AfterRestart(sid: SID, other: SID, port: uint16, s: State)
    requires s == State({port}, map[], [Session(sid, port, Stopped)], map[0 := map[sid := 0], 1 := map[]],
                        map[1 := port], map[], multiset{0})
    ensures var last := [Publish(1, other), Start(0, sid)];
            && s.WellFormed() && Runs(s, last)
            && var t := Replay(s, last);
            && t.heap == [Session(sid, port, Active), Session(other, port, Requested)]
            && t.used == {port} && t.table == map[other := 1]
  {
    hide Runs, Replay;
    var t := Next(s, Publish(1, other));
    assert t.heap == [Session(sid, port, Stopped), Session(other, port, Requested)] && t.conns[0] == map[sid := 0];
    assert Next(t, Start(0, sid)) == SetLife(t, 0, Active);
    hide Next, Enabled;
    TwoSteps(s, Publish(1, other), Start(0, sid));
  }

  /** A session is started and stopped, its port is granted to another connection, and a
      second Start-Sessions starts it once more: two sessions that are requested or at
      work own one port. */
  lemma RestartCounterexample(sid: SID, other: SID, port: uint16)
    ensures var events := FirstRequest(sid, port) + (StartAndStop(sid) + ReuseAndRestart(sid, other, port));
            && Runs(INITIAL, events)
            && var s := Replay(INITIAL, events);
            && s.heap == [Session(sid, port, Active), Session(other, port, Requested)]
            && s.used == {port} && s.table == map[other := 1]
  {
    hide Next, Enabled, Runs, Replay;
    AfterFirstRequest(sid, port);
    var s3 := Replay(INITIAL, FirstRequest(sid, port));
    AfterStop(sid, port, s3);
    var s6 := Replay(s3, StartAndStop(sid));
    var reuse, last := [ReleasePort(1), Connect(1), Allocate(1, port)], [Publish(1, other), Start(0, sid)];
    AfterReuse(sid, port, s6);
    AfterRestart(sid, other, port, Replay(s6, reuse));
    RunConcat(s6, reuse, last);
    RunConcat(s3, StartAndStop(sid), reuse + last);
    RunConcat(INITIAL, FirstRequest(sid, port), StartAndStop(sid) + (reuse + last));
  }

  /** Two connections allocate for the same SID before either publishes it. */
  function RaceToCheck(p: uint16, q: uint16): seq<Event> {
    [Connect(0), Connect(1), Allocate(0, p)] + [Allocate(1, q)]
  }

  /** Both then publish. */
  function RaceToPublish(sid: SID): seq<Event> {
    [Publish(0, sid), Publish(1, sid)]
  }

  lemma AfterCheck(p: uint16, q: uint16)
    requires p != q
    ensures Runs(INITIAL, RaceToCheck(p, q))
    ensures Replay(INITIAL, RaceToCheck(p, q)) ==
            State({p, q}, map[], [], map[0 := map[], 1 := map[]], map[0 := p, 1 := q], map[], multiset{})
  {
    ThreeSteps(INITIAL, Connect(0), Connect(1), Allocate(0, p));
    RunSnoc(INITIAL, [Connect(0), Connect(1), Allocate(0, p)], Allocate(1, q));
  }

  lemma AfterPublish(sid: SID, p: uint16, q: uint16, s: State)
    requires p != q
    requires s == State({p, q}, map[], [], map[0 := map[], 1 := map[]], map[0 := p, 1 := q], map[], multiset{})
    ensures s.WellFormed() && Runs(s, RaceToPublish(sid))
    ensures var t := Replay(s, RaceToPublish(sid));
            && t.heap == [Session(sid, p, Requested), Session(sid, q, Requested)]
            && t.table == map[sid := 1] && t.used == {p, q}
  {
    hide Runs, Replay;
    TwoSteps(s, Publish(0, sid), Publish(1, sid));
  }

  /** Two connections pass the duplicate check for a SID, which falls between the
      allocation and the publication, before either publishes it: the first session
      is at work, unlisted, and holds its port. */
  lemma DuplicateSidCounterexample(sid: SID, p: uint16, q: uint16)
    requires p != q
    ensures var events := RaceToCheck(p, q) + RaceToPublish(sid);
            && Runs(INITIAL, RaceToCheck(p, q)) && sid !in Replay(INITIAL, RaceToCheck(p, q)).table
            && Runs(INITIAL, events)
            && var s := Replay(INITIAL, events);
            && s.heap == [Session(sid, p, Requested), Session(sid, q, Requested)]
            && s.table == map[sid := 1] && s.used == {p, q}
  {
    AfterCheck(p, q);
    AfterPublish(sid, p, q, Replay(INITIAL, RaceToCheck(p, q)));
    RunConcat(INITIAL, RaceToCheck(p, q), RaceToPublish(sid));
  }
}
