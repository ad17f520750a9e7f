/** Who still has to stop a session (server/server.go): a session at work is listed by a
    connection, whose end stops it, or was dropped by a stop command and has its timer. */
module Supervision {
  import opened ControlMessages
  import opened SessionMachine
  import opened ConnectionView

  /** Every active session is in `pending` or listed by a connection. */
  ghost predicate Watched(s: State, pending: set<Id>) {
    forall id :: 0 <= id < |s.heap| && s.heap[id].life == Active ==> id in pending || exists c :: ListedBy(s, c, id)
  }

  /** Sessions dropped by a stop command and not stopped since. */
  function PendingAfter(s: State, pending: set<Id>, e: Event): set<Id>
    requires s.WellFormed() && Enabled(s, e)
  {
    match e
    case Forget(c, sid) => pending + {s.conns[c][sid]}
    case Swap(_, id) => pending - {id}
    case _ => pending
  }

  /** A session that an event takes off a connection without arming a timer is not at
      work, or has its timer already. */
  predicate Orderly(s: State, pending: set<Id>, e: Event)
    requires s.WellFormed() && Enabled(s, e)
  {
    match e
    case Disconnect(c) => forall sid :: sid in s.conns[c] ==> Covered(s, pending, s.conns[c][sid])
    case Publish(c, sid) => sid in s.conns[c] ==> Covered(s, pending, s.conns[c][sid])
    case _ => true
  }

  predicate Covered(s: State, pending: set<Id>, id: Id)
    requires id < |s.heap|
  {
    s.heap[id].life == Active ==> id in pending
  }

  /** No step forgets a session at work, except exactly the end of a connection that has
      not stopped its own and a publication over one. */
  lemma StepKeepsWatched(s: State, pending: set<Id>, e: Event)
    requires s.WellFormed() && Filed(s) && Watched(s, pending) && Enabled(s, e)
    ensures Watched(Next(s, e), PendingAfter(s, pending, e)) <==> Orderly(s, pending, e)
  {
    if Orderly(s, pending, e) {
      OrderlyWatches(s, pending, e);
    } else if e.Disconnect? {
      var sid :| sid in s.conns[e.c] && !Covered(s, pending, s.conns[e.c][sid]);
      Unwatched(s, pending, e, s.conns[e.c][sid]);
    } else {
      Unwatched(s, pending, e, s.conns[e.c][e.sid]);
    }
  }

  lemma OrderlyWatches(s: State, pending: set<Id>, e: Event)
    requires s.WellFormed() && Filed(s) && Watched(s, pending) && Enabled(s, e) && Orderly(s, pending, e)
    ensures Watched(Next(s, e), PendingAfter(s, pending, e))
  {
    var t := Next(s, e);
    forall id | 0 <= id < |t.heap| && t.heap[id].life == Active
      ensures id in PendingAfter(s, pending, e) || exists c :: ListedBy(t, c, id)
    {
      if e.Start? && id == s.conns[e.c][e.sid] {
        assert ListedBy(t, e.c, id);
      } else {
        assert id < |s.heap| && s.heap[id].life == Active;
        if id !in pending {
          var c :| ListedBy(s, c, id);
          StaysListed(s, pending, e, c, id);
        }
      }
    }
  }

  /** Where a session at work that has no timer is listed, it stays listed or gets one. */
  lemma StaysListed(s: State, pending: set<Id>, e: Event, c: ConnId, id: Id)
    requires s.WellFormed() && Filed(s) && Enabled(s, e) && Orderly(s, pending, e)
    requires ListedBy(s, c, id) && s.heap[id].life == Active && id !in pending
    requires Next(s, e).heap[id].life == Active
    ensures id in PendingAfter(s, pending, e) || ListedBy(Next(s, e), c, id)
  {
    hide Filed;
  }

  lemma Unwatched(s: State, pending: set<Id>, e: Event, id: Id)
    requires s.WellFormed() && Filed(s) && Enabled(s, e) && id < |s.heap| && !Covered(s, pending, id)
    requires e.Disconnect? || (e.Publish? && e.sid in s.conns[e.c] && s.conns[e.c][e.sid] == id)
    requires e.Disconnect? ==> exists sid :: sid in s.conns[e.c] && s.conns[e.c][sid] == id
    ensures !Watched(Next(s, e), PendingAfter(s, pending, e))
  {
    var t := Next(s, e);
    assert ListedBy(s, e.c, id);
    assert t.heap[id] == s.heap[id];
    forall d ensures !ListedBy(t, d, id) {
      if ListedBy(t, d, id) && d != e.c {
        assert ListedBy(s, d, id);
      }
    }
  }

  /** Without two live sessions under one SID a publication never hides one at work. */
  lemma CleanPublishOrderly(s: State, pending: set<Id>, c: ConnId, sid: SID)
    requires Inv(s) && Enabled(s, Publish(c, sid)) && Clean(s, Publish(c, sid))
    ensures Orderly(s, pending, Publish(c, sid))
  {
    hide PortsOwned, ReleasedOnce, StopsExact;
    if sid in s.conns[c] && s.heap[s.conns[c][sid]].life == Active {
      assert Listed(s, s.conns[c][sid]);
    }
  }

  // ---- The cleanup of a connection ----

  /** Whatever the other goroutines do, a session of a connection that is not at work is
      not started. */
  lemma OthersStepDown(s: State, c: ConnId, e: Event, id: Id)
    requires s.WellFormed() && Filed(s) && Enabled(s, e) && !Own(c, e) && ListedBy(s, c, id)
    ensures ListedBy(Next(s, e), c, id)
    ensures s.heap[id].life != Active || (e.Swap? && e.id == id) ==> Next(s, e).heap[id].life != Active
  {
    OthersStep(s, c, e);
    if e.Start? && s.conns[e.c][e.sid] == id {
      assert ListedBy(s, e.c, id);
    }
  }

  /** stopSession has been called for this session. */
  predicate Swapped(events: seq<Event>, id: Id) {
    exists i :: 0 <= i < |events| && events[i].Swap? && events[i].id == id
  }

  lemma {:induction false} StaysDown(s: State, c: ConnId, events: seq<Event>, id: Id)
    requires s.WellFormed() && Filed(s) && Runs(s, events) && c in s.conns && Mine(c, events) == []
    requires ListedBy(s, c, id) && (s.heap[id].life != Active || Swapped(events, id))
    ensures ListedBy(Replay(s, events), c, id) && Replay(s, events).heap[id].life != Active
    decreases |events|
  {
    hide Next, Enabled, Filed;
    if events != [] {
      var e, t := events[0], Next(s, events[0]);
      NoneMine(c, events);
      OthersStepDown(s, c, e, id);
      OthersStep(s, c, e);
      StepKeepsFiled(s, e);
      if s.heap[id].life == Active && !(e.Swap? && e.id == id) {
        var i :| 0 <= i < |events| && events[i].Swap? && events[i].id == id;
        assert events[1..][i - 1] == events[i];
      }
      StaysDown(t, c, events[1..], id);
    }
  }

  lemma NoneMine(c: ConnId, events: seq<Event>)
    requires events != [] && Mine(c, events) == []
    ensures !Own(c, events[0]) && Mine(c, events[1..]) == []
  {
  }

  lemma {:induction false} OthersRun(s: State, c: ConnId, events: seq<Event>)
    requires s.WellFormed() && Filed(s) && Runs(s, events) && c in s.conns && Mine(c, events) == []
    ensures c in Replay(s, events).conns && Replay(s, events).conns[c] == s.conns[c]
    ensures c in Replay(s, events).holding <==> c in s.holding
    decreases |events|
  {
    hide Next, Enabled, Filed;
    if events != [] {
      NoneMine(c, events);
      OthersStep(s, c, events[0]);
      StepKeepsFiled(s, events[0]);
      OthersRun(Next(s, events[0]), c, events[1..]);
    }
  }

  /** When the handler of a connection has ended and every session of the connection has
      seen a stopSession call since, the connection may go, whatever else happened in
      between and in whatever order. */
  lemma CleanupOrderly(s: State, c: ConnId, events: seq<Event>, pending: set<Id>)
    requires s.WellFormed() && Filed(s) && Runs(s, events) && c in s.conns && c !in s.holding && Mine(c, events) == []
    requires forall id :: ListedBy(s, c, id) ==> Swapped(events, id)
    ensures Enabled(Replay(s, events), Disconnect(c)) && Orderly(Replay(s, events), pending, Disconnect(c))
  {
    var t := Replay(s, events);
    OthersRun(s, c, events);
    forall sid | sid in t.conns[c] ensures Covered(t, pending, t.conns[c][sid]) {
      assert ListedBy(s, c, s.conns[c][sid]);
      StaysDown(s, c, events, s.conns[c][sid]);
    }
  }

  // ---- Runs ----

  function Pending(s: State, pending: set<Id>, events: seq<Event>): set<Id>
    requires s.WellFormed() && Runs(s, events)
    decreases |events|
  {
    if events == [] then pending else Pending(Next(s, events[0]), PendingAfter(s, pending, events[0]), events[1..])
  }

  /** No connection goes with a session at work that nobody has dropped. */
  predicate OrderlyEnds(s: State, pending: set<Id>, events: seq<Event>)
    requires s.WellFormed() && Runs(s, events)
    decreases |events|
  {
    events == []
    || (&& (events[0].Disconnect? ==> Orderly(s, pending, events[0]))
        && OrderlyEnds(Next(s, events[0]), PendingAfter(s, pending, events[0]), events[1..]))
  }

  lemma {:induction false} RunKeepsWatched(s: State, pending: set<Id>, events: seq<Event>)
    requires Inv(s) && Watched(s, pending) && Runs(s, events) && CleanRun(s, events) && OrderlyEnds(s, pending, events)
    ensures Inv(Replay(s, events)) && Watched(Replay(s, events), Pending(s, pending, events))
    decreases |events|
  {
    hide Next, Enabled, Clean, PortsOwned, ReleasedOnce, TableExact, StopsExact, Filed, Watched, Orderly, PendingAfter;
    if events != [] {
      var e := events[0];
      EventOrderly(s, pending, e);
      StepKeepsWatched(s, pending, e);
      StepKeepsInv(s, e);
      RunKeepsWatched(Next(s, e), PendingAfter(s, pending, e), events[1..]);
    }
  }

  lemma EventOrderly(s: State, pending: set<Id>, e: Event)
    requires Inv(s) && Enabled(s, e) && Clean(s, e) && (e.Disconnect? ==> Orderly(s, pending, e))
    ensures Orderly(s, pending, e)
  {
    hide Clean, PortsOwned, ReleasedOnce, TableExact, StopsExact, Filed, Covered;
    if e.Publish? {
      CleanPublishOrderly(s, pending, e.c, e.sid);
    }
  }

  /** When no connection is left, no timer runs and no call is at work, no session is
      active, and the ports still marked are those of sessions that were never started
      and that nobody can stop any more. */
  lemma NothingLeft(s: State)
    requires Inv(s) && Watched(s, {}) && s.conns == map[] && s.stops == map[]
    ensures forall id :: 0 <= id < |s.heap| ==> s.heap[id].life != Active
    ensures forall id :: 0 <= id < |s.heap| && s.heap[id].life == Requested ==> Orphaned(s, id) && Listed(s, id)
    ensures s.used == set id: Id | 0 <= id < |s.heap| && s.heap[id].life == Requested :: s.heap[id].port
  {
    hide Filed;
    forall id | 0 <= id < |s.heap| ensures s.heap[id].life != Active {
      assert forall c :: !ListedBy(s, c, id);
    }
    assert s.holding.Keys <= s.conns.Keys;
    forall p | p in s.used
      ensures exists id: Id :: id < |s.heap| && s.heap[id].life == Requested && s.heap[id].port == p
    {
      var o :| Owns(s, o) && PortOf(s, o) == p;
      assert s.heap[o.id].life == Requested;
    }
    forall id | 0 <= id < |s.heap| && s.heap[id].life == Requested ensures s.heap[id].port in s.used && Listed(s, id) {
      assert Owns(s, OfSession(id));
    }
  }

  /** So over every clean run from the empty server, at lock granularity, in which the
      connections clean up: when all is over, only sessions never started hold ports. */
  lemma AllReturned(events: seq<Event>)
    requires Runs(INITIAL, events) && CleanRun(INITIAL, events) && OrderlyEnds(INITIAL, {}, events)
    ensures var s := Replay(INITIAL, events);
            s.conns == map[] && Pending(INITIAL, {}, events) == {} && s.stops == map[] ==>
              && (forall id :: 0 <= id < |s.heap| ==> s.heap[id].life != Active)
              && s.used == set id: Id | 0 <= id < |s.heap| && s.heap[id].life == Requested :: s.heap[id].port
  {
    InitialInv();
    RunKeepsWatched(INITIAL, {}, events);
    var s := Replay(INITIAL, events);
    if s.conns == map[] && Pending(INITIAL, {}, events) == {} && s.stops == map[] {
      NothingLeft(s);
    }
  }
}
