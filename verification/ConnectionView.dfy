/** One control connection's view of the session machine: what its handler alone
    decides, whatever the other goroutines do in between. */
module ConnectionView {
  import opened Bytes
  import opened ControlMessages
  import opened SessionMachine

  /** The connection's sessions with their ports, and a port not yet published. */
  datatype View = View(ports: map<SID, uint16>, held: Option<uint16>)

  function ViewOf(s: State, c: ConnId): View
    requires s.WellFormed() && c in s.conns
  {
    View(map sid | sid in s.conns[c] :: s.heap[s.conns[c][sid]].port,
         if c in s.holding then Some(s.holding[c]) else None)
  }

  /** Events of the connection's own handler; the rest belong to other connections and
      to callers of stopSession. */
  predicate Own(c: ConnId, e: Event) {
    match e
    case Connect(d) => d == c
    case Disconnect(d) => d == c
    case Allocate(d, _) => d == c
    case GiveBack(d) => d == c
    case Publish(d, _) => d == c
    case Start(d, _) => d == c
    case Forget(d, _) => d == c
    case _ => false
  }

  predicate Stays(e: Event) {
    !e.Connect? && !e.Disconnect?
  }

  function ViewStep(v: View, e: Event): View {
    match e
    case Allocate(_, port) => v.(held := Some(port))
    case GiveBack(_) => v.(held := None)
    case Publish(_, sid) => if v.held.None? then v else View(v.ports[sid := v.held.value], None)
    case Forget(_, sid) => v.(ports := v.ports - {sid})
    case _ => v
  }

  function ViewFold(v: View, own: seq<Event>): View
    decreases |own|
  {
    if own == [] then v else ViewFold(ViewStep(v, own[0]), own[1..])
  }

  /** The part of a run that is the connection's own. */
  function Mine(c: ConnId, events: seq<Event>): seq<Event> {
    if events == [] then []
    else (if Own(c, events[0]) then [events[0]] else []) + Mine(c, events[1..])
  }

  lemma {:induction false} MineConcat(c: ConnId, a: seq<Event>, b: seq<Event>)
    ensures Mine(c, a + b) == Mine(c, a) + Mine(c, b)
    decreases |a|
  {
    if a == [] {
      assert a + b == b;
    } else {
      hide Mine, Own;
      assert a == [a[0]] + a[1..] && a + b == [a[0]] + (a[1..] + b);
      MineFirst(c, a[0], a[1..]);
      MineFirst(c, a[0], a[1..] + b);
      MineConcat(c, a[1..], b);
    }
  }

  lemma MineFirst(c: ConnId, e: Event, rest: seq<Event>)
    ensures Mine(c, [e] + rest) == (if Own(c, e) then [e] else []) + Mine(c, rest)
  {
    hide Own;
    assert ([e] + rest)[1..] == rest;
  }

  lemma MineTwo(c: ConnId, d: Event, e: Event)
    ensures Mine(c, [d, e]) == (if Own(c, d) then [d] else []) + if Own(c, e) then [e] else []
  {
    assert [d, e][1..] == [e] && [e][1..] == [];
    assert Mine(c, [e]) == if Own(c, e) then [e] else [];
  }

  /** Ports of sessions never change, and sessions are only added. */
  ghost predicate KeepsPorts(s: State, t: State) {
    |s.heap| <= |t.heap| && forall i :: 0 <= i < |s.heap| ==> t.heap[i].port == s.heap[i].port
  }

  lemma SamePorts(s: State, t: State, c: ConnId)
    requires s.WellFormed() && t.WellFormed() && c in s.conns && c in t.conns
    requires t.conns[c] == s.conns[c] && KeepsPorts(s, t)
    ensures ViewOf(t, c).ports == ViewOf(s, c).ports
  {
  }

  lemma OtherEvent(s: State, e: Event, c: ConnId)
    requires s.WellFormed() && Enabled(s, e) && c in s.conns && !Own(c, e)
    ensures c in Next(s, e).conns && ViewOf(Next(s, e), c) == ViewOf(s, c)
  {
    OthersStep(s, c, e);
    StepKeepsPorts(s, e);
    hide Next, Enabled, Own;
    SamePorts(s, Next(s, e), c);
  }

  /** Whatever the other goroutines do, a connection's sessions stay as they are. */
  lemma OthersStep(s: State, c: ConnId, e: Event)
    requires s.WellFormed() && Enabled(s, e) && c in s.conns && !Own(c, e)
    ensures c in Next(s, e).conns && Next(s, e).conns[c] == s.conns[c]
    ensures c in Next(s, e).holding <==> c in s.holding
    ensures c in s.holding ==> Next(s, e).holding[c] == s.holding[c]
  {
  }

  lemma StepKeepsPorts(s: State, e: Event)
    requires s.WellFormed() && Enabled(s, e)
    ensures KeepsPorts(s, Next(s, e))
  {
  }

  lemma PublishView(s: State, c: ConnId, sid: SID)
    requires s.WellFormed() && Enabled(s, Publish(c, sid))
    ensures ViewOf(Next(s, Publish(c, sid)), c) == ViewStep(ViewOf(s, c), Publish(c, sid))
  {
    var t := Next(s, Publish(c, sid));
    assert KeepsPorts(s, t);
    assert ViewOf(t, c).ports == ViewOf(s, c).ports[sid := s.holding[c]];
  }

  lemma ForgetView(s: State, c: ConnId, sid: SID)
    requires s.WellFormed() && Enabled(s, Forget(c, sid))
    ensures ViewOf(Next(s, Forget(c, sid)), c) == ViewStep(ViewOf(s, c), Forget(c, sid))
  {
    var t := Next(s, Forget(c, sid));
    assert ViewOf(t, c).ports == ViewOf(s, c).ports - {sid};
  }

  lemma ViewNext(s: State, e: Event, c: ConnId)
    requires s.WellFormed() && Enabled(s, e) && c in s.conns && (Own(c, e) ==> Stays(e))
    ensures c in Next(s, e).conns
    ensures ViewOf(Next(s, e), c) == if Own(c, e) then ViewStep(ViewOf(s, c), e) else ViewOf(s, c)
  {
    if !Own(c, e) {
      OtherEvent(s, e, c);
    } else if e.Publish? {
      PublishView(s, c, e.sid);
    } else if e.Forget? {
      ForgetView(s, c, e.sid);
    } else {
      SamePorts(s, Next(s, e), c);
    }
  }

  /** At lock granularity, with any other connections, timers, reflectors and shutdown
      interleaved, a connection's sessions and their ports change by its own events. */
  lemma {:induction false} ViewReplay(s: State, events: seq<Event>, c: ConnId)
    requires s.WellFormed() && Runs(s, events) && c in s.conns
    requires forall i :: 0 <= i < |events| && Own(c, events[i]) ==> Stays(events[i])
    ensures c in Replay(s, events).conns
    ensures ViewOf(Replay(s, events), c) == ViewFold(ViewOf(s, c), Mine(c, events))
    decreases |events|
  {
    if events != [] {
      var e, rest := events[0], Mine(c, events[1..]);
      ViewNext(s, e, c);
      ViewReplay(Next(s, e), events[1..], c);
      assert Own(c, e) ==> Mine(c, events) == [e] + rest && ([e] + rest)[1..] == rest;
      assert !Own(c, e) ==> Mine(c, events) == rest;
    }
  }

  lemma {:induction false} MineStays(c: ConnId, events: seq<Event>)
    requires forall e :: e in Mine(c, events) ==> Stays(e)
    ensures forall i :: 0 <= i < |events| && Own(c, events[i]) ==> Stays(events[i])
  {
    if events != [] {
      var rest := Mine(c, events[1..]);
      assert forall e :: e in rest ==> e in Mine(c, events);
      MineStays(c, events[1..]);
      forall i | 0 <= i < |events| && Own(c, events[i]) ensures Stays(events[i]) {
        if i == 0 {
          assert events[0] in Mine(c, events);
        } else {
          assert events[1..][i - 1] == events[i];
        }
      }
    }
  }

  function ForgetEvents(c: ConnId, sids: seq<SID>): seq<Event> {
    seq(|sids|, i requires 0 <= i < |sids| => Forget(c, sids[i]))
  }

  lemma {:induction false} ForgetFold(v: View, c: ConnId, sids: seq<SID>)
    ensures ViewFold(v, ForgetEvents(c, sids)) == v.(ports := v.ports - set sid | sid in sids)
    decreases |sids|
  {
    if sids == [] {
      assert v.ports - {} == v.ports;
    } else {
      assert ForgetEvents(c, sids)[1..] == ForgetEvents(c, sids[1..]);
      var w := v.(ports := v.ports - {sids[0]});
      ForgetFold(w, c, sids[1..]);
      assert (set sid | sid in sids) == {sids[0]} + (set sid | sid in sids[1..]);
      assert w.ports - (set sid | sid in sids[1..]) == v.ports - (set sid | sid in sids);
    }
  }
}
