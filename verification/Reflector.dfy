/** The loop of a session's reflector in server/server.go: which packets count as
    failures, when the session gives up, and how reflections are numbered. */
module Reflector {
  import opened Bytes
  import opened CbcStream
  import opened TestPackets
  import opened Timestamps

  const RESET_WINDOW := 30_000_000_000     // 30 s in nanoseconds
  const DEFAULT_MAX_FAILURES := 100

  /** What happens to a session: startSession, which may come again after a stop and then
      leaves all counters as they are; or what one turn of the loop comes to: a stop by
      somebody else, a read timeout, a read error, or a packet and how processing it went. */
  datatype Input =
    | Started(now: int)
    | Halted
    | Timeout(now: int)
    | ReadError
    | Reflected(now: int)
    | HmacFailure(now: int)
    | Overrun
    | OtherFailure

  datatype Ending = StillRunning | StoppedElsewhere | Idle | TooManyFailures | Crashed

  datatype Counters = Counters(hmacFailures: uint32, lastFailure: Option<int>, startTime: int, reflected: uint32)

  /** effectiveMaxHMACFailures. */
  function EffectiveMax(configured: uint32): uint32 {
    if configured == 0 then DEFAULT_MAX_FAILURES else configured
  }

  // ---- What the counter is meant to be ----

  /** Failures i and j of a history with none in between. */
  predicate Neighbours(h: seq<Input>, i: nat, j: nat) {
    i < j < |h| && h[i].HmacFailure? && h[j].HmacFailure? && forall k :: i < k < j ==> !h[k].HmacFailure?
  }

  /** From b on nothing was reflected and no two failures lie more than the window apart. */
  predicate Streak(h: seq<Input>, b: nat) {
    && b <= |h|
    && (forall k :: b <= k < |h| ==> !h[k].Reflected?)
    && (forall i, j :: b <= i < j < |h| && Neighbours(h, i, j) ==> h[j].now - h[i].now <= RESET_WINDOW)
  }

  /** Where the longest streak up to now begins. */
  function StreakStart(h: seq<Input>, c: nat): (b: nat)
    requires Streak(h, c)
    ensures Streak(h, b) && (b == 0 || !Streak(h, b - 1))
  {
    if c > 0 && Streak(h, c - 1) then StreakStart(h, c - 1) else c
  }

  function Failures(h: seq<Input>): nat {
    if h == [] then 0 else Failures(h[..|h| - 1]) + if h[|h| - 1].HmacFailure? then 1 else 0
  }

  function Count(h: seq<Input>): nat {
    Failures(h[StreakStart(h, |h|)..])
  }

  function Reflections(h: seq<Input>): nat {
    if h == [] then 0 else Reflections(h[..|h| - 1]) + if h[|h| - 1].Reflected? then 1 else 0
  }

  /** When the session last did its work: its last start or reflection. */
  function LastActivity(h: seq<Input>): int {
    if h == [] then 0
    else if h[|h| - 1].Started? || h[|h| - 1].Reflected? then h[|h| - 1].now
    else LastActivity(h[..|h| - 1])
  }

  lemma {:induction false} LastActivityExact(h: seq<Input>, p: nat)
    requires p < |h| && (h[p].Started? || h[p].Reflected?)
    requires forall k :: p < k < |h| ==> !h[k].Started? && !h[k].Reflected?
    ensures LastActivity(h) == h[p].now
  {
    if p < |h| - 1 {
      LastActivityExact(h[..|h| - 1], p);
    }
  }

  function LastFailure(h: seq<Input>): Option<nat> {
    if h == [] then None
    else if h[|h| - 1].HmacFailure? then Some(|h| - 1)
    else LastFailure(h[..|h| - 1])
  }

  lemma {:induction false} LastFailureIsLast(h: seq<Input>)
    ensures match LastFailure(h)
            case None => forall k :: 0 <= k < |h| ==> !h[k].HmacFailure?
            case Some(p) => p < |h| && h[p].HmacFailure? && forall k :: p < k < |h| ==> !h[k].HmacFailure?
  {
    if h != [] {
      LastFailureIsLast(h[..|h| - 1]);
    }
  }

  lemma StreakUnique(h: seq<Input>, b: nat, c: nat)
    requires Streak(h, b) && (b == 0 || !Streak(h, b - 1))
    requires Streak(h, c) && (c == 0 || !Streak(h, c - 1))
    ensures b == c
  {
    if b < c {
      assert Streak(h, c - 1);
    } else if c < b {
      assert Streak(h, b - 1);
    }
  }

  /** Whether the latest failure, at `now`, is too late to continue a streak. */
  predicate Late(g: seq<Input>, now: int) {
    LastFailure(g).Some? && LastFailure(g).value < |g| && g[LastFailure(g).value].HmacFailure?
    && now - g[LastFailure(g).value].now > RESET_WINDOW
  }

  /** How one more turn extends the streaks. */
  lemma StreakExtends(g: seq<Input>, e: Input, b: nat)
    requires b <= |g|
    requires !e.Reflected? && (e.HmacFailure? ==> !Late(g, e.now))
    ensures Streak(g + [e], b) <==> Streak(g, b)
  {
    var h := g + [e];
    LastFailureIsLast(g);
    assert forall k :: 0 <= k < |g| ==> h[k] == g[k];
    assert forall i: nat, j: nat :: i < j < |g| ==> (Neighbours(h, i, j) <==> Neighbours(g, i, j));
    if Streak(g, b) && e.HmacFailure? {
      forall i | b <= i < |g| && Neighbours(h, i, |g|) ensures e.now - h[i].now <= RESET_WINDOW {
        assert LastFailure(g) == Some(i);
      }
    }
  }

  /** What one more turn does to the count. */
  lemma CountSnoc(g: seq<Input>, e: Input)
    ensures Count(g + [e]) ==
            if e.Reflected? then 0
            else if !e.HmacFailure? then Count(g)
            else if Late(g, e.now) then 1
            else Count(g) + 1
  {
    if e.Reflected? {
      ReflectionResets(g, e);
    } else if !e.HmacFailure? || !Late(g, e.now) {
      StreakGoesOn(g, e);
    } else {
      LateFailure(g, e);
    }
  }

  lemma ReflectionResets(g: seq<Input>, e: Input)
    requires e.Reflected?
    ensures Count(g + [e]) == 0
  {
    var h := g + [e];
    assert h[|g|] == e && StreakStart(h, |h|) == |h|;
  }

  lemma StreakGoesOn(g: seq<Input>, e: Input)
    requires !e.Reflected? && (e.HmacFailure? ==> !Late(g, e.now))
    ensures Count(g + [e]) == Count(g) + if e.HmacFailure? then 1 else 0
  {
    var h, n := g + [e], |g|;
    var b, c := StreakStart(h, |h|), StreakStart(g, n);
    StreakExtends(g, e, c);
    if c > 0 { StreakExtends(g, e, c - 1); }
    StreakUnique(h, b, c);
    hide Streak, Late;
    assert h[c..] == g[c..] + [e] && h[c..][..n - c] == g[c..];
  }

  lemma LateFailure(g: seq<Input>, e: Input)
    requires e.HmacFailure? && Late(g, e.now)
    ensures Count(g + [e]) == 1
  {
    var h := g + [e];
    var b := StreakStart(h, |h|);
    LateStreak(g, e, b);
    hide Streak, Late;
    assert h[b..] == g[b..] + [e] && h[b..][..|g| - b] == g[b..];
    NoFailures(g[b..]);
  }

  lemma LateStreak(g: seq<Input>, e: Input, b: nat)
    requires e.HmacFailure? && Late(g, e.now)
    requires Streak(g + [e], b) && (b == 0 || !Streak(g + [e], b - 1))
    ensures b <= |g| && forall k :: b <= k < |g| ==> !g[k].HmacFailure?
  {
    var h, p := g + [e], LastFailure(g).value;
    LastFailureIsLast(g);
    assert Neighbours(h, p, |g|);
    assert Streak(h, |g|);
  }

  lemma {:induction false} NoFailures(h: seq<Input>)
    requires forall k :: 0 <= k < |h| ==> !h[k].HmacFailure?
    ensures Failures(h) == 0
  {
    if h != [] {
      NoFailures(h[..|h| - 1]);
    }
  }

  // ---- The counters ----

  /** What one turn does to the counters. */
  function Turn(s: Counters, e: Input): Counters {
    match e
    case Started(now) => s.(startTime := now)
    case HmacFailure(now) =>
      var n := if s.lastFailure.Some? && now - s.lastFailure.value > RESET_WINDOW then 0 else s.hmacFailures as int;
      s.(hmacFailures := (n + 1) % TWO32, lastFailure := Some(now))
    case Reflected(now) =>
      s.(hmacFailures := 0, startTime := now, reflected := (s.reflected as int + 1) % TWO32)
    case _ => s
  }

  function TimeOfLast(h: seq<Input>): Option<int> {
    LastFailureIsLast(h);
    match LastFailure(h)
    case None => None
    case Some(p) => Some(h[p].now)
  }

  /** The counters say what the history says. */
  ghost predicate Tracks(h: seq<Input>, s: Counters) {
    && s.hmacFailures == Count(h) % TWO32
    && s.lastFailure == TimeOfLast(h)
    && s.startTime == LastActivity(h)
    && s.reflected == Reflections(h) % TWO32
  }

  lemma TracksNew()
    ensures Tracks([], Counters(0, None, 0, 0))
  {
  }

  lemma LastSnoc(g: seq<Input>, e: Input)
    ensures TimeOfLast(g + [e]) == if e.HmacFailure? then Some(e.now) else TimeOfLast(g)
    ensures LastActivity(g + [e]) == if e.Started? || e.Reflected? then e.now else LastActivity(g)
    ensures Reflections(g + [e]) == Reflections(g) + if e.Reflected? then 1 else 0
  {
    var h := g + [e];
    assert h[..|g|] == g && h[|g|] == e;
    LastFailureIsLast(g);
  }

  lemma LateByTime(g: seq<Input>, now: int)
    ensures Late(g, now) <==> TimeOfLast(g).Some? && now - TimeOfLast(g).value > RESET_WINDOW
  {
    LastFailureIsLast(g);
  }

  lemma TracksTurn(g: seq<Input>, e: Input, s: Counters)
    requires Tracks(g, s)
    ensures Tracks(g + [e], Turn(s, e))
  {
    hide Count, TimeOfLast, LastActivity, Reflections, Late;
    CountSnoc(g, e);
    LastSnoc(g, e);
    if e.HmacFailure? { LateByTime(g, e.now); }
    var n, r: int := Count(g), Reflections(g);
    assert (n % TWO32 + 1) % TWO32 == (n + 1) % TWO32;
    assert (r % TWO32 + 1) % TWO32 == (r + 1) % TWO32;
  }

  /** The decision after a turn, from the failure count and the time of the last activity. */
  function Decision(refWait: int, max: uint32, failures: nat, activity: int, e: Input): Ending {
    match e
    case Halted => StoppedElsewhere
    case Timeout(now) => if now - activity > refWait then Idle else StillRunning
    case HmacFailure(_) => if max > 0 && failures >= max then TooManyFailures else StillRunning
    case Overrun => Crashed
    case _ => StillRunning
  }

  /** Whether and how a session ends with the last turn of a history. */
  function EndOf(refWait: int, max: uint32, h: seq<Input>): Ending {
    if h == [] then StillRunning
    else Decision(refWait, max, Count(h) % TWO32, LastActivity(h), h[|h| - 1])
  }

  /** The same, decided from the counters. */
  function Verdict(refWait: int, max: uint32, s: Counters, e: Input): Ending {
    Decision(refWait, max, Turn(s, e).hmacFailures, s.startTime, e)
  }

  lemma VerdictMatches(refWait: int, max: uint32, g: seq<Input>, e: Input, s: Counters)
    requires Tracks(g, s)
    ensures Verdict(refWait, max, s, e) == EndOf(refWait, max, g + [e])
  {
    hide Count, TimeOfLast, LastActivity, Reflections, Late, Turn;
    LastSnoc(g, e);
    TracksTurn(g, e, s);
    var h := g + [e];
    assert h != [] && h[|h| - 1] == e;
  }

  /** From h0 on the session has not ended before the last turn of h. */
  ghost predicate RunsOn(refWait: int, max: uint32, h0: seq<Input>, h: seq<Input>) {
    forall k :: 0 < k < |h| ==> EndOf(refWait, max, h0 + h[..k]) == StillRunning
  }

  /** How high the count of a session with a threshold can get, from where it began. */
  function CountLimit(max: uint32, before: nat): nat {
    if before < max then max else before + 1
  }

  /** While a session with a threshold runs, its count stays below the threshold, or
      where it began if the session was started again at the threshold; so with less than
      2^32 - 1 failures in one streak the 32-bit counter never wraps. */
  lemma {:induction false} CountBounded(refWait: int, max: uint32, h0: seq<Input>, h: seq<Input>)
    requires max > 0 && Count(h0) < TWO32 - 1 && RunsOn(refWait, max, h0, h)
    ensures Count(h0 + h) <= CountLimit(max, Count(h0)) < TWO32
    ensures h != [] && EndOf(refWait, max, h0 + h) == StillRunning ==> Count(h0 + h) < CountLimit(max, Count(h0))
    decreases |h|
  {
    hide Count, EndOf;
    if h == [] {
      assert h0 + h == h0;
    } else {
      var n := |h| - 1;
      assert h0 + h[..n] + [h[n]] == h0 + h;
      assert RunsOn(refWait, max, h0, h[..n]) by {
        assert forall k :: 0 < k < n ==> h[..n][..k] == h[..k];
      }
      CountBounded(refWait, max, h0, h[..n]);
      assert n == 0 ==> h0 + h[..n] == h0;
      assert n > 0 ==> EndOf(refWait, max, h0 + h[..n]) == StillRunning;
      CountStep(refWait, max, h0 + h[..n], h[n], CountLimit(max, Count(h0)));
    }
  }

  lemma CountStep(refWait: int, max: uint32, g: seq<Input>, e: Input, limit: nat)
    requires 0 < max <= limit < TWO32 && Count(g) < limit
    ensures Count(g + [e]) <= limit
    ensures EndOf(refWait, max, g + [e]) == StillRunning ==> Count(g + [e]) < limit
  {
    hide Count, LastActivity, Late;
    CountSnoc(g, e);
    assert (g + [e])[|g|] == e;
  }

  // ---- From packets to turns ----

  /** What a session reflects with. */
  datatype Device = Device(p: Primitives, keys: SessionKeys, mode: TestMode)

  /** Random padding of any length asked for. */
  type Filler = f: nat -> bytes | forall n :: |f(n)| == n witness (n: nat) => Zeros(n)

  /** What the loop finds: a closed stop channel, a read timeout, a read error, or a
      datagram together with the clock readings, the random padding at hand and whether
      the answer can be written. */
  datatype Arrival =
    | Stopped
    | TimedOut(now: int)
    | Failed
    | Datagram(packet: bytes, rx: Timestamp, tx: Timestamp, ttl: uint8, fill: Filler, written: bool, now: int)

  function OwnStamp(number: uint32, tx: Timestamp): Stamp {
    Stamp(number, tx, ErrorEstimate(1, 0, true))
  }

  function Answer(d: Device, number: uint32, a: Arrival): Result<bytes>
    requires a.Datagram?
  {
    Reflect(d.p, d.keys, d.mode, a.packet, OwnStamp(number, a.tx), a.rx, a.ttl, a.fill)
  }

  function Classify(d: Device, number: uint32, a: Arrival): Input {
    match a
    case Stopped => Halted
    case TimedOut(now) => Timeout(now)
    case Failed => ReadError
    case Datagram(_, _, _, _, _, written, now) =>
      match Answer(d, number, a)
      case Ok(_) => if written then Reflected(now) else OtherFailure
      case Err(HMACVerificationFailed) => HmacFailure(now)
      case Err(BufferOverrun) => Overrun
      case Err(_) => OtherFailure
  }

  ghost predicate IsForged(d: Device, a: Arrival) {
    a.Datagram? && Forged(d.p, d.keys, d.mode, a.packet, false)
  }

  ghost predicate IsReadable(d: Device, a: Arrival) {
    a.Datagram? && Readable(d.p, d.keys, d.mode, a.packet)
  }

  /** What an arrival comes to, told from its bytes. */
  lemma ClassifyExact(d: Device, number: uint32, a: Arrival)
    ensures var e := Classify(d, number, a);
            && (e.Halted? <==> a.Stopped?)
            && (e.Timeout? <==> a.TimedOut?) && (e.ReadError? <==> a.Failed?)
            && (e.HmacFailure? <==> IsForged(d, a))
            && (e.Overrun? <==> IsReadable(d, a) && ReflectedSize(d.mode, |a.packet|) > 2048)
            && (e.Reflected? <==> IsReadable(d, a) && ReflectedSize(d.mode, |a.packet|) <= 2048 && a.written)
            && (a.TimedOut? || e.HmacFailure? || e.Reflected? ==> e.now == a.now) && !e.Started?
  {
    hide Reflect, Forged, Readable, ReflectedSize;
    if a.Datagram? {
      ReflectExact(d.p, d.keys, d.mode, a.packet, OwnStamp(number, a.tx), a.rx, a.ttl, a.fill);
    }
  }

  /** What a packet comes to does not depend on the number its answer would carry. */
  lemma NumberIrrelevant(d: Device, m: uint32, n: uint32, a: Arrival)
    ensures Classify(d, m, a) == Classify(d, n, a)
  {
    hide ParseSenderPacket, ReflectedPadding, PutReflection, PutWideReflection, CbcEncrypt;
  }

  /** The sender reads from an answer the number, the times and what it had sent. */
  ghost predicate Tells(d: Device, number: uint32, a: Arrival, answer: bytes)
    requires a.Datagram?
  {
    var parsed := ParseSenderPacket(d.p, d.keys, d.mode, a.packet);
    && parsed.Ok?
    && ParseReflection(d.p, d.keys, d.mode, answer) ==
       Ok(Reflection(Stamp(number, a.tx, ErrorEstimate(1, 0, true)), a.rx, parsed.value.stamp, a.ttl))
  }

  lemma AnswerParses(d: Device, number: uint32, a: Arrival)
    requires d.p.DecryptInverts() && a.Datagram? && Answer(d, number, a).Ok?
    ensures Tells(d, number, a, Answer(d, number, a).value)
  {
    var parsed := ParseSenderPacket(d.p, d.keys, d.mode, a.packet).value;
    var padding := ReflectedPadding(d.mode, |a.packet|, parsed.padding, a.fill);
    var r := Reflection(OwnStamp(number, a.tx), a.rx, parsed.stamp, a.ttl);
    ErrorEstimateRoundTrip(r.own.errorEstimate, 0);
    ErrorEstimateRoundTrip(r.sender.errorEstimate, 0);
    if d.mode.security == Unauthenticated {
      ReflectionInverse(r, padding);
    } else {
      ReflectionParses(d.p, d.keys, d.mode, r, padding, d.mode.security == Encrypted);
    }
  }

  /** The turns that arrivals come to. */
  function Turns(d: Device, arrivals: seq<Arrival>): (h: seq<Input>)
    ensures |h| == |arrivals|
    ensures forall k :: 0 <= k < |h| ==> h[k] == Classify(d, 0, arrivals[k])
  {
    seq(|arrivals|, k requires 0 <= k < |arrivals| => Classify(d, 0, arrivals[k]))
  }

  /** The packets a session sends back, in order: each answerable datagram under the
      first number plus the number of answers before it. */
  function Answers(d: Device, first: uint32, arrivals: seq<Arrival>): seq<bytes> {
    if arrivals == [] then []
    else
      var before := Answers(d, first, arrivals[..|arrivals| - 1]);
      before + Reply(d, (first as int + |before|) % TWO32, arrivals[|arrivals| - 1])
  }

  function Reply(d: Device, number: uint32, a: Arrival): seq<bytes> {
    if a.Datagram? && a.written && Answer(d, number, a).Ok? then [Answer(d, number, a).value] else []
  }

  /** One more arrival: one more turn, and an answer exactly when it is a reflection. */
  lemma AnswersSnoc(d: Device, first: uint32, g: seq<Arrival>, a: Arrival)
    ensures Turns(d, g + [a]) == Turns(d, g) + [Classify(d, 0, a)]
    ensures var number := (first as int + |Answers(d, first, g)|) % TWO32;
            && Answers(d, first, g + [a]) == Answers(d, first, g) + Reply(d, number, a)
            && |Reply(d, number, a)| == if Classify(d, 0, a).Reflected? then 1 else 0
  {
    TurnsSnoc(d, g, a);
    hide Answer, Classify, Reply, Turns;
    assert (g + [a])[..|g|] == g && (g + [a])[|g|] == a;
    ReplyCounts(d, (first as int + |Answers(d, first, g)|) % TWO32, a);
  }

  lemma TurnsSnoc(d: Device, g: seq<Arrival>, a: Arrival)
    ensures Turns(d, g + [a]) == Turns(d, g) + [Classify(d, 0, a)]
  {
    hide Classify;
  }

  lemma ReplyCounts(d: Device, number: uint32, a: Arrival)
    ensures |Reply(d, number, a)| == if Classify(d, 0, a).Reflected? then 1 else 0
  {
    hide Answer;
    NumberIrrelevant(d, 0, number, a);
  }

  /** How a session with history h ends when a arrives: by a stop from elsewhere; idle,
      with more than REFWAIT since its last start or reflection; at the threshold, with
      this forged packet counted; in a panic, over an answer beyond the pool buffer; or
      not at all. */
  ghost predicate EndsAs(d: Device, refWait: int, max: uint32, h: seq<Input>, a: Arrival, ending: Ending) {
    && (ending == StoppedElsewhere <==> a.Stopped?)
    && (ending == Idle <==> a.TimedOut? && a.now - LastActivity(h) > refWait)
    && (ending == TooManyFailures
        <==> IsForged(d, a) && max > 0 && Count(h + [HmacFailure(a.now)]) % TWO32 >= max)
    && (ending == Crashed <==> IsReadable(d, a) && ReflectedSize(d.mode, |a.packet|) > 2048)
  }

  lemma EndExact(d: Device, refWait: int, max: uint32, h: seq<Input>, a: Arrival)
    ensures EndsAs(d, refWait, max, h, a, EndOf(refWait, max, h + [Classify(d, 0, a)]))
  {
    hide Classify, Count, LastActivity, IsForged, IsReadable, ReflectedSize;
    var e := Classify(d, 0, a);
    ClassifyExact(d, 0, a);
    LastSnoc(h, e);
    assert (h + [e])[|h|] == e;
  }

  /** A session that runs until its last turn: each arrival but the last leaves it running,
      and the last ends it as told. */
  lemma EndingsTold(d: Device, refWait: int, max: uint32, h0: seq<Input>, arrivals: seq<Arrival>, ending: Ending)
    requires RunsOn(refWait, max, h0, Turns(d, arrivals))
    requires arrivals != [] ==> ending == EndOf(refWait, max, h0 + Turns(d, arrivals))
    ensures forall k :: 0 <= k < |arrivals| ==>
              EndsAs(d, refWait, max, h0 + Turns(d, arrivals[..k]), arrivals[k],
                     if k == |arrivals| - 1 then ending else StillRunning)
  {
    hide EndOf, EndsAs, Classify, Count, LastActivity;
    var h := Turns(d, arrivals);
    forall k | 0 <= k < |arrivals|
      ensures EndsAs(d, refWait, max, h0 + Turns(d, arrivals[..k]), arrivals[k],
                     if k == |arrivals| - 1 then ending else StillRunning)
    {
      EndExact(d, refWait, max, h0 + Turns(d, arrivals[..k]), arrivals[k]);
      assert h0 + h[..k + 1] == h0 + Turns(d, arrivals[..k]) + [Classify(d, 0, arrivals[k])];
      assert h[..|arrivals|] == h;
    }
  }

  /** Which arrivals are reflected, in order. */
  function ReflectedAt(d: Device, arrivals: seq<Arrival>): seq<nat> {
    if arrivals == [] then []
    else
      var n := |arrivals| - 1;
      ReflectedAt(d, arrivals[..n]) + if Classify(d, 0, arrivals[n]).Reflected? then [n] else []
  }

  lemma {:induction false} ReflectedAtExact(d: Device, arrivals: seq<Arrival>)
    ensures var at := ReflectedAt(d, arrivals);
            && (forall i, j :: 0 <= i < j < |at| ==> at[i] < at[j])
            && (forall k :: k in at <==> 0 <= k < |arrivals| && Classify(d, 0, arrivals[k]).Reflected?)
  {
    hide Classify;
    if arrivals != [] {
      var n := |arrivals| - 1;
      var before := ReflectedAt(d, arrivals[..n]);
      ReflectedAtExact(d, arrivals[..n]);
      assert forall i :: 0 <= i < |before| ==> before[i] in before;
    }
  }

  /** One more arrival: one more answer and one more position, or neither. */
  lemma AnswerAdded(d: Device, first: uint32, g: seq<Arrival>, a: Arrival)
    requires d.p.DecryptInverts()
    ensures var h := g + [a];
            var k := |Answers(d, first, g)|;
            if Classify(d, 0, a).Reflected? then
              && a.Datagram? && ReflectedAt(d, h) == ReflectedAt(d, g) + [|g|]
              && Answers(d, first, h)[..k] == Answers(d, first, g) && |Answers(d, first, h)| == k + 1
              && Tells(d, (first as int + k) % TWO32, a, Answers(d, first, h)[k])
            else
              ReflectedAt(d, h) == ReflectedAt(d, g) && Answers(d, first, h) == Answers(d, first, g)
  {
    hide Answer, Tells, Classify;
    var h, number := g + [a], (first as int + |Answers(d, first, g)|) % TWO32;
    assert h[..|h| - 1] == g && h[|g|] == a;
    ReplyCounts(d, number, a);
    if a.Datagram? && Answer(d, number, a).Ok? {
      AnswerParses(d, number, a);
    }
  }

  /** The i-th answer answers the i-th arrival that is reflected: from it the sender reads
      the first number plus i, modulo 2^32, the times of that datagram and the stamp it
      carried. */
  lemma {:induction false} AnswersNumbered(d: Device, first: uint32, arrivals: seq<Arrival>, i: nat)
    requires d.p.DecryptInverts()
    ensures var at := ReflectedAt(d, arrivals);
            && |Answers(d, first, arrivals)| == |at|
            && (i < |at| ==>
                  && at[i] < |arrivals| && arrivals[at[i]].Datagram?
                  && Tells(d, (first as int + i) % TWO32, arrivals[at[i]], Answers(d, first, arrivals)[i]))
  {
    hide Answer, Tells, Classify, Reply;
    if arrivals != [] {
      var n := |arrivals| - 1;
      var g, a := arrivals[..n], arrivals[n];
      AnswersNumbered(d, first, g, i);
      AnswerAdded(d, first, g, a);
      assert g + [a] == arrivals;
      var k := |Answers(d, first, g)|;
      assert i < k ==> Answers(d, first, arrivals)[i] == Answers(d, first, arrivals)[..k][i];
    }
  }

  // ---- The loop ----

  class TestSession {
    const refWait: int
    const maxHMACFailures: uint32
    const device: Device
    var hmacFailures: uint32
    var lastHMACFailureTime: Option<int>
    var startTime: int
    var reflectedPackets: uint32

    constructor (refWait: int, configuredMax: uint32, device: Device)
      ensures this.refWait == refWait && this.device == device
      ensures maxHMACFailures == if configuredMax == 0 then 100 else configuredMax
      ensures Tracks([], State())
    {
      this.refWait, maxHMACFailures, this.device := refWait, EffectiveMax(configuredMax), device;
      hmacFailures, lastHMACFailureTime, startTime, reflectedPackets := 0, None, 0, 0;
      new;
      TracksNew();
    }

    /** startSession, as far as it concerns the reflector: only the idle clock is reset. */
    method Start(now: int, ghost h0: seq<Input>)
      requires Tracks(h0, State())
      modifies this
      ensures Tracks(h0 + [Started(now)], State())
      ensures State() == old(State()).(startTime := now)
    {
      TracksTurn(h0, Started(now), State());
      startTime := now;
    }

    ghost function State(): Counters
      reads this
    {
      Counters(hmacFailures, lastHMACFailureTime, startTime, reflectedPackets)
    }

    /** A packet failed verification; the answer is whether to stop. */
    method CountFailure(now: int) returns (stop: bool)
      modifies this
      ensures State() == Turn(old(State()), HmacFailure(now))
      ensures var gap := old(lastHMACFailureTime).Some? && now - old(lastHMACFailureTime).value > 30_000_000_000;
              hmacFailures == if gap then 1 else (old(hmacFailures) as int + 1) % TWO32
      ensures lastHMACFailureTime == Some(now)
      ensures startTime == old(startTime) && reflectedPackets == old(reflectedPackets)
      ensures stop <==> maxHMACFailures > 0 && hmacFailures >= maxHMACFailures
    {
      if lastHMACFailureTime.Some? && now - lastHMACFailureTime.value > RESET_WINDOW {
        hmacFailures := 0;
      }
      hmacFailures := (hmacFailures as int + 1) % TWO32;
      lastHMACFailureTime := Some(now);
      stop := maxHMACFailures > 0 && hmacFailures >= maxHMACFailures;
    }

    /** A packet was reflected. */
    method CountReflection(now: int)
      modifies this
      ensures State() == Turn(old(State()), Reflected(now))
      ensures hmacFailures == 0 && startTime == now && lastHMACFailureTime == old(lastHMACFailureTime)
      ensures reflectedPackets == (old(reflectedPackets) as int + 1) % TWO32
    {
      hmacFailures := 0;
      startTime := now;
      reflectedPackets := (reflectedPackets as int + 1) % TWO32;
    }

    /** One datagram: processed under the current number, answered if it can be. */
    method OnePacket(a: Arrival) returns (ending: Ending, sent: seq<bytes>)
      requires a.Datagram?
      modifies this
      ensures State() == Turn(old(State()), Classify(device, old(reflectedPackets), a))
      ensures ending == Verdict(refWait, maxHMACFailures, old(State()), Classify(device, old(reflectedPackets), a))
      ensures sent == Reply(device, old(reflectedPackets), a)
    {
      hide Reflect;
      ending, sent := StillRunning, [];
      match Answer(device, reflectedPackets, a) {
        case Ok(packet) =>
          if a.written {
            sent := [packet];
            CountReflection(a.now);
          }
        case Err(HMACVerificationFailed) =>
          var stop := CountFailure(a.now);
          if stop {
            ending := TooManyFailures;
          }
        case Err(BufferOverrun) => ending := Crashed;
        case Err(_) =>
      }
    }

    /** The body of the loop: whether the session ends, and what it sends. */
    method OneTurn(a: Arrival) returns (ending: Ending, sent: seq<bytes>)
      modifies this
      ensures State() == Turn(old(State()), Classify(device, old(reflectedPackets), a))
      ensures ending == Verdict(refWait, maxHMACFailures, old(State()), Classify(device, old(reflectedPackets), a))
      ensures sent == Reply(device, old(reflectedPackets), a)
    {
      hide Answer;
      ending, sent := StillRunning, [];
      match a {
        case Stopped => ending := StoppedElsewhere;
        case TimedOut(now) =>
          if now - startTime > refWait {
            ending := Idle;
          }
        case Failed =>
        case Datagram(_, _, _, _, _, _, _) => ending, sent := OnePacket(a);
      }
    }

    /** reflectPackets: turn after turn until the session ends.  `h0` is the session's
        history so far, `arrivals` everything that would ever come in, `taken` how much of
        it the session lives to see. */
    method ReflectPackets(arrivals: seq<Arrival>, ghost h0: seq<Input>)
      returns (ending: Ending, taken: nat, sent: seq<bytes>)
      requires Tracks(h0, State())
      modifies this
      ensures taken <= |arrivals| && (ending == StillRunning ==> taken == |arrivals|)
      ensures taken == 0 ==> ending == StillRunning
      ensures forall k :: 0 <= k < taken ==>
                EndsAs(device, refWait, maxHMACFailures, h0 + Turns(device, arrivals[..k]), arrivals[k],
                       if k == taken - 1 then ending else StillRunning)
      ensures Tracks(h0 + Turns(device, arrivals[..taken]), State())
      ensures maxHMACFailures > 0 && Count(h0) < TWO32 - 1 ==>
                Count(h0 + Turns(device, arrivals[..taken])) <= CountLimit(maxHMACFailures, Count(h0)) < TWO32
      ensures sent == Answers(device, old(reflectedPackets), arrivals[..taken])
    {
      hide Turns, Answers, Count, EndOf, EndsAs, Tracks, Follows, Classify, Verdict, Turn, Reply;
      ghost var first := reflectedPackets;
      sent, taken, ending := [], 0, StillRunning;
      FollowsStart(h0, first, State());
      assert arrivals[..0] == [];
      while taken < |arrivals| && ending == StillRunning
        invariant taken <= |arrivals|
        invariant Follows(h0, first, arrivals[..taken], State(), ending, sent)
        decreases |arrivals| - taken
      {
        assert arrivals[..taken + 1] == arrivals[..taken] + [arrivals[taken]];
        TurnFollows(h0, first, arrivals[..taken], arrivals[taken], State(), ending, sent);
        var more;
        ending, more := OneTurn(arrivals[taken]);
        sent := sent + more;
        taken := taken + 1;
      }
      FollowsToEnd(h0, first, arrivals[..taken], State(), ending, sent);
      assert forall k :: 0 <= k < taken ==> arrivals[..taken][..k] == arrivals[..k];
    }

    /** Counters, ending and answers are those of the arrivals, and no turn but the last
        has ended the session. */
    ghost predicate Follows(h0: seq<Input>, first: uint32, arrivals: seq<Arrival>, s: Counters, ending: Ending,
                            sent: seq<bytes>) {
      var h := Turns(device, arrivals);
      && Tracks(h0 + h, s) && RunsOn(refWait, maxHMACFailures, h0, h)
      && ending == (if h == [] then StillRunning else EndOf(refWait, maxHMACFailures, h0 + h))
      && sent == Answers(device, first, arrivals) && s.reflected == (first as int + |sent|) % TWO32
    }

    lemma FollowsStart(h0: seq<Input>, first: uint32, s: Counters)
      requires Tracks(h0, s) && s.reflected == first
      ensures Follows(h0, first, [], s, StillRunning, [])
    {
      hide Count, EndOf, Tracks, Classify;
      assert Turns(device, []) == [] && h0 + [] == h0;
    }

    lemma FollowsToEnd(h0: seq<Input>, first: uint32, arrivals: seq<Arrival>, s: Counters, ending: Ending,
                       sent: seq<bytes>)
      requires Follows(h0, first, arrivals, s, ending, sent)
      ensures var h := Turns(device, arrivals);
              && Tracks(h0 + h, s) && sent == Answers(device, first, arrivals)
              && (arrivals == [] ==> ending == StillRunning)
              && (maxHMACFailures > 0 && Count(h0) < TWO32 - 1 ==>
                    Count(h0 + h) <= CountLimit(maxHMACFailures, Count(h0)) < TWO32)
      ensures forall k :: 0 <= k < |arrivals| ==>
                EndsAs(device, refWait, maxHMACFailures, h0 + Turns(device, arrivals[..k]), arrivals[k],
                       if k == |arrivals| - 1 then ending else StillRunning)
    {
      hide Count, EndOf, EndsAs, Tracks, Classify, Answers, RunsOn;
      EndingsTold(device, refWait, maxHMACFailures, h0, arrivals, ending);
      if maxHMACFailures > 0 && Count(h0) < TWO32 - 1 {
        CountBounded(refWait, maxHMACFailures, h0, Turns(device, arrivals));
      }
    }

    lemma TurnFollows(h0: seq<Input>, first: uint32, g: seq<Arrival>, a: Arrival, s: Counters, ending: Ending,
                      sent: seq<bytes>)
      requires Follows(h0, first, g, s, ending, sent) && ending == StillRunning
      ensures var e := Classify(device, s.reflected, a);
              Follows(h0, first, g + [a], Turn(s, e), Verdict(refWait, maxHMACFailures, s, e),
                      sent + Reply(device, s.reflected, a))
    {
      hide Classify, Answers, Reply, Turns, Tracks, Count, Verdict, EndOf, LastActivity, TimeOfLast, Reflections;
      var h, e := Turns(device, g), Classify(device, 0, a);
      NumberIrrelevant(device, 0, s.reflected, a);
      AnswersSnoc(device, first, g, a);
      assert h0 + (h + [e]) == h0 + h + [e];
      VerdictMatches(refWait, maxHMACFailures, h0 + h, e, s);
      TracksTurn(h0 + h, e, s);
      assert h0 + h[..|h|] == h0 + h;
      assert forall k :: 0 < k <= |h| ==> (h + [e])[..k] == h[..k];
    }
  }
}
