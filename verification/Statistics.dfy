/** The statistics a client keeps for one test session (client/test_session.go): what
    the counters mean in terms of the packets sent and the replies accepted. */
module Statistics {
  import opened Bytes
  import opened CbcStream
  import opened Timestamps
  import opened TestPackets

  const TOP := TWO63 - 1     // the largest time.Duration

  /** time.Time.Sub: a difference beyond 64 bits is cut off. */
  function Saturate(d: int): (r: int)
    ensures -TWO63 <= r < TWO63 && (r == d <==> -TWO63 <= d < TWO63)
  {
    if d > TOP then TOP else if d < -TWO63 then -TWO63 else d
  }

  datatype Receipt = Receipt(receivedTime: int, rtt: int, reflectorLatency: int)

  datatype PacketResult = PacketResult(sentTime: int, receipt: Option<Receipt>)

  datatype Stats = Stats(seqNo: uint32, totalSent: uint32, totalReceived: uint32,
                         sumRTT: int, minRTT: int, maxRTT: int, results: map<uint32, PacketResult>)

  const FRESH := Stats(0, 0, 0, 0, TOP, 0, map[])

  /** What happens to a session: a packet sent, or a reply that was parsed. */
  datatype Event = Sent(time: int) | Reply(seqNo: uint32, time: int, latency: int)

  function SendStep(s: Stats, time: int): Stats {
    s.(seqNo := (s.seqNo as int + 1) % TWO32, totalSent := (s.totalSent as int + 1) % TWO32,
       results := s.results[s.seqNo := PacketResult(time, None)])
  }

  function ReplyStep(s: Stats, q: uint32, time: int, latency: int): Stats {
    if q !in s.results then s else
      var rtt := Saturate(time - s.results[q].sentTime);
      s.(totalReceived := (s.totalReceived as int + 1) % TWO32,
         sumRTT := Signed64(s.sumRTT + rtt),
         minRTT := if rtt < s.minRTT then rtt else s.minRTT,
         maxRTT := if rtt > s.maxRTT then rtt else s.maxRTT,
         results := s.results[q := s.results[q].(receipt := Some(Receipt(time, rtt, latency)))])
  }

  function Step(s: Stats, e: Event): Stats {
    match e
    case Sent(time) => SendStep(s, time)
    case Reply(q, time, latency) => ReplyStep(s, q, time, latency)
  }

  function After(h: seq<Event>): Stats {
    if h == [] then FRESH else Step(After(h[..|h| - 1]), h[|h| - 1])
  }

  // ---- The history on its own terms ----

  /** When each packet was sent, in order. */
  function SendTimes(h: seq<Event>): seq<int> {
    if h == [] then [] else
      var e := h[|h| - 1];
      SendTimes(h[..|h| - 1]) + if e.Sent? then [e.time] else []
  }

  /** The latest of n packets that carried the number q; numbers repeat after 2^32. */
  function Latest(n: nat, q: uint32): (i: nat)
    requires q < n
    ensures i < n && i % TWO32 == q && n <= i + TWO32
  {
    n - 1 - (n - 1 - q) % TWO32
  }

  /** The round-trip time of a reply to one of the packets sent so far. */
  function Measured(sent: seq<int>, e: Event): seq<int> {
    if e.Reply? && e.seqNo < |sent| then [Saturate(e.time - sent[Latest(|sent|, e.seqNo)])] else []
  }

  /** The round-trip times of the accepted replies, in order. */
  function Rtts(h: seq<Event>): seq<int> {
    if h == [] then [] else Rtts(h[..|h| - 1]) + Measured(SendTimes(h[..|h| - 1]), h[|h| - 1])
  }

  function Sum(xs: seq<int>): int {
    if xs == [] then 0 else Sum(xs[..|xs| - 1]) + xs[|xs| - 1]
  }

  /** The least of the values, and the greatest, never below 0, that the source starts from. */
  predicate IsMin(m: int, xs: seq<int>) {
    (forall x :: x in xs ==> m <= x) && (m in xs || m == TOP)
  }

  predicate IsMax(m: int, xs: seq<int>) {
    m >= 0 && (forall x :: x in xs ==> x <= m) && (m in xs || m == 0)
  }

  /** The counters equal what the history amounts to: the keys of the results are the
      numbers issued, each with the time of its latest use. */
  ghost predicate Tracks(s: Stats, h: seq<Event>) {
    CountersTrack(s, SendTimes(h), Rtts(h)) && ResultsTrack(s.results, SendTimes(h))
  }

  lemma HistorySnoc(g: seq<Event>, e: Event)
    ensures After(g + [e]) == Step(After(g), e)
    ensures SendTimes(g + [e]) == if e.Sent? then SendTimes(g) + [e.time] else SendTimes(g)
    ensures Rtts(g + [e]) == if Measured(SendTimes(g), e) == [] then Rtts(g) else Rtts(g) + Measured(SendTimes(g), e)
  {
    assert SendTimes(g) + [] == SendTimes(g) && Rtts(g) + [] == Rtts(g);
    hide Step, Measured;
    var h := g + [e];
    assert h[..|h| - 1] == g && h[|h| - 1] == e;
  }

  lemma SumSnoc(xs: seq<int>, x: int)
    ensures Sum(xs + [x]) == Sum(xs) + x
    ensures Signed64(Signed64(Sum(xs)) + x) == Signed64(Sum(xs + [x]))
  {
    assert (xs + [x])[..|xs|] == xs;
    WrapOnce(Sum(xs), x);
  }

  lemma WrapOnce(a: int, x: int)
    ensures Signed64(Signed64(a) + x) == Signed64(a + x)
  {
    assert Signed64(a) % TWO64 == a % TWO64;
    assert (Signed64(a) + x) % TWO64 == (a + x) % TWO64;
  }

  /** After n packets the next number is n mod 2^32, and only its last use moves. */
  lemma LatestNext(n: nat, q: uint32)
    ensures q < n && q != n % TWO32 ==> Latest(n + 1, q) == Latest(n, q)
    ensures q == n % TWO32 ==> q < n + 1 && Latest(n + 1, q) == n
    ensures q < n + 1 <==> q < n || q == n % TWO32
  {
    if q == n % TWO32 {
      assert (n - q) % TWO32 == 0;
    } else if q < n {
      var r := (n - 1 - q) % TWO32;
      assert (n - q) % TWO32 == if r + 1 == TWO32 then 0 else r + 1;
    }
  }

  ghost predicate CountersTrack(s: Stats, sent: seq<int>, rtts: seq<int>) {
    && s.seqNo == s.totalSent == |sent| % TWO32
    && s.totalReceived == |rtts| % TWO32
    && s.sumRTT == Signed64(Sum(rtts))
    && IsMin(s.minRTT, rtts) && IsMax(s.maxRTT, rtts)
  }

  ghost predicate ResultsTrack(results: map<uint32, PacketResult>, sent: seq<int>) {
    && (forall q: uint32 :: q in results <==> q < |sent|)
    && (forall q: uint32 :: q < |sent| ==> results[q].sentTime == sent[Latest(|sent|, q)])
  }

  lemma ResultsSend(results: map<uint32, PacketResult>, sent: seq<int>, next: uint32, time: int)
    requires ResultsTrack(results, sent) && next == |sent| % TWO32
    ensures ResultsTrack(results[next := PacketResult(time, None)], sent + [time])
  {
    var n, results' := |sent|, results[next := PacketResult(time, None)];
    forall q: uint32
      ensures q in results' <==> q < n + 1
      ensures q < n + 1 ==> results'[q].sentTime == (sent + [time])[Latest(n + 1, q)]
    {
      LatestNext(n, q);
      hide Latest;
    }
  }

  lemma CountersSend(s: Stats, sent: seq<int>, rtts: seq<int>, time: int)
    requires CountersTrack(s, sent, rtts)
    ensures CountersTrack(SendStep(s, time), sent + [time], rtts)
  {
    hide IsMin, IsMax, Sum, Signed64;
    var n := |sent|;
    assert (n % TWO32 + 1) % TWO32 == (n + 1) % TWO32;
  }

  lemma TracksSend(s: Stats, g: seq<Event>, time: int)
    requires Tracks(s, g)
    ensures Tracks(SendStep(s, time), g + [Sent(time)])
  {
    HistorySnoc(g, Sent(time));
    var sent := SendTimes(g);
    CountersSend(s, sent, Rtts(g), time);
    ResultsSend(s.results, sent, s.seqNo, time);
    hide CountersTrack, ResultsTrack, SendTimes, Rtts, After;
  }

  /** The counters after one more round-trip time. */
  lemma CountersReply(s: Stats, t: Stats, sent: seq<int>, rtts: seq<int>, rtt: int)
    requires CountersTrack(s, sent, rtts) && t.seqNo == s.seqNo && t.totalSent == s.totalSent
    requires t.totalReceived == (s.totalReceived as int + 1) % TWO32 && t.sumRTT == Signed64(s.sumRTT + rtt)
    requires t.minRTT == if rtt < s.minRTT then rtt else s.minRTT
    requires t.maxRTT == if rtt > s.maxRTT then rtt else s.maxRTT
    ensures CountersTrack(t, sent, rtts + [rtt])
  {
    SumSnoc(rtts, rtt);
    hide Signed64, Sum;
    var n := |rtts|;
    assert (n % TWO32 + 1) % TWO32 == (n + 1) % TWO32;
  }

  lemma ResultsReply(results: map<uint32, PacketResult>, sent: seq<int>, q: uint32, r: Receipt)
    requires ResultsTrack(results, sent) && q in results
    ensures ResultsTrack(results[q := results[q].(receipt := Some(r))], sent)
  {
  }

  lemma AcceptedReply(s: Stats, sent: seq<int>, rtts: seq<int>, e: Event)
    requires CountersTrack(s, sent, rtts) && ResultsTrack(s.results, sent) && e.Reply? && e.seqNo < |sent|
    ensures CountersTrack(Step(s, e), sent, rtts + Measured(sent, e)) && ResultsTrack(Step(s, e).results, sent)
    ensures Measured(sent, e) != []
  {
    var rtt := Saturate(e.time - s.results[e.seqNo].sentTime);
    CountersReply(s, Step(s, e), sent, rtts, rtt);
    ResultsReply(s.results, sent, e.seqNo, Receipt(e.time, rtt, e.latency));
  }

  lemma TracksReply(s: Stats, g: seq<Event>, e: Event)
    requires Tracks(s, g) && e.Reply?
    ensures Tracks(Step(s, e), g + [e])
  {
    hide CountersTrack, SendTimes, Rtts, After, Signed64, Saturate, Latest;
    HistorySnoc(g, e);
    if e.seqNo in s.results {
      AcceptedReply(s, SendTimes(g), Rtts(g), e);
    }
  }

  /** Over every history, duplicates, unknown numbers and number wrap included, the
      statistics are the history's. */
  lemma {:induction false} StatisticsTrackHistory(h: seq<Event>)
    ensures Tracks(After(h), h)
  {
    if h != [] {
      var g, e := h[..|h| - 1], h[|h| - 1];
      assert g + [e] == h;
      StatisticsTrackHistory(g);
      if e.Sent? {
        TracksSend(After(g), g, e.time);
      } else {
        TracksReply(After(g), g, e);
      }
    }
  }

  // ---- What the counters say about each other ----

  lemma {:induction false} SumBounds(xs: seq<int>, lo: int, hi: int)
    requires forall i :: 0 <= i < |xs| ==> lo <= xs[i] <= hi
    ensures lo * |xs| <= Sum(xs) <= hi * |xs|
  {
    if xs != [] {
      var n := |xs| - 1;
      SumBounds(xs[..n], lo, hi);
      assert lo * (n + 1) == lo * n + lo && hi * (n + 1) == hi * n + hi;
    }
  }

  function AvgRTT(s: Stats): int {
    if s.totalReceived > 0 then Quo(s.sumRTT, s.totalReceived) else 0
  }

  /** The average lies between the least and the greatest round-trip time as long as
      neither the sum nor the count outgrows its width. */
  lemma AverageBetween(h: seq<Event>)
    requires 0 < |Rtts(h)| < TWO32 && -TWO63 <= Sum(Rtts(h)) < TWO63
    ensures After(h).minRTT <= AvgRTT(After(h)) <= After(h).maxRTT
  {
    hide After, Rtts, SendTimes, Sum, Quo, ResultsTrack;
    StatisticsTrackHistory(h);
    var s, rtts := After(h), Rtts(h);
    FitsSigned64(Sum(rtts));
    hide Signed64;
    assert forall i :: 0 <= i < |rtts| ==> rtts[i] in rtts;
    SumBounds(rtts, s.minRTT, s.maxRTT);
    QuoBounds(Sum(rtts), |rtts|, s.minRTT, s.maxRTT);
  }

  lemma FitsSigned64(x: int)
    ensures -TWO63 <= x < TWO63 <==> Signed64(x) == x
  {
  }

  lemma QuoBounds(d: int, n: int, lo: int, hi: int)
    requires n > 0 && lo * n <= d <= hi * n && hi >= 0
    ensures lo <= Quo(d, n) <= hi
  {
    if d >= 0 {
      QuotientBounds(d, n, lo, hi);
    } else {
      assert -d <= (-lo) * n;
      QuotientBounds(-d, n, 0, -lo);
    }
  }

  lemma QuotientBounds(d: int, n: int, lo: int, hi: int)
    requires n > 0 && 0 <= d <= hi * n && lo * n <= d
    ensures lo <= d / n <= hi && 0 <= d / n
  {
    var q := d / n;
    assert q * n <= d < q * n + n;
    assert (q + 1) * n == q * n + n && (hi + 1) * n == hi * n + n;
    MulCancel(lo, q + 1, n);
    MulCancel(q, hi + 1, n);
  }

  lemma MulCancel(a: int, b: int, n: int)
    requires n > 0 && a * n < b * n
    ensures a < b
  {
    assert (b - a) * n > 0;
  }

  // ---- Histories without duplicates ----

  /** Numbers whose packet has been answered. */
  function Answered(results: map<uint32, PacketResult>): set<uint32> {
    set q | q in results && results[q].receipt.Some?
  }

  /** No accepted reply repeats a number already answered, and numbers do not wrap. */
  predicate NoDuplicates(h: seq<Event>) {
    h == [] ||
    var g, e := h[..|h| - 1], h[|h| - 1];
    && NoDuplicates(g)
    && (e.Sent? ==> |SendTimes(g)| < TWO32 - 1)
    && (e.Reply? ==> e.seqNo !in Answered(After(g).results))
  }

  /** The round-trip time of packet q, if it has one. */
  function RttOf(results: map<uint32, PacketResult>, q: nat): seq<int> {
    if q < TWO32 && q in results && results[q].receipt.Some? then [results[q].receipt.value.rtt] else []
  }

  /** The round-trip times in the per-packet map, by sequence number below n. */
  function RttsBelow(results: map<uint32, PacketResult>, n: nat): seq<int> {
    if n == 0 then [] else RttsBelow(results, n - 1) + RttOf(results, n - 1)
  }

  lemma {:induction false} BelowSame(r: map<uint32, PacketResult>, r': map<uint32, PacketResult>, n: nat)
    requires forall q: nat :: q < n ==> RttOf(r', q) == RttOf(r, q)
    ensures RttsBelow(r', n) == RttsBelow(r, n)
  {
    if n != 0 {
      BelowSame(r, r', n - 1);
    }
  }

  /** Only packet q is answered, with this time. */
  ghost predicate Answers(r: map<uint32, PacketResult>, r': map<uint32, PacketResult>, q: nat, rtt: int) {
    && RttOf(r, q) == [] && RttOf(r', q) == [rtt]
    && forall k: nat :: k != q ==> RttOf(r', k) == RttOf(r, k)
  }

  lemma AppendOne(a: seq<int>, b: seq<int>, x: int, t: seq<int>)
    requires multiset(b) == multiset(a) + multiset{x} && Sum(b) == Sum(a) + x && |t| <= 1
    ensures multiset(b + t) == multiset(a + t) + multiset{x} && Sum(b + t) == Sum(a + t) + x
  {
    hide Sum;
    if t == [] {
      assert a + t == a && b + t == b;
    } else {
      assert t == [t[0]];
      SumSnoc(a, t[0]);
      SumSnoc(b, t[0]);
    }
  }

  lemma BelowAnswerHere(r: map<uint32, PacketResult>, r': map<uint32, PacketResult>, q: nat, rtt: int)
    requires Answers(r, r', q, rtt)
    ensures multiset(RttsBelow(r', q + 1)) == multiset(RttsBelow(r, q + 1)) + multiset{rtt}
    ensures Sum(RttsBelow(r', q + 1)) == Sum(RttsBelow(r, q + 1)) + rtt
  {
    hide RttOf, Sum;
    var a := RttsBelow(r, q);
    BelowSame(r, r', q);
    SumSnoc(a, rtt);
    assert RttsBelow(r, q + 1) == a + [] == a;
    assert RttsBelow(r', q + 1) == a + [rtt];
  }

  /** Answering a packet adds its time to the list, wherever it stands. */
  lemma {:induction false} BelowAnswer(r: map<uint32, PacketResult>, r': map<uint32, PacketResult>, n: nat, q: nat,
                                       rtt: int)
    requires q < n && Answers(r, r', q, rtt)
    ensures multiset(RttsBelow(r', n)) == multiset(RttsBelow(r, n)) + multiset{rtt}
    ensures Sum(RttsBelow(r', n)) == Sum(RttsBelow(r, n)) + rtt
  {
    hide RttOf, Sum, RttsBelow, Answers;
    if q == n - 1 {
      BelowAnswerHere(r, r', q, rtt);
    } else {
      BelowAnswer(r, r', n - 1, q, rtt);
      BelowElsewhere(r, r', n - 1, q, rtt);
      AppendOne(RttsBelow(r, n - 1), RttsBelow(r', n - 1), rtt, RttOf(r, n - 1));
    }
  }

  lemma BelowElsewhere(r: map<uint32, PacketResult>, r': map<uint32, PacketResult>, n: nat, q: nat, rtt: int)
    requires n != q && Answers(r, r', q, rtt)
    ensures RttsBelow(r, n + 1) == RttsBelow(r, n) + RttOf(r, n)
              && RttsBelow(r', n + 1) == RttsBelow(r', n) + RttOf(r, n)
    ensures |RttOf(r, n)| <= 1
  {
  }

  /** The round-trip times accepted, seen as the per-packet results. */
  ghost predicate PerPacket(results: map<uint32, PacketResult>, sent: seq<int>, rtts: seq<int>) {
    && multiset(RttsBelow(results, |sent|)) == multiset(rtts)
    && Sum(RttsBelow(results, |sent|)) == Sum(rtts)
    && |rtts| == |Answered(results)| && |sent| == |results| < TWO32
  }

  lemma SendUnanswered(r: map<uint32, PacketResult>, n: uint32, time: int)
    requires n !in r
    ensures var r' := r[n := PacketResult(time, None)];
            |r'| == |r| + 1 && Answered(r') == Answered(r) && RttsBelow(r', n + 1) == RttsBelow(r, n)
  {
    var r' := r[n := PacketResult(time, None)];
    assert r'.Keys == r.Keys + {n};
    assert |r'| == |r'.Keys| && |r| == |r.Keys|;
    BelowSame(r, r', n);
    assert RttsBelow(r', n + 1) == RttsBelow(r', n) + [] == RttsBelow(r', n);
  }

  lemma PerPacketSend(r: map<uint32, PacketResult>, sent: seq<int>, rtts: seq<int>, time: int)
    requires ResultsTrack(r, sent) && PerPacket(r, sent, rtts) && |sent| < TWO32 - 1
    ensures PerPacket(r[|sent| := PacketResult(time, None)], sent + [time], rtts)
  {
    hide Answered, RttsBelow, Sum;
    SendUnanswered(r, |sent|, time);
  }

  lemma AnsweredFewer(results: map<uint32, PacketResult>)
    ensures |Answered(results)| <= |results|
  {
    Subset(Answered(results), results.Keys);
  }

  lemma {:induction false} Subset(a: set<uint32>, b: set<uint32>)
    requires a <= b
    ensures |a| <= |b|
    decreases |a|
  {
    if a != {} {
      var x :| x in a;
      Subset(a - {x}, b - {x});
    }
  }

  lemma AnswerStep(results: map<uint32, PacketResult>, q: uint32, r: Receipt)
    requires q in results && q !in Answered(results)
    ensures var r' := results[q := results[q].(receipt := Some(r))];
            && |r'| == |results| && |Answered(r')| == |Answered(results)| + 1
            && Answers(results, r', q, r.rtt)
  {
    var r' := results[q := results[q].(receipt := Some(r))];
    assert Answered(r') == Answered(results) + {q} && r'.Keys == results.Keys;
    assert |r'| == |r'.Keys| && |results| == |results.Keys|;
  }

  lemma PerPacketReply(results: map<uint32, PacketResult>, sent: seq<int>, rtts: seq<int>, q: uint32, r: Receipt)
    requires PerPacket(results, sent, rtts) && q < |sent| && q in results && q !in Answered(results)
    ensures PerPacket(results[q := results[q].(receipt := Some(r))], sent, rtts + [r.rtt])
  {
    hide Answers, Answered, RttOf, RttsBelow, Sum;
    AnswerStep(results, q, r);
    BelowAnswer(results, results[q := results[q].(receipt := Some(r))], |sent|, q, r.rtt);
    SumSnoc(rtts, r.rtt);
  }

  /** PacketsLost of GetResults: a 32-bit difference. */
  function PacketsLost(s: Stats): uint32 {
    (s.totalSent as int - s.totalReceived as int) % TWO32
  }

  lemma PerPacketStep(g: seq<Event>, e: Event)
    requires PerPacket(After(g).results, SendTimes(g), Rtts(g)) && Tracks(After(g), g) && NoDuplicates(g + [e])
    ensures PerPacket(After(g + [e]).results, SendTimes(g + [e]), Rtts(g + [e]))
  {
    hide PerPacket, After, SendTimes, Rtts, Signed64, Sum, IsMin, IsMax, Answered;
    var h := g + [e];
    assert h[..|h| - 1] == g && h[|h| - 1] == e;
    HistorySnoc(g, e);
    var s, sent := After(g), SendTimes(g);
    if e.Sent? {
      PerPacketSend(s.results, sent, Rtts(g), e.time);
    } else if e.seqNo < |sent| {
      var rtt := Saturate(e.time - s.results[e.seqNo].sentTime);
      PerPacketReply(s.results, sent, Rtts(g), e.seqNo, Receipt(e.time, rtt, e.latency));
    }
  }

  lemma {:induction false} NoDuplicatesPerPacket(h: seq<Event>)
    requires NoDuplicates(h)
    ensures PerPacket(After(h).results, SendTimes(h), Rtts(h))
  {
    if h != [] {
      var g, e := h[..|h| - 1], h[|h| - 1];
      assert g + [e] == h;
      NoDuplicatesPerPacket(g);
      StatisticsTrackHistory(g);
      PerPacketStep(g, e);
    }
  }

  /** Without duplicates the running totals are totals over the per-packet results, and
      every packet sent is either received or lost. */
  lemma PerPacketTotals(h: seq<Event>)
    requires NoDuplicates(h)
    ensures var s := After(h);
            var rtts := RttsBelow(s.results, |s.results|);
            && s.totalSent == |s.results| && s.totalReceived == |Answered(s.results)|
            && s.totalSent == s.totalReceived as int + PacketsLost(s) as int
            && s.sumRTT == Signed64(Sum(rtts)) && IsMin(s.minRTT, rtts) && IsMax(s.maxRTT, rtts)
  {
    hide After, SendTimes, Rtts, ResultsTrack, Signed64, Sum, RttsBelow, NoDuplicates, Answered;
    StatisticsTrackHistory(h);
    NoDuplicatesPerPacket(h);
    var s, rtts := After(h), RttsBelow(After(h).results, |After(h).results|);
    AnsweredFewer(s.results);
    assert forall x :: x in rtts <==> x in multiset(rtts);
    assert forall x :: x in Rtts(h) <==> x in multiset(Rtts(h));
  }

  /** While nothing has wrapped, the loss is right exactly when no more replies than
      packets were counted. */
  lemma LostIsDifference(h: seq<Event>)
    requires |SendTimes(h)| < TWO32 && |Rtts(h)| < TWO32
    ensures PacketsLost(After(h)) == |SendTimes(h)| - |Rtts(h)| <==> |Rtts(h)| <= |SendTimes(h)|
  {
    hide After, SendTimes, Rtts, ResultsTrack, Signed64, Sum, IsMin, IsMax;
    StatisticsTrackHistory(h);
  }

  /** One packet answered twice: 4294967295 packets lost. */
  lemma DuplicateReplyCounterexample()
    ensures PacketsLost(After([Sent(0), Reply(0, 1, 0), Reply(0, 2, 0)])) == 0xffff_ffff
  {
    var h := [Sent(0), Reply(0, 1, 0), Reply(0, 2, 0)];
    assert h[..2][..1][..0] == [] && h[..2][..1] == [Sent(0)] && h[..2] == [Sent(0), Reply(0, 1, 0)];
    assert After([]) == FRESH;
    assert After(h[..2][..1]) == Step(FRESH, Sent(0));
    assert After(h[..2]) == Step(After(h[..2][..1]), Reply(0, 1, 0));
    assert After(h) == Step(After(h[..2]), Reply(0, 2, 0));
  }

  // ---- GetResults ----

  datatype TestSessionResult = TestSessionResult(
    packetsSent: uint32, packetsReceived: uint32, packetsLost: uint32,
    minRTT: int, maxRTT: int, avgRTT: int,
    minReflectorLatency: int, maxReflectorLatency: int, avgReflectorLatency: int)

  function Least(xs: seq<int>): (m: int)
    ensures IsMin(m, xs)
  {
    if xs == [] then TOP else
      var m, x := Least(xs[..|xs| - 1]), xs[|xs| - 1];
      assert xs == xs[..|xs| - 1] + [x];
      if x < m then x else m
  }

  function Greatest(xs: seq<int>): (m: int)
    ensures IsMax(m, xs)
  {
    if xs == [] then 0 else
      var m, x := Greatest(xs[..|xs| - 1]), xs[|xs| - 1];
      assert xs == xs[..|xs| - 1] + [x];
      if x > m then x else m
  }

  function LatencyOf(results: map<uint32, PacketResult>, q: uint32): int {
    if q in Answered(results) then results[q].receipt.value.reflectorLatency else 0
  }

  /** The reflector latencies of packets, in some order. */
  function Latencies(results: map<uint32, PacketResult>, order: seq<uint32>): (xs: seq<int>)
    ensures |xs| == |order|
  {
    if order == [] then [] else Latencies(results, order[..|order| - 1]) + [LatencyOf(results, order[|order| - 1])]
  }

  /** What GetResults reports when it meets the answered packets in this order. */
  function ResultOf(s: Stats, order: seq<uint32>): TestSessionResult {
    var base := TestSessionResult(s.totalSent, s.totalReceived, PacketsLost(s), s.minRTT, s.maxRTT, AvgRTT(s), 0, 0, 0);
    var xs := Latencies(s.results, order);
    if s.totalReceived == 0 || xs == [] then base else
      base.(minReflectorLatency := Least(xs), maxReflectorLatency := Greatest(xs),
            avgReflectorLatency := Quo(Signed64(Sum(xs)), |xs|))
  }

  /** Each member of a set once. */
  ghost predicate Lists(order: seq<uint32>, members: set<uint32>) {
    && (forall q :: q in order <==> q in members)
    && (forall i, j :: 0 <= i < j < |order| ==> order[i] != order[j])
  }

  function Without(order: seq<uint32>, i: nat): seq<uint32>
    requires i < |order|
  {
    order[..i] + order[i + 1..]
  }

  lemma ListsWithout(order: seq<uint32>, members: set<uint32>, i: nat)
    requires Lists(order, members) && i < |order|
    ensures Lists(Without(order, i), members - {order[i]})
  {
    var w := Without(order, i);
    forall q ensures q in w <==> q in members - {order[i]} {
      if q in members && q != order[i] {
        var k :| 0 <= k < |order| && order[k] == q;
        assert w[if k < i then k else k - 1] == q;
      }
      if q in w {
        var k :| 0 <= k < |w| && w[k] == q;
        assert order[if k < i then k else k + 1] == q;
      }
    }
  }

  lemma WithoutLast(order: seq<uint32>, i: nat)
    requires i < |order|
    ensures var n, w := |order| - 1, Without(order, i);
            && |w| == n
            && (i == n ==> w == order[..n])
            && (i < n ==> w[..n - 1] == Without(order[..n], i) && w[n - 1] == order[n])
  {
  }

  lemma LatenciesSum(results: map<uint32, PacketResult>, order: seq<uint32>)
    requires order != []
    ensures Sum(Latencies(results, order)) ==
            Sum(Latencies(results, order[..|order| - 1])) + LatencyOf(results, order[|order| - 1])
  {
    SumSnoc(Latencies(results, order[..|order| - 1]), LatencyOf(results, order[|order| - 1]));
  }

  /** Taking one packet out of the order takes its latency out of the sum. */
  lemma {:induction false} SumWithout(results: map<uint32, PacketResult>, order: seq<uint32>, i: nat)
    requires i < |order|
    ensures Sum(Latencies(results, order)) == Sum(Latencies(results, Without(order, i))) + LatencyOf(results, order[i])
    decreases |order|
  {
    hide LatencyOf, Sum, Latencies, Without;
    var n := |order| - 1;
    LatenciesSum(results, order);
    WithoutLast(order, i);
    if i < n {
      SumWithout(results, order[..n], i);
      LatenciesSum(results, Without(order, i));
    }
  }

  lemma {:induction false} ListsSize(order: seq<uint32>, members: set<uint32>)
    requires Lists(order, members)
    ensures |order| == |members|
    decreases |order|
  {
    if order == [] {
      assert members == {};
    } else {
      ListsWithout(order, members, 0);
      ListsSize(Without(order, 0), members - {order[0]});
    }
  }

  lemma {:induction false} SumOrder(results: map<uint32, PacketResult>, a: seq<uint32>, b: seq<uint32>,
                                    members: set<uint32>)
    requires Lists(a, members) && Lists(b, members)
    ensures |a| == |b| && Sum(Latencies(results, a)) == Sum(Latencies(results, b))
    decreases |a|
  {
    ListsSize(a, members);
    ListsSize(b, members);
    if a != [] {
      var n := |a| - 1;
      assert a[n] in b;
      var i :| 0 <= i < |b| && b[i] == a[n];
      ListsWithout(a, members, n);
      ListsWithout(b, members, i);
      SumOrder(results, Without(a, n), Without(b, i), members - {a[n]});
      SumWithout(results, a, n);
      SumWithout(results, b, i);
    }
  }

  lemma {:induction false} LatencyMembers(results: map<uint32, PacketResult>, order: seq<uint32>, x: int)
    ensures x in Latencies(results, order) <==> exists q :: q in order && LatencyOf(results, q) == x
    decreases |order|
  {
    if order != [] {
      var n := |order| - 1;
      LatencyMembers(results, order[..n], x);
      assert order == order[..n] + [order[n]];
    }
  }

  lemma SameExtremes(xs: seq<int>, ys: seq<int>)
    requires forall x :: x in xs <==> x in ys
    requires forall x :: x in xs ==> x <= TOP
    ensures Least(xs) == Least(ys) && Greatest(xs) == Greatest(ys)
  {
  }

  /** The order in which the map yields its entries does not matter. */
  lemma OrderIrrelevant(s: Stats, a: seq<uint32>, b: seq<uint32>)
    requires Lists(a, Answered(s.results)) && Lists(b, Answered(s.results))
    requires forall q :: q in Answered(s.results) ==> LatencyOf(s.results, q) <= TOP
    ensures ResultOf(s, a) == ResultOf(s, b)
  {
    SumOrder(s.results, a, b, Answered(s.results));
    var xs, ys := Latencies(s.results, a), Latencies(s.results, b);
    forall x ensures x in xs <==> x in ys {
      LatencyMembers(s.results, a, x);
      LatencyMembers(s.results, b, x);
    }
    forall x | x in xs ensures x <= TOP {
      LatencyMembers(s.results, a, x);
    }
    SameExtremes(xs, ys);
  }

  // ---- What is reported, in terms of the history ----

  /** Event i is the last that answers the packet last sent under q: a reply after which
      no other comes for q and q is not used again. */
  ghost predicate AnsweredAt(h: seq<Event>, q: uint32, i: nat) {
    && i < |h| && h[i].Reply? && h[i].seqNo == q && q < |SendTimes(h[..i])|
    && forall j :: i < j < |h| ==>
                     if h[j].Sent? then |SendTimes(h[..j])| % TWO32 != q else h[j].seqNo != q
  }

  function AnswerTo(h: seq<Event>, q: uint32): (i: Option<nat>)
    ensures i.Some? ==> i.value < |h| && h[i.value].Reply?
  {
    if h == [] then None else
      var g, e := h[..|h| - 1], h[|h| - 1];
      if e.Sent? && |SendTimes(g)| % TWO32 == q then None
      else if e.Reply? && e.seqNo == q && q < |SendTimes(g)| then Some(|g|)
      else AnswerTo(g, q)
  }

  lemma {:induction false} AnswerToExact(h: seq<Event>, q: uint32, i: nat)
    ensures AnswerTo(h, q) == Some(i) <==> AnsweredAt(h, q, i)
  {
    hide SendTimes;
    if h != [] {
      var n := |h| - 1;
      var g := h[..n];
      AnswerToExact(g, q, i);
      assert forall j :: 0 <= j <= n ==> g[..j] == h[..j];
      assert h[..n] == g;
      NumbersIssued(h, i, n);
    }
  }

  lemma {:induction false} NumbersIssued(h: seq<Event>, i: nat, n: nat)
    requires n <= |h|
    ensures i <= n ==> |SendTimes(h[..i])| <= |SendTimes(h[..n])|
    decreases n
  {
    if i < n {
      assert h[..n][..n - 1] == h[..n - 1];
      NumbersIssued(h, i, n - 1);
    }
  }

  /** The receipt of a packet is that of its last answer: when it came, how long after
      the packet, and how long the reflector had it. */
  ghost predicate ReceiptTold(h: seq<Event>, results: map<uint32, PacketResult>, q: uint32) {
    match AnswerTo(h, q)
    case None => q !in Answered(results)
    case Some(i) =>
      var sent := SendTimes(h[..i]);
      && q in Answered(results) && q < |sent|
      && results[q].receipt.value ==
         Receipt(h[i].time, Saturate(h[i].time - sent[Latest(|sent|, q)]), h[i].latency)
  }

  lemma AnswerSnoc(g: seq<Event>, e: Event, q: uint32)
    ensures AnswerTo(g + [e], q) ==
            if e.Sent? && |SendTimes(g)| % TWO32 == q then None
            else if e.Reply? && e.seqNo == q && q < |SendTimes(g)| then Some(|g|)
            else AnswerTo(g, q)
  {
    hide SendTimes;
    assert (g + [e])[..|g|] == g && (g + [e])[|g|] == e;
  }

  lemma ReceiptKept(g: seq<Event>, e: Event, q: uint32, results: map<uint32, PacketResult>,
                    results': map<uint32, PacketResult>)
    requires ReceiptTold(g, results, q) && AnswerTo(g + [e], q) == AnswerTo(g, q)
    requires q in Answered(results) <==> q in Answered(results')
    requires q in Answered(results) ==> results'[q] == results[q]
    ensures ReceiptTold(g + [e], results', q)
  {
    hide SendTimes, AnswerTo, Answered, Latest, Saturate;
    var i := AnswerTo(g, q);
    assert i.Some? ==> (g + [e])[..i.value] == g[..i.value] && (g + [e])[i.value] == g[i.value];
  }

  lemma ReceiptSent(g: seq<Event>, time: int, s: Stats, q: uint32)
    requires ReceiptTold(g, s.results, q) && s.seqNo == |SendTimes(g)| % TWO32
    ensures ReceiptTold(g + [Sent(time)], SendStep(s, time).results, q)
  {
    hide SendTimes, ReceiptTold, AnswerTo;
    AnswerSnoc(g, Sent(time), q);
    if s.seqNo != q {
      ReceiptKept(g, Sent(time), q, s.results, SendStep(s, time).results);
    } else {
      ReceiptNone(g + [Sent(time)], SendStep(s, time).results, q);
    }
  }

  lemma ReceiptNone(h: seq<Event>, results: map<uint32, PacketResult>, q: uint32)
    requires AnswerTo(h, q) == None && q !in Answered(results)
    ensures ReceiptTold(h, results, q)
  {
  }

  lemma ReceiptReplied(g: seq<Event>, e: Event, s: Stats, q: uint32)
    requires ReceiptTold(g, s.results, q) && e.Reply? && ResultsTrack(s.results, SendTimes(g))
    ensures ReceiptTold(g + [e], Step(s, e).results, q)
  {
    hide SendTimes, ReceiptTold, AnswerTo, Latest, Saturate;
    AnswerSnoc(g, e, q);
    if e.seqNo == q && q < |SendTimes(g)| {
      ReceiptNew(g, e, s, q);
    } else {
      ReceiptKept(g, e, q, s.results, Step(s, e).results);
    }
  }

  lemma ReceiptNew(g: seq<Event>, e: Event, s: Stats, q: uint32)
    requires e.Reply? && e.seqNo == q < |SendTimes(g)| && ResultsTrack(s.results, SendTimes(g))
    ensures ReceiptTold(g + [e], Step(s, e).results, q)
  {
    hide SendTimes, AnswerTo, Latest, Saturate;
    AnswerSnoc(g, e, q);
    assert (g + [e])[..|g|] == g && (g + [e])[|g|] == e;
  }

  lemma {:induction false} ReceiptExact(h: seq<Event>, q: uint32)
    ensures ReceiptTold(h, After(h).results, q)
  {
    hide SendTimes, ReceiptTold, ResultsTrack, SendStep, ReplyStep;
    if h == [] {
      ReceiptNone(h, After(h).results, q);
    } else {
      var g, e := h[..|h| - 1], h[|h| - 1];
      ReceiptExact(g, q);
      StatisticsTrackHistory(g);
      assert g + [e] == h;
      if e.Sent? {
        ReceiptSent(g, e.time, After(g), q);
      } else {
        ReceiptReplied(g, e, After(g), q);
      }
    }
  }

  /** How long the reflector had each packet, by the last answers. */
  function ReportedLatencies(h: seq<Event>, order: seq<uint32>): (xs: seq<int>)
    ensures |xs| == |order|
  {
    seq(|order|, k requires 0 <= k < |order| =>
          match AnswerTo(h, order[k])
          case None => 0
          case Some(i) => h[i].latency)
  }

  /** m is the sum divided by the count, cut off towards zero; 0 when nothing is counted. */
  predicate IsMean(m: int, sum: int, count: nat) {
    if count == 0 then m == 0
    else if sum >= 0 then m * count <= sum < (m + 1) * count
    else (m - 1) * count < sum <= m * count
  }

  lemma QuoIsMean(sum: int, count: nat)
    ensures IsMean(if count > 0 then Quo(sum, count) else 0, sum, count)
  {
    if count == 0 { return; }
    var a := if sum >= 0 then sum else -sum;
    var q := a / count;
    assert q * count <= a < q * count + count;
    assert (q + 1) * count == q * count + count;
    assert (-q) * count == -(q * count) && (-q - 1) * count == -((q + 1) * count);
  }

  /** The report for a history: packets sent, accepted replies and their difference, all
      modulo 2^32; the least and greatest round-trip time, and the mean by the 32-bit
      count; the same of the latencies of the answered packets, each listed once. */
  ghost predicate Reports(h: seq<Event>, r: TestSessionResult, order: seq<uint32>) {
    var sent, rtts, xs := |SendTimes(h)|, Rtts(h), ReportedLatencies(h, order);
    && r.packetsSent == sent % TWO32 && r.packetsReceived == |rtts| % TWO32
    && r.packetsLost == (sent - |rtts|) % TWO32
    && IsMin(r.minRTT, rtts) && IsMax(r.maxRTT, rtts)
    && IsMean(r.avgRTT, Signed64(Sum(rtts)), |rtts| % TWO32)
    && if |rtts| % TWO32 == 0 || order == [] then
         r.minReflectorLatency == r.maxReflectorLatency == r.avgReflectorLatency == 0
       else
         && (forall q: uint32 :: q in order <==> AnswerTo(h, q).Some?)
         && (forall i, j :: 0 <= i < j < |order| ==> order[i] != order[j])
         && IsMin(r.minReflectorLatency, xs) && IsMax(r.maxReflectorLatency, xs)
         && IsMean(r.avgReflectorLatency, Signed64(Sum(xs)), |xs|)
  }

  lemma {:induction false} LatenciesTold(h: seq<Event>, results: map<uint32, PacketResult>, order: seq<uint32>)
    requires forall q: uint32 :: q in order ==> ReceiptTold(h, results, q)
    ensures Latencies(results, order) == ReportedLatencies(h, order)
    decreases |order|
  {
    hide AnswerTo, SendTimes, Latest, Saturate;
    if order != [] {
      var n := |order| - 1;
      LatenciesTold(h, results, order[..n]);
      assert ReportedLatencies(h, order)[..n] == ReportedLatencies(h, order[..n]);
      assert ReceiptTold(h, results, order[n]);
    }
  }

  lemma LossByCounts(a: nat, b: nat)
    ensures (a % TWO32 - b % TWO32) % TWO32 == (a - b) % TWO32
  {
    var x, y := a / TWO32, b / TWO32;
    assert a - b == (a % TWO32 - b % TWO32) + (x - y) * TWO32;
  }

  lemma ResultReports(h: seq<Event>, order: seq<uint32>)
    requires After(h).totalReceived > 0 ==> Lists(order, Answered(After(h).results))
    ensures Reports(h, ResultOf(After(h), order), order)
  {
    hide After, SendTimes, Rtts, AnswerTo, Sum, Signed64, Latencies, ReportedLatencies, ResultsTrack, IsMean, Quo;
    hide Least, Greatest;
    StatisticsTrackHistory(h);
    var s, sent, rtts := After(h), |SendTimes(h)|, Rtts(h);
    LossByCounts(sent, |rtts|);
    QuoIsMean(s.sumRTT, s.totalReceived);
    if s.totalReceived > 0 {
      forall q: uint32 ensures ReceiptTold(h, s.results, q) && (q in order <==> AnswerTo(h, q).Some?) {
        ReceiptExact(h, q);
      }
      LatenciesTold(h, s.results, order);
      if order != [] {
        QuoIsMean(Signed64(Sum(Latencies(s.results, order))), |order|);
      }
    }
  }

  lemma ReportsAny(s: Stats, order: seq<uint32>)
    requires s.totalReceived > 0 ==> Lists(order, Answered(s.results))
    ensures forall h :: After(h) == s ==> Reports(h, ResultOf(s, order), order)
  {
    hide After, Reports, ResultOf;
    forall h | After(h) == s ensures Reports(h, ResultOf(s, order), order) {
      ResultReports(h, order);
    }
  }

  // ---- The session object ----

  /** client.TestSession. */
  class TestSession {
    const prims: Primitives
    const keys: SessionKeys
    const mode: TestMode
    var seqNo: uint32
    var totalSent: uint32
    var totalReceived: uint32
    var sumRTT: int
    var minRTT: int
    var maxRTT: int
    var results: map<uint32, PacketResult>

    constructor (prims: Primitives, keys: SessionKeys, mode: TestMode)
      ensures this.prims == prims && this.keys == keys && this.mode == mode && State() == FRESH
    {
      this.prims, this.keys, this.mode := prims, keys, mode;
      seqNo, totalSent, totalReceived := 0, 0, 0;
      sumRTT, minRTT, maxRTT, results := 0, TOP, 0, map[];
    }

    ghost function State(): Stats
      reads this
    {
      Stats(seqNo, totalSent, totalReceived, sumRTT, minRTT, maxRTT, results)
    }

    /** SendTestPacket, up to the packet handed to the socket.  The padding is one the
        server has accepted, so building the packet does not overrun its buffer. */
    method SendTestPacket(now: int, timestamp: Timestamp, synchronized: bool, random: bytes) returns (packet: bytes)
      requires |random| <= MaxSenderPadding(mode)
      modifies this
      ensures State() == SendStep(old(State()), now)
      ensures BuildPacket(prims, keys, mode, Stamp(old(seqNo), timestamp, ErrorEstimate(1, 8, synchronized)), random)
                == Ok(packet)
    {
      var q := seqNo;
      seqNo := (seqNo as int + 1) % TWO32;
      totalSent := (totalSent as int + 1) % TWO32;
      var built := BuildPacket(prims, keys, mode, Stamp(q, timestamp, ErrorEstimate(1, 8, synchronized)), random);
      results := results[q := PacketResult(now, None)];
      return built.value;
    }

    /** processReceivedPacket: decrypt, verify and parse, then account for the reply. */
    method ProcessReceivedPacket(packet: bytes, recvTime: int) returns (err: Option<Error>)
      modifies this
      ensures match ParseReflection(prims, keys, mode, packet)
              case Err(e) => err == Some(e) && State() == old(State())
              case Ok(r) =>
                && (err == None <==> r.sender.seqNo in old(results))
                && (err != None ==> err == Some(UnknownSequenceNumber))
                && State() == ReplyStep(old(State()), r.sender.seqNo, recvTime,
                                        DurationBetween(r.receiveTimestamp, r.own.timestamp))
    {
      hide ParseReflection, DurationBetween, Saturate, Signed64;
      var parsed := ParseReflection(prims, keys, mode, packet);
      if parsed.Err? {
        return Some(parsed.error);
      }
      var q := parsed.value.sender.seqNo;
      if q !in results {
        return Some(UnknownSequenceNumber);
      }
      var rtt := Saturate(recvTime - results[q].sentTime);
      var latency := DurationBetween(parsed.value.receiveTimestamp, parsed.value.own.timestamp);
      results := results[q := results[q].(receipt := Some(Receipt(recvTime, rtt, latency)))];
      totalReceived := (totalReceived as int + 1) % TWO32;
      sumRTT := Signed64(sumRTT + rtt);
      if rtt < minRTT {
        minRTT := rtt;
      }
      if rtt > maxRTT {
        maxRTT := rtt;
      }
      return None;
    }

    /** GetResults: the running totals, and the latencies by a pass over the map. */
    method GetResults() returns (r: TestSessionResult, ghost order: seq<uint32>)
      ensures totalReceived > 0 ==> Lists(order, Answered(results))
      ensures r == ResultOf(State(), order)
      ensures forall h :: After(h) == State() ==> Reports(h, r, order)
    {
      hide After, Reports, Lists, Answered, Latencies;
      r := TestSessionResult(totalSent, totalReceived, (totalSent as int - totalReceived as int) % TWO32,
                             minRTT, maxRTT,
                             if totalReceived > 0 then Quo(sumRTT, totalReceived) else 0, 0, 0, 0);
      order := [];
      if totalReceived > 0 {
        var count, sum, min, max;
        count, sum, min, max, order := LatencyPass();
        assert Answered(results) - {} == Answered(results);
        if count > 0 {
          r := r.(minReflectorLatency := min, maxReflectorLatency := max, avgReflectorLatency := Quo(sum, count));
        }
      }
      ReportsAny(State(), order);
    }

    /** The accumulators after some packets. */
    ghost predicate Accumulated(order: seq<uint32>, rest: set<uint32>, count: nat, sum: int, min: int, max: int)
      reads this
    {
      var xs := Latencies(results, order);
      && Lists(order, Answered(results) - rest)
      && count == |order| && sum == Signed64(Sum(xs)) && min == Least(xs) && max == Greatest(xs)
    }

    /** The entries of the map in whatever order it yields them. */
    method LatencyPass() returns (count: nat, sum: int, min: int, max: int, ghost order: seq<uint32>)
      ensures Accumulated(order, {}, count, sum, min, max)
    {
      hide Accumulated, Signed64;
      count, sum, min, max, order := 0, 0, TOP, 0, [];
      var rest := results.Keys;
      NoneVisited();
      while rest != {}
        invariant rest <= results.Keys && Accumulated(order, rest, count, sum, min, max)
        decreases rest
      {
        var q :| q in rest;
        Visit(order, q, rest, count, sum, min, max);
        rest := rest - {q};
        if results[q].receipt.Some? {
          var latency := results[q].receipt.value.reflectorLatency;
          count := count + 1;
          sum := Signed64(sum + latency);
          min := if latency < min then latency else min;
          max := if latency > max then latency else max;
          order := order + [q];
        }
      }
    }

    lemma NoneVisited()
      ensures Accumulated([], results.Keys, 0, 0, TOP, 0)
    {
      assert Answered(results) - results.Keys == {};
    }

    lemma Visit(order: seq<uint32>, q: uint32, rest: set<uint32>, count: nat, sum: int, min: int, max: int)
      requires q in rest && Accumulated(order, rest, count, sum, min, max)
      ensures q in Answered(results) ==>
                var x := LatencyOf(results, q);
                Accumulated(order + [q], rest - {q}, count + 1, Signed64(sum + x),
                            if x < min then x else min, if x > max then x else max)
      ensures q !in Answered(results) ==> Accumulated(order, rest - {q}, count, sum, min, max)
    {
      if q in Answered(results) {
        var xs, x := Latencies(results, order), LatencyOf(results, q);
        assert (order + [q])[..|order|] == order && (xs + [x])[..|xs|] == xs;
        assert Latencies(results, order + [q]) == xs + [x];
        SumSnoc(xs, x);
        hide Signed64, Sum, Latencies;
        ListsSnoc(order, q, Answered(results) - rest);
        assert Answered(results) - (rest - {q}) == Answered(results) - rest + {q};
      } else {
        assert Answered(results) - (rest - {q}) == Answered(results) - rest;
      }
    }
  }

  lemma ListsSnoc(order: seq<uint32>, q: uint32, members: set<uint32>)
    requires Lists(order, members) && q !in members
    ensures Lists(order + [q], members + {q})
  {
  }
}
