/** From the setup of a control connection to its test traffic: the keys each side
    derives for a session (crypto/crypto.go, section 4.1.2 of RFC 5357) and the packets
    protected with them. */
module TestTraffic {
  import opened Bytes
  import opened CbcStream
  import opened Timestamps
  import opened PacketCrypto
  import opened TestPackets
  import opened ControlMessages
  import opened Modes
  import opened SessionMachine
  import opened Server
  import opened Lockstep
  import opened Setup

  /** TWAMPKeys of a control connection. */
  datatype ControlKeys = ControlKeys(aes: Block, hmac: HmacKey, clientIV: Block, serverIV: Block)

  /** The keys of a test session, as NewTestSession and the request handlers derive them
      from those of the connection and the session's SID. */
  function SessionKeysFor(p: Primitives, k: ControlKeys, sid: SID): SessionKeys {
    var derived := DeriveTestSessionKeys(p, k.aes, k.hmac, sid);
    SessionKeys(derived.0, derived.1, k.clientIV, k.serverIV)
  }

  /** With the SID the keys of the connection can be computed back. */
  lemma DerivedKeys(p: Primitives, k: ControlKeys, sid: SID)
    requires p.DecryptInverts()
    ensures p.decrypt(sid, SessionKeysFor(p, k, sid).aes) == k.aes
    ensures CbcDecrypt(p, sid, ZERO_IV, SessionKeysFor(p, k, sid).hmac) == k.hmac
  {
    DecryptEncrypt(p, sid, ZERO_IV, k.hmac);
  }

  /** Under one SID, two connections have the same session keys exactly when they have the
      same keys: the derivation loses nothing, even for a SID that clients choose alike. */
  lemma SessionKeysDetermine(p: Primitives, k: ControlKeys, m: ControlKeys, sid: SID)
    requires p.DecryptInverts()
    ensures SessionKeysFor(p, k, sid) == SessionKeysFor(p, m, sid) <==> k == m
  {
    hide DeriveTestSessionKeys;
    DerivedKeys(p, k, sid);
    DerivedKeys(p, m, sid);
  }

  /** What the client has in keyDerivation once it has read the Server-Start bytes. */
  function ClientControl(derive: KeyDerivation, client: ClientConfig, g: ServerGreeting, m: Mode, iv: Block,
                         start: ServerStart)
    : ControlKeys
  {
    var keys := ClientKeys(derive, client, g, m);
    ControlKeys(keys.0, keys.1, iv, start.serverIV)
  }

  /** What the server has in keyDerivation. */
  function ServerControl(agreed: Agreed, start: ServerStart): ControlKeys {
    ControlKeys(agreed.aes, agreed.hmac, agreed.clientIV, start.serverIV)
  }

  /** The SID of the session object that the server has on file for a SID. */
  function SidOnFile(s: State, c: ConnId, sid: SID): SID
    requires s.WellFormed() && c in s.conns && sid in s.conns[c]
  {
    s.heap[s.conns[c][sid]].sid
  }

  lemma {:induction false} HistoryKeepsFiled(l: Link, j: Joint, steps: seq<Step>)
    requires j.s.WellFormed() && Filed(j.s) && History(l, j, steps)
    ensures match Outcome(l, j, steps)
            case Continues(j') => j'.s.WellFormed() && Filed(j'.s)
            case _ => true
    decreases |steps|
  {
    hide Filed, Runs, Replay;
    if steps != [] {
      HistoryStep(l, j, steps);
      ExchangeRuns(l, j, steps[0]);
      RunKeepsFiled(j.s, steps[0].events);
      var e := Exchange(l, j, steps[0]);
      if e.Continues? {
        HistoryKeepsFiled(l, e.j, steps[1..]);
      }
    }
  }

  lemma ExchangeRuns(l: Link, j: Joint, step: Step)
    requires Possible(l, j, step)
    ensures j.s.WellFormed() && Runs(j.s, step.events)
    ensures var e := Exchange(l, j, step); e.Continues? ==> e.j.s == Replay(j.s, step.events)
  {
  }

  /** A test mode with keys comes only from a mode that requires authentication. */
  lemma TestSecurity(m: Mode)
    requires ResolveMixedModes(m).Ok?
    requires TestModeOf(ResolveMixedModes(m).value.test).security != Unauthenticated
    ensures RequiresAuthentication(m)
  {
    hide ValidateRequestedMode;
    var test := ResolveMixedModes(m).value.test;
    if Has(m, MIXED) {
      MixedResolution(m, ResolveMixedModes(m).value);
    } else {
      ResolvesExactly(m);
    }
    StrongBits(test);
  }

  lemma StrongBits(test: Mode)
    ensures Has(test, ENCRYPTED) || Has(test, AUTHENTICATED) ==> SecurityOf(test) != UNAUTHENTICATED
  {
  }

  // ---- The padding of a session ----

  /** The padding under which the server has accepted each of the client's sessions. */
  function Paddings(l: Link, j: Joint, steps: seq<Step>, agreed: map<SID, uint32>): map<SID, uint32>
    requires History(l, j, steps)
    decreases |steps|
  {
    if steps == [] then agreed else
      match Exchange(l, j, steps[0])
      case Continues(j') => Paddings(l, j', steps[1..], PaddingsNext(l, j, steps[0], agreed, j'.ports.Keys))
      case _ => agreed
  }

  function PaddingsNext(l: Link, j: Joint, step: Step, agreed: map<SID, uint32>, sids: set<SID>): map<SID, uint32> {
    map sid | sid in sids && (sid in agreed || sid in Booked(l, j, step)) ::
      if sid in Booked(l, j, step) then PaddingSent(l.mode, step.call.config) else agreed[sid]
  }

  /** One agreed padding for each of the client's sessions, and every packet with that
      padding fits the 2048 bytes. */
  ghost predicate PaddingsFit(l: Link, j: Joint, agreed: map<SID, uint32>) {
    agreed.Keys == j.ports.Keys && forall sid :: sid in agreed ==> agreed[sid] <= MaxSenderPadding(l.mode)
  }

  lemma BookedFits(l: Link, j: Joint, step: Step)
    requires Booked(l, j, step) != {}
    ensures PaddingSent(l.mode, step.call.config) <= MaxSenderPadding(l.mode)
  {
    var w := Surroundings(l.x.secured, step.env.receiverAllowed, l.mode, step.env.randomSid);
    var r := RequestOf(l.mode, step.call);
    RefusedExactly(r, step.call.RequestSessionIndividual?, w);
  }

  lemma NextFits(l: Link, j: Joint, step: Step, agreed: map<SID, uint32>, j': Joint)
    requires PaddingsFit(l, j, agreed) && j'.ports.Keys <= j.ports.Keys + Booked(l, j, step)
    requires Booked(l, j, step) != {} ==> PaddingSent(l.mode, step.call.config) <= MaxSenderPadding(l.mode)
    ensures PaddingsFit(l, j', PaddingsNext(l, j, step, agreed, j'.ports.Keys))
  {
    hide Booked, PaddingSent, MaxSenderPadding;
  }

  lemma StepFits(l: Link, j: Joint, step: Step, agreed: map<SID, uint32>)
    requires l.x.p.DecryptInverts() && InSync(l, j) && Possible(l, j, step) && PaddingsFit(l, j, agreed)
    ensures var e := Exchange(l, j, step);
            e.Continues? ==> PaddingsFit(l, e.j, PaddingsNext(l, j, step, agreed, e.j.ports.Keys))
  {
    hide InSync, Possible, Exchange, Booked, PaddingsFit, PaddingsNext, PaddingSent, MaxSenderPadding;
    hide StaysInSync, Malformed, GrantsZero, PortsAgree;
    ExchangeKeepsSync(l, j, step);
    if Booked(l, j, step) != {} {
      BookedFits(l, j, step);
    }
    var e := Exchange(l, j, step);
    if e.Continues? {
      NextFits(l, j, step, agreed, e.j);
    }
  }

  /** Over every history the client's sessions are those accepted, each with a padding
      that the server's check has let pass. */
  lemma {:induction false} PaddingsAccepted(l: Link, j: Joint, steps: seq<Step>, agreed: map<SID, uint32>)
    requires l.x.p.DecryptInverts() && InSync(l, j) && History(l, j, steps) && PaddingsFit(l, j, agreed)
    ensures match Outcome(l, j, steps)
            case Continues(j') => PaddingsFit(l, j', Paddings(l, j, steps, agreed))
            case _ => true
    decreases |steps|
  {
    hide InSync, Possible, PaddingsFit, PaddingsNext, Exchange;
    if steps != [] {
      HistoryStep(l, j, steps);
      StepFits(l, j, steps[0], agreed);
      var e := Exchange(l, j, steps[0]);
      if e.Continues? {
        ExchangeEnds(l, j, steps[0]);
        PaddingsAccepted(l, e.j, steps[1..], PaddingsNext(l, j, steps[0], agreed, e.j.ports.Keys));
      }
    }
  }

  // ---- From the setup to the packets ----

  /** After a setup that goes through and over every history of calls: for every session
      the client has, the server has one on file, made for the same SID; whenever the
      test mode uses keys, the two sides have derived the same; and a test packet of the
      client with the padding accepted for the session passes the server, and its
      reflection the client. */
  lemma TrafficAfterSetup(
    p: Primitives, derive: KeyDerivation, client: ClientConfig, server: ServerConfig, challenge: Block, salt: Block,
    iv: Block, response: SetupResponse, m: Mode, agreed: Agreed, start: ServerStart, c: ConnId, s: State, l: Link,
    steps: seq<Step>, j: Joint, sid: SID,
    stamp: Stamp, random: bytes, own: Stamp, rx: Timestamp, ttl: uint8, fill: nat -> bytes)
    requires p.DecryptInverts() && (RequiresAuthentication(m) ==> Acquainted(client, server))
    requires ClientResponds(p, derive, client, Greeting(server, challenge, salt), iv) == Ok((response, m))
    requires ServerAccepts(p, derive, server, Greeting(server, challenge, salt), response) == Ok(agreed)
    requires ResolveMixedModes(m).Ok? && s.WellFormed() && Filed(s) && Enabled(s, Connect(c))
    requires l == LinkOf(p, agreed.resolved, (agreed.aes, agreed.hmac), EncodeServerStart(start), c)
    requires var j0 := AfterSetup(l, iv, start.serverIV, Next(s, Connect(c)));
             History(l, j0, steps) && Outcome(l, j0, steps) == Continues(j)
    requires sid in j.ports
    requires var accepted := Paddings(l, AfterSetup(l, iv, start.serverIV, Next(s, Connect(c))), steps, map[]);
             sid in accepted ==> |random| == accepted[sid]
    requires forall n :: |fill(n)| == n
    ensures j.s.WellFormed() && c in j.s.conns && sid in j.s.conns[c]
    ensures var g := Greeting(server, challenge, salt);
            var mine := SessionKeysFor(p, ClientControl(derive, client, g, m, iv, start), sid);
            var theirs := SessionKeysFor(p, ServerControl(agreed, start), SidOnFile(j.s, c, sid));
            && (l.mode.security != Unauthenticated ==> mine == theirs)
            && var b := BuildPacket(p, mine, l.mode, stamp, random);
            && b.Ok?
            && var n := |b.value|;
            var r := Reflect(p, theirs, l.mode, b.value, own, rx, ttl, fill);
            && n == SenderBase(l.mode) + |random|
            && (r == Err(BufferOverrun) <==> n > ReflectableLimit(l.mode))
            && (n <= ReflectableLimit(l.mode) ==>
                  && r.Ok? && |r.value| == ReflectedSize(l.mode, n)
                  && ParseReflection(p, mine, l.mode, r.value) == Ok(Reflection(own.OnWire(), rx, stamp.OnWire(), ttl)))
  {
    hide BuildPacket, Reflect, ParseReflection, ReflectedSize, ReflectableLimit, ClientResponds, ServerAccepts,
           History, Outcome;
    hide ResolveMixedModes, RequiresAuthentication, DeriveTestSessionKeys, Paddings;
    var g := Greeting(server, challenge, salt);
    SessionsOnFile(l, iv, start.serverIV, c, s, steps, j, sid);
    SessionPadding(l, iv, start.serverIV, c, s, steps, j, sid);
    SetupAgrees(p, derive, client, server, challenge, salt, iv, response, m);
    if l.mode.security != Unauthenticated {
      TestSecurity(m);
    }
    var mine := SessionKeysFor(p, ClientControl(derive, client, g, m, iv, start), sid);
    var theirs := SessionKeysFor(p, ServerControl(agreed, start), SidOnFile(j.s, c, sid));
    TestPacketBetween(p, mine, theirs, l.mode, stamp, random, own, rx, ttl, fill);
  }

  /** Over every history from the setup on, each session has a padding that was accepted. */
  lemma SessionPadding(l: Link, clientIV: Block, serverIV: Block, c: ConnId, s: State, steps: seq<Step>, j: Joint,
                       sid: SID)
    requires l.x.p.DecryptInverts() && l.c == c && s.WellFormed() && Enabled(s, Connect(c))
    requires var j0 := AfterSetup(l, clientIV, serverIV, Next(s, Connect(c)));
             History(l, j0, steps) && Outcome(l, j0, steps) == Continues(j)
    requires sid in j.ports
    ensures var agreed := Paddings(l, AfterSetup(l, clientIV, serverIV, Next(s, Connect(c))), steps, map[]);
            sid in agreed && agreed[sid] <= MaxSenderPadding(l.mode)
  {
    hide History, Outcome, Paddings, InSync;
    var j0 := AfterSetup(l, clientIV, serverIV, Next(s, Connect(c)));
    SetupInSync(l, clientIV, serverIV, s);
    PaddingsAccepted(l, j0, steps, map[]);
  }

  /** Over every history from the setup on, a session the client has is on file at the
      server under the SID it was made for. */
  lemma SessionsOnFile(l: Link, clientIV: Block, serverIV: Block, c: ConnId, s: State, steps: seq<Step>, j: Joint,
                       sid: SID)
    requires l.x.p.DecryptInverts() && l.c == c && s.WellFormed() && Filed(s) && Enabled(s, Connect(c))
    requires var j0 := AfterSetup(l, clientIV, serverIV, Next(s, Connect(c)));
             History(l, j0, steps) && Outcome(l, j0, steps) == Continues(j)
    requires sid in j.ports
    ensures j.s.WellFormed() && c in j.s.conns && sid in j.s.conns[c] && SidOnFile(j.s, c, sid) == sid
  {
    hide History, Outcome;
    var j0 := AfterSetup(l, clientIV, serverIV, Next(s, Connect(c)));
    StepKeepsFiled(s, Connect(c));
    SetupInSync(l, clientIV, serverIV, s);
    HistoryKeepsSync(l, j0, steps);
    HistoryKeepsFiled(l, j0, steps);
    OnFile(l, j, sid);
  }

  lemma OnFile(l: Link, j: Joint, sid: SID)
    requires InSync(l, j) && j.s.WellFormed() && Filed(j.s) && sid in j.ports
    ensures l.c in j.s.conns && sid in j.s.conns[l.c] && SidOnFile(j.s, l.c, sid) == sid
  {
    assert Theirs(l, j).Keys == j.s.conns[l.c].Keys;
  }
}
