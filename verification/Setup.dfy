/** Connection setup from the greeting to the first command: mode, token, key lookup and
    Server-Start (negotiateMode in client/client.go, handleClientSetup in
    server/server.go, CreateToken and DecryptToken in crypto/crypto.go; section 3.1 of
    RFC 4656). */
module Setup {
  import opened Bytes
  import opened CbcStream
  import opened PacketCrypto
  import opened TestPackets
  import opened ControlMessages
  import opened ControlChannel
  import opened Modes
  import opened SessionMachine
  import opened Lockstep

  // ---- Tokens ----

  datatype Token = Token(challenge: Block, aes: Block, hmac: HmacKey)

  function CreateToken(p: Primitives, challenge: Block, aes: Block, hmac: HmacKey): (token: bytes)
    ensures |token| == 64
  {
    CbcEncrypt(p, challenge, ZERO_IV, challenge + aes + hmac)
  }

  function DecryptToken(p: Primitives, token: bytes, challenge: Block): Result<Token> {
    if |token| != 64 then Err(InvalidMessageLength) else
    var plain := CbcDecrypt(p, challenge, ZERO_IV, token);
    :- Need(plain[..16] == challenge, DecryptFailed);
    Ok(Token(plain[..16], plain[16..32], plain[32..]))
  }

  lemma TokenInverse(p: Primitives, challenge: Block, aes: Block, hmac: HmacKey)
    requires p.DecryptInverts()
    ensures DecryptToken(p, CreateToken(p, challenge, aes, hmac), challenge) == Ok(Token(challenge, aes, hmac))
  {
    var plain := challenge + aes + hmac;
    DecryptEncrypt(p, challenge, ZERO_IV, plain);
    assert plain[..16] == challenge && plain[16..32] == aes && plain[32..] == hmac;
  }

  /** A token is taken exactly when it has its 64 bytes and the first 16 of the plaintext
      are the challenge; then the keys are the rest. */
  lemma TokenRead(p: Primitives, challenge: Block, plain: bytes)
    requires p.DecryptInverts() && |plain| == 64
    ensures DecryptToken(p, CbcEncrypt(p, challenge, Zeros(16), plain), challenge) ==
            if plain[..16] == challenge then Ok(Token(challenge, plain[16..32], plain[32..64])) else Err(DecryptFailed)
  {
    DecryptEncrypt(p, challenge, ZERO_IV, plain);
    assert plain[32..] == plain[32..64];
  }

  // ---- Key identifiers ----

  const KEY_ID_SIZE := 80

  /** copy(setupResponse.KeyID[:], keyID). */
  function KeyIDField(keyID: bytes): (field: bytes)
    ensures |field| == KEY_ID_SIZE
  {
    if |keyID| >= KEY_ID_SIZE then keyID[..KEY_ID_SIZE] else keyID + Zeros(KEY_ID_SIZE - |keyID|)
  }

  /** The loop that looks for the first zero byte; without one the length stays 0. */
  method KeyIDLength(field: bytes) returns (n: nat)
    ensures n == FirstZero(field, 0)
    ensures n <= |field| && 0 !in field[..n] && if 0 in field then n < |field| && field[n] == 0 else n == 0
  {
    FirstZeroExact(field, 0);
    n := 0;
    for i := 0 to |field|
      invariant n == 0 && FirstZero(field, 0) == FirstZero(field, i)
    {
      if field[i] == 0 {
        n := i;
        break;
      }
    }
  }

  function FirstZero(field: bytes, i: nat): (n: nat)
    requires i <= |field|
    ensures n <= |field|
    decreases |field| - i
  {
    if i == |field| then 0 else if field[i] == 0 then i else FirstZero(field, i + 1)
  }

  lemma {:induction false} FirstZeroExact(field: bytes, i: nat)
    requires i <= |field|
    ensures var n := FirstZero(field, i);
            if 0 in field[i..] then i <= n < |field| && field[n] == 0 && 0 !in field[i..n] else n == 0
    decreases |field| - i
  {
    if i < |field| {
      FirstZeroExact(field, i + 1);
      assert field[i..] == [field[i]] + field[i + 1..];
      var n := FirstZero(field, i + 1);
      assert i < n ==> field[i..n] == [field[i]] + field[i + 1..n];
    }
  }

  function KeyIDOf(field: bytes): bytes {
    field[..FirstZero(field, 0)]
  }

  lemma {:induction false} FirstZeroFrom(field: bytes, i: nat, k: nat)
    requires i <= k <= |field| && forall j :: i <= j < k ==> field[j] != 0
    ensures FirstZero(field, i) == if k == |field| then 0 else if field[k] == 0 then k else FirstZero(field, k)
    decreases k - i
  {
    if i < k {
      FirstZeroFrom(field, i + 1, k);
    }
  }

  /** A key identifier reaches the server as it is exactly when it is shorter than the
      field and has no zero byte. */
  lemma KeyIDRoundTrip(keyID: bytes)
    ensures KeyIDOf(KeyIDField(keyID)) == keyID <==> |keyID| < KEY_ID_SIZE && 0 !in keyID
  {
    var field := KeyIDField(keyID);
    if |keyID| < KEY_ID_SIZE && 0 !in keyID {
      FirstZeroFrom(field, 0, |keyID|);
      assert field[..|keyID|] == keyID;
    } else if |keyID| < KEY_ID_SIZE {
      FirstZeroIsEarly(field, keyID);
    } else {
      FirstZeroShort(field, 0);
    }
  }

  lemma {:induction false} FirstZeroShort(field: bytes, i: nat)
    requires i <= |field| && |field| > 0
    ensures FirstZero(field, i) < |field|
    decreases |field| - i
  {
    if i < |field| {
      FirstZeroShort(field, i + 1);
    }
  }

  lemma FirstZeroIsEarly(field: bytes, keyID: bytes)
    requires |keyID| < KEY_ID_SIZE && 0 in keyID && field == KeyIDField(keyID)
    ensures FirstZero(field, 0) < |keyID|
  {
    var z :| 0 <= z < |keyID| && keyID[z] == 0;
    Bounded(field, 0, z);
  }

  lemma {:induction false} Bounded(field: bytes, i: nat, z: nat)
    requires i <= z < |field| && field[z] == 0
    ensures FirstZero(field, i) <= z
    decreases z - i
  {
    if i < z {
      Bounded(field, i + 1, z);
    }
  }

  // ---- The three messages ----

  function ModeField(m: Mode): uint32 {
    m as int
  }

  function ModeOf(x: uint32): Mode {
    x as bv32
  }

  lemma ModeFieldInverse(m: Mode)
    ensures ModeOf(ModeField(m)) == m
  {
  }

  /** DeriveKey: PBKDF2 over the shared secret. */
  type KeyDerivation = (bytes, Block, uint32) -> (Block, HmacKey)

  datatype ClientConfig = ClientConfig(preferred: Mode, keyID: bytes, secret: bytes)

  datatype ServerConfig = ServerConfig(supported: Mode, secrets: map<bytes, bytes>)

  /** What a side knows once it is set up. */
  datatype Agreed = Agreed(resolved: Resolved, aes: Block, hmac: HmacKey, clientIV: Block)

  const NO_KEYS: (Block, HmacKey) := (Zeros(16), Zeros(32))

  predicate RequiresAuthentication(control: Mode) {
    SecurityOf(control) != UNAUTHENTICATED
  }

  function Greeting(cfg: ServerConfig, challenge: Block, salt: Block): ServerGreeting {
    ServerGreeting(ModeField(Offered(cfg.supported)), challenge, salt, 1024)
  }

  function ClientKeys(derive: KeyDerivation, cfg: ClientConfig, g: ServerGreeting, m: Mode): (Block, HmacKey) {
    if RequiresAuthentication(m) then derive(cfg.secret, g.salt, g.count) else NO_KEYS
  }

  /** The Setup-Response of negotiateMode, and the mode it selects. */
  function ClientResponds(p: Primitives, derive: KeyDerivation, cfg: ClientConfig, g: ServerGreeting, iv: Block)
    : (r: Result<(SetupResponse, Mode)>)
    ensures r.Ok? ==> r.value.0.Valid()
  {
    if g.modes == 0 then Err(ServerNoModes) else
    var m :- SelectMode(cfg.preferred, ModeOf(g.modes));
    if !RequiresAuthentication(m) then
      Ok((SetupResponse(ModeField(m), Zeros(80), Zeros(64), Zeros(16)), m))
    else
      :- Need(cfg.secret != [], SharedSecretRequired);
      var keys := ClientKeys(derive, cfg, g, m);
      Ok((SetupResponse(ModeField(m), KeyIDField(cfg.keyID), CreateToken(p, g.challenge, keys.0, keys.1), iv), m))
  }

  /** handleClientSetup, up to the Server-Start message. */
  function ServerAccepts(p: Primitives, derive: KeyDerivation, cfg: ServerConfig, g: ServerGreeting,
                         response: SetupResponse)
    : Result<Agreed>
    requires response.Valid()
  {
    var r :- AcceptMode(ModeOf(response.mode), cfg.supported);
    if !RequiresAuthentication(r.control) then
      Ok(Agreed(r, NO_KEYS.0, NO_KEYS.1, response.clientIV))
    else
      var keyID := KeyIDOf(response.keyID);
      :- Need(keyID in cfg.secrets, UnknownKeyID);
      var keys := derive(cfg.secrets[keyID], g.salt, g.count);
      var token :- DecryptToken(p, response.token, g.challenge);
      Ok(Agreed(r, keys.0, keys.1, response.clientIV))
  }

  /** Which Setup-Responses the server takes: any whose mode it accepts, and, when that
      mode secures the control protocol, only one whose key identifier it knows and whose
      token decrypts to the challenge; the keys then come from the secret on file. */
  lemma AcceptedExactly(p: Primitives, derive: KeyDerivation, cfg: ServerConfig, g: ServerGreeting,
                        response: SetupResponse, plain: bytes)
    requires p.DecryptInverts() && response.Valid()
    requires |plain| == 64 && response.token == CbcEncrypt(p, g.challenge, Zeros(16), plain)
    ensures var r := ServerAccepts(p, derive, cfg, g, response);
            var mode := AcceptMode(ModeOf(response.mode), cfg.supported);
            var keyID := KeyIDOf(response.keyID);
            if mode.Err? then r == Err(mode.error)
            else if SecurityOf(mode.value.control) == UNAUTHENTICATED then
              r == Ok(Agreed(mode.value, Zeros(16), Zeros(32), response.clientIV))
            else if keyID !in cfg.secrets then r == Err(UnknownKeyID)
            else if plain[..16] != g.challenge then r == Err(DecryptFailed)
            else
              var keys := derive(cfg.secrets[keyID], g.salt, g.count);
              r == Ok(Agreed(mode.value, keys.0, keys.1, response.clientIV))
  {
    hide AcceptMode, KeyIDOf, DecryptToken, ModeOf, SecurityOf;
    TokenRead(p, g.challenge, plain);
  }

  /** Which greetings a client answers: those that share a security bit with a valid
      preferred mask, and, when a shared one needs keys, only with a secret.  Then the
      response carries the mode, the key identifier, a token holding the challenge and
      the keys, and the vector, or zeros for all but the mode. */
  lemma AnsweredExactly(p: Primitives, derive: KeyDerivation, client: ClientConfig, server: ServerConfig,
                        challenge: Block, salt: Block, iv: Block)
    requires p.DecryptInverts()
    ensures var r := ClientResponds(p, derive, client, Greeting(server, challenge, salt), iv);
            var secured := Both(client.preferred, server.supported, AUTHENTICATED)
                           || Both(client.preferred, server.supported, ENCRYPTED);
            && (r.Ok? <==> !Has(client.preferred, BIT14) && (secured ==> client.secret != [])
                           && (secured || Both(client.preferred, server.supported, UNAUTHENTICATED)))
            && (r.Ok? ==> ModeOf(r.value.0.mode) == r.value.1)
            && (r.Ok? && secured ==>
                  var (aes, hmac) := derive(client.secret, salt, 1024);
                  && r.value.0.keyID == KeyIDField(client.keyID) && r.value.0.clientIV == iv
                  && CbcDecrypt(p, challenge, Zeros(16), r.value.0.token) == challenge + aes + hmac)
            && (r.Ok? && !secured ==>
                  r.value.0.keyID == Zeros(80) && r.value.0.token == Zeros(64) && r.value.0.clientIV == Zeros(16))
  {
    hide SelectMode, RequiresAuthentication, ModeOf, ModeField, Has, Both, KeyIDField, Offered, CbcEncrypt, CbcDecrypt;
    SelectionSecured(client.preferred, server.supported);
    ModeFieldInverse(Offered(server.supported));
    NothingOffered(client.preferred, server.supported);
    var m := SelectMode(client.preferred, Offered(server.supported));
    if m.Ok? {
      ModeFieldInverse(m.value);
    }
    var (aes, hmac) := derive(client.secret, salt, 1024);
    DecryptEncrypt(p, challenge, ZERO_IV, challenge + aes + hmac);
  }

  lemma NothingOffered(preferred: Mode, supported: Mode)
    ensures ModeField(Offered(supported)) == 0 ==> SelectMode(preferred, Offered(supported)).Err?
  {
    hide Has, SelectMode, Offered;
    ModeFieldInverse(Offered(supported));
    ZeroShares(preferred);
  }

  lemma ZeroShares(preferred: Mode)
    ensures SelectMode(preferred, 0).Err?
  {
  }

  lemma SelectionSecured(preferred: Mode, supported: Mode)
    ensures var m := SelectMode(preferred, Offered(supported));
            var secured := Both(preferred, supported, AUTHENTICATED) || Both(preferred, supported, ENCRYPTED);
            && (m.Ok? <==> !Has(preferred, BIT14) && (secured || Both(preferred, supported, UNAUTHENTICATED)))
            && (m.Ok? ==> (RequiresAuthentication(m.value) <==> secured))
  {
    hide Has, SelectMode, Offered, SecurityOf, Common;
    SelectionExact(preferred, supported);
    SomeBit(Common(preferred, supported));
    SharedBits(preferred, supported, UNAUTHENTICATED);
    SharedBits(preferred, supported, AUTHENTICATED);
    SharedBits(preferred, supported, ENCRYPTED);
  }

  /** The two know the same secret under the client's key identifier. */
  predicate Acquainted(client: ClientConfig, server: ServerConfig) {
    |client.keyID| < KEY_ID_SIZE && 0 !in client.keyID
    && client.keyID in server.secrets && server.secrets[client.keyID] == client.secret
  }

  lemma ControlSecurity(m: Mode)
    requires ResolveMixedModes(m).Ok?
    ensures RequiresAuthentication(ResolveMixedModes(m).value.control) == RequiresAuthentication(m)
  {
    hide ValidateRequestedMode;
    ResolvesExactly(m);
    if Has(m, MIXED) {
      MixedResolution(m, ResolveMixedModes(m).value);
    }
  }

  /** Over all configurations, which need to share a secret only for a mode that requires
      authentication: a client that sends a Setup-Response is accepted exactly when its
      mode resolves, and then the server holds the same modes and the same keys. */
  lemma SetupAgrees(p: Primitives, derive: KeyDerivation, client: ClientConfig, server: ServerConfig,
                    challenge: Block, salt: Block, iv: Block, response: SetupResponse, m: Mode)
    requires p.DecryptInverts() && (RequiresAuthentication(m) ==> Acquainted(client, server))
    requires ClientResponds(p, derive, client, Greeting(server, challenge, salt), iv) == Ok((response, m))
    ensures var g := Greeting(server, challenge, salt);
            var agreed := ServerAccepts(p, derive, server, g, response);
            && (agreed.Ok? <==> ResolveMixedModes(m).Ok?)
            && (agreed.Ok? ==>
                  && Ok(agreed.value.resolved) == ResolveMixedModes(m)
                  && (agreed.value.aes, agreed.value.hmac) == ClientKeys(derive, client, g, m)
                  && (RequiresAuthentication(m) ==> agreed.value.clientIV == iv)
                  && TestModeOf(agreed.value.resolved.test) == NegotiatedMode(client.preferred, server.supported)
                  && (RequiresAuthentication(agreed.value.resolved.control)
                      <==> Both(client.preferred, server.supported, AUTHENTICATED)
                           || Both(client.preferred, server.supported, ENCRYPTED)))
  {
    hide SelectMode, AcceptMode, ResolveMixedModes, RequiresAuthentication, Offered, ModeOf, ModeField;
    hide KeyIDOf, KeyIDField, CreateToken, DecryptToken, TestModeOf, NegotiatedMode, Both;
    var g := Greeting(server, challenge, salt);
    ModeFieldInverse(Offered(server.supported));
    ModeFieldInverse(m);
    NegotiationAgrees(client.preferred, server.supported, m);
    KeyIDRoundTrip(client.keyID);
    var keys := ClientKeys(derive, client, g, m);
    TokenInverse(p, challenge, keys.0, keys.1);
    if ResolveMixedModes(m).Ok? {
      ControlSecurity(m);
      FeaturesNegotiated(client.preferred, server.supported, m, ResolveMixedModes(m).value);
    }
  }

  // ---- From the setup to the first command ----

  function TestModeOf(test: Mode): TestMode {
    TestMode(if Has(test, ENCRYPTED) then Encrypted
             else if Has(test, AUTHENTICATED) then Authenticated
             else Unauthenticated,
             Has(test, REFLECT_OCTETS), Has(test, SYMMETRICAL_SIZE))
  }

  predicate Both(preferred: Mode, supported: Mode, bit: Mode) {
    Has(preferred, bit) && Has(supported, bit)
  }

  /** What two configurations lead to, bit by bit. */
  function NegotiatedMode(preferred: Mode, supported: Mode): TestMode {
    TestMode(if Both(preferred, supported, MIXED) then Unauthenticated
             else if Both(preferred, supported, ENCRYPTED) then Encrypted
             else if Both(preferred, supported, AUTHENTICATED) then Authenticated
             else Unauthenticated,
             Both(preferred, supported, REFLECT_OCTETS), Both(preferred, supported, SYMMETRICAL_SIZE))
  }

  /** The mode selected brings exactly the features that both sides have, and the
      strongest security, for the test protocol unless both know mixed mode. */
  lemma FeaturesNegotiated(preferred: Mode, supported: Mode, m: Mode, r: Resolved)
    requires SelectMode(preferred, Offered(supported)) == Ok(m) && ResolveMixedModes(m) == Ok(r)
    ensures TestModeOf(r.test) == NegotiatedMode(preferred, supported)
    ensures RequiresAuthentication(r.control)
            <==> Both(preferred, supported, AUTHENTICATED) || Both(preferred, supported, ENCRYPTED)
  {
    FeatureBits();
    hide Has, SingleBit, SecurityOf, OthersOf, UnmixedOthers, Offered, Common, Within, ResolveMixedModes, SelectMode;
    SelectionExact(preferred, supported);
    FeaturesKept(preferred, supported, MIXED);
    FeaturesKept(preferred, supported, REFLECT_OCTETS);
    FeaturesKept(preferred, supported, SYMMETRICAL_SIZE);
    ResolvedFeatures(m, r, REFLECT_OCTETS);
    ResolvedFeatures(m, r, SYMMETRICAL_SIZE);
    SecurityNegotiated(preferred, supported, m, r);
  }

  lemma FeatureBits()
    ensures SingleBit(MIXED) && SingleBit(REFLECT_OCTETS) && SingleBit(SYMMETRICAL_SIZE)
    ensures MIXED & SECURITY == 0 && REFLECT_OCTETS & SECURITY == 0 && SYMMETRICAL_SIZE & SECURITY == 0
    ensures MIXED != BIT14 && REFLECT_OCTETS != BIT14 && SYMMETRICAL_SIZE != BIT14
    ensures REFLECT_OCTETS != MIXED && SYMMETRICAL_SIZE != MIXED
  {
  }

  lemma SecurityNegotiated(preferred: Mode, supported: Mode, m: Mode, r: Resolved)
    requires OneSecurityBit(m) && Strongest(SecurityOf(m), preferred, supported) && ResolveMixedModes(m) == Ok(r)
    ensures SecurityOf(r.control) == SecurityOf(m)
    ensures RequiresAuthentication(m)
            <==> Both(preferred, supported, AUTHENTICATED) || Both(preferred, supported, ENCRYPTED)
    ensures TestModeOf(r.test).security ==
            if Has(m, MIXED) then Unauthenticated
            else if Both(preferred, supported, ENCRYPTED) then Encrypted
            else if Both(preferred, supported, AUTHENTICATED) then Authenticated
            else Unauthenticated
  {
    hide Has, SecurityOf, OthersOf, UnmixedOthers, Offered, Common, ResolveMixedModes;
    SharedBits(preferred, supported, UNAUTHENTICATED);
    SharedBits(preferred, supported, AUTHENTICATED);
    SharedBits(preferred, supported, ENCRYPTED);
    SecurityBits(m);
    if Has(m, MIXED) {
      MixedResolution(m, r);
      SecurityBits(r.test);
    } else {
      ResolvesExactly(m);
    }
  }

  /** One side's account of the connection: its modes and keys, and the bytes of the
      Server-Start message, sent or received. */
  function LinkOf(p: Primitives, resolved: Resolved, keys: (Block, HmacKey), serverStart: bytes, c: ConnId): Link {
    Link(Protection(p, RequiresAuthentication(resolved.control), keys.0, keys.1, serverStart),
         TestModeOf(resolved.test), c)
  }

  /** After a setup that goes through, client and server have the same link, the server
      vector arrives as sent, and the first command starts in step. */
  lemma SetupLeadsToSync(p: Primitives, derive: KeyDerivation, client: ClientConfig, server: ServerConfig,
                         challenge: Block, salt: Block, iv: Block, response: SetupResponse, m: Mode,
                         start: ServerStart, c: ConnId, s: State)
    requires p.DecryptInverts() && (RequiresAuthentication(m) ==> Acquainted(client, server))
    requires ClientResponds(p, derive, client, Greeting(server, challenge, salt), iv) == Ok((response, m))
    requires ResolveMixedModes(m).Ok? && s.WellFormed() && Enabled(s, Connect(c))
    ensures var g := Greeting(server, challenge, salt);
            var arrived := DecodeSetup(EncodeSetup(response));
            arrived.Ok?
            && var agreed := ServerAccepts(p, derive, server, g, arrived.value);
            agreed.Ok?
            && var wire := EncodeServerStart(start);
            && var mine := LinkOf(p, ResolveMixedModes(m).value, ClientKeys(derive, client, g, m), wire, c);
            && LinkOf(p, agreed.value.resolved, (agreed.value.aes, agreed.value.hmac), wire, c) == mine
            && DecodeServerStart(wire) == Ok(start)
            && InSync(mine, AfterSetup(mine, iv, start.serverIV, Next(s, Connect(c))))
  {
    hide SelectMode, AcceptMode, ResolveMixedModes, RequiresAuthentication, ClientResponds, ServerAccepts, ClientKeys;
    hide InSync, DecodeSetup, EncodeSetup, DecodeServerStart, EncodeServerStart;
    SetupInverse(response, []);
    SetupAgrees(p, derive, client, server, challenge, salt, iv, response, m);
    ServerStartInverse(start, []);
    var keys := ClientKeys(derive, client, Greeting(server, challenge, salt), m);
    var mine := LinkOf(p, ResolveMixedModes(m).value, keys, EncodeServerStart(start), c);
    SetupInSync(mine, iv, start.serverIV, s);
  }
}
