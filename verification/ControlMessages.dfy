/** The fixed-length TWAMP-Control messages of messages/control.go and the
    variable-length Stop-N-Sessions of messages/control_rfc5938.go.

    Each message is a value, its wire form a byte string.  The last 16 bytes of every
    command and reply hold the MAC, or zeros on an unsecured connection; `includeHMAC`
    says which. */
module ControlMessages {
  import opened Buffers
  import opened Bytes
  import opened CbcStream
  import opened Timestamps
  import opened TestPackets

  type SID = Block
  const ZERO_SID: SID := Zeros(16)

  const CMD_START_SESSIONS := 2
  const CMD_STOP_SESSIONS := 3
  const CMD_STOP_N_SESSIONS := 4
  const CMD_REQUEST_TW_SESSION := 5
  const CMD_REQUEST_TW_SESSION_INDIVIDUAL := 6

  const ACCEPT_OK := 0
  const ACCEPT_FAILURE := 1
  const ACCEPT_NOT_SUPPORTED := 3
  const ACCEPT_TEMP_RES_LIMITED := 5

  /** What the MAC field holds on the wire. */
  function Tail(hmac: Block, includeHMAC: bool): Block {
    if includeHMAC then hmac else Zeros(16)
  }

  /** What a receiver takes from the MAC field: without a MAC it must be zero, and
      the receiver's field stays zero. */
  function CheckTail(tail: Block, includeHMAC: bool): Result<Block> {
    if includeHMAC then Ok(tail) else if AllZero(tail) then Ok(Zeros(16)) else Err(InvalidMBZ)
  }

  lemma TailChecks(hmac: Block, includeHMAC: bool)
    ensures CheckTail(Tail(hmac, includeHMAC), includeHMAC) == Ok(Tail(hmac, includeHMAC))
  {
  }

  // ---- Connection setup ----

  datatype ServerGreeting = ServerGreeting(modes: uint32, challenge: Block, salt: Block, count: uint32)

  function EncodeGreeting(m: ServerGreeting): (b: bytes)
    ensures |b| == 64
  {
    Zeros(12) + (PutUint32(m.modes) + (m.challenge + (m.salt + (PutUint32(m.count) + Zeros(12)))))
  }

  function DecodeGreeting(data: bytes): Result<ServerGreeting> {
    if |data| < 64 then Err(InvalidMessageLength) else
    :- Need(AllZero(data[0..12]) && AllZero(data[52..64]), InvalidMBZ);
    Ok(ServerGreeting(Uint32(data[12..16]), data[16..32], data[32..48], Uint32(data[48..52])))
  }

  lemma GreetingInverse(m: ServerGreeting, data: bytes)
    ensures DecodeGreeting(EncodeGreeting(m)) == Ok(m)
    ensures var b := EncodeGreeting(m);
            && b[0..12] == Zeros(12) && b[12..16] == PutUint32(m.modes) && b[16..32] == m.challenge
            && b[32..48] == m.salt && b[48..52] == PutUint32(m.count) && b[52..64] == Zeros(12)
    ensures |data| == 64 && DecodeGreeting(data).Ok? ==> EncodeGreeting(DecodeGreeting(data).value) == data
  {
    hide PutUint32, Uint32, Zeros;
    var b := EncodeGreeting(m);
    var count := PutUint32(m.count) + Zeros(12);
    var salt := m.salt + count;
    var challenge := m.challenge + salt;
    var modes := PutUint32(m.modes) + challenge;
    Peel(b, 0, Zeros(12), modes);
    Peel(b, 12, PutUint32(m.modes), challenge);
    Peel(b, 16, m.challenge, salt);
    Peel(b, 32, m.salt, count);
    Peel(b, 48, PutUint32(m.count), Zeros(12));
    assert b[52..64] == b[52..];
    Uint32Inverse(m.modes, b[12..16]);
    Uint32Inverse(m.count, b[48..52]);
    AllZeroIsZeros(b[0..12]);
    AllZeroIsZeros(b[52..64]);
    if |data| == 64 && DecodeGreeting(data).Ok? {
      GreetingReproduced(data);
    }
  }

  lemma GreetingReproduced(data: bytes)
    requires |data| == 64 && DecodeGreeting(data).Ok?
    ensures EncodeGreeting(DecodeGreeting(data).value) == data
  {
    hide PutUint32, Uint32, Zeros;
    Uint32Inverse(0, data[12..16]);
    Uint32Inverse(0, data[48..52]);
    AllZeroIsZeros(data[0..12]);
    AllZeroIsZeros(data[52..64]);
    Rejoin(data, 48, 52);
    Rejoin(data, 32, 48);
    Rejoin(data, 16, 32);
    Rejoin(data, 12, 16);
    Rejoin(data, 0, 12);
    assert data[52..] == data[52..64];
  }

  datatype SetupResponse = SetupResponse(mode: uint32, keyID: bytes, token: bytes, clientIV: Block) {
    predicate Valid() {
      |keyID| == 80 && |token| == 64
    }
  }

  function EncodeSetup(m: SetupResponse): (b: bytes)
    requires m.Valid()
    ensures |b| == 164
  {
    PutUint32(m.mode) + (m.keyID + (m.token + m.clientIV))
  }

  function DecodeSetup(data: bytes): (r: Result<SetupResponse>)
    ensures r.Ok? ==> r.value.Valid()
  {
    if |data| < 164 then Err(InvalidMessageLength) else
    Ok(SetupResponse(Uint32(data[0..4]), data[4..84], data[84..148], data[148..164]))
  }

  lemma SetupInverse(m: SetupResponse, data: bytes)
    requires m.Valid()
    ensures DecodeSetup(EncodeSetup(m)) == Ok(m)
    ensures var b := EncodeSetup(m);
            && b[0..4] == PutUint32(m.mode) && b[4..84] == m.keyID && b[84..148] == m.token
            && b[148..164] == m.clientIV
    ensures |data| == 164 ==> DecodeSetup(data).Ok? && EncodeSetup(DecodeSetup(data).value) == data
  {
    var b := EncodeSetup(m);
    assert b[0..4] == PutUint32(m.mode) && b[4..84] == m.keyID;
    assert b[84..148] == m.token && b[148..164] == m.clientIV;
    Uint32Inverse(m.mode, b[0..4]);
    if |data| == 164 {
      Uint32Inverse(0, data[0..4]);
    }
  }

  datatype ServerStart = ServerStart(accept: uint8, serverIV: Block, startTime: Timestamp)

  function EncodeServerStart(m: ServerStart): (b: bytes)
    ensures |b| == 48
  {
    Zeros(15) + ([m.accept] + (m.serverIV + (PutTimestamp(m.startTime) + Zeros(8))))
  }

  function DecodeServerStart(data: bytes): Result<ServerStart> {
    if |data| < 48 then Err(InvalidMessageLength) else
    :- Need(AllZero(data[0..15]) && AllZero(data[40..48]), InvalidMBZ);
    Ok(ServerStart(data[15], data[16..32], GetTimestamp(data[32..40])))
  }

  lemma ServerStartInverse(m: ServerStart, data: bytes)
    ensures DecodeServerStart(EncodeServerStart(m)) == Ok(m)
    ensures var b := EncodeServerStart(m);
            && b[0..15] == Zeros(15) && b[15] == m.accept && b[16..32] == m.serverIV
            && b[32..40] == PutTimestamp(m.startTime) && b[40..48] == Zeros(8)
    ensures |data| == 48 && DecodeServerStart(data).Ok? ==> EncodeServerStart(DecodeServerStart(data).value) == data
  {
    hide PutTimestamp, GetTimestamp, Zeros;
    var b := EncodeServerStart(m);
    var start := PutTimestamp(m.startTime) + Zeros(8);
    var iv := m.serverIV + start;
    Peel(b, 0, Zeros(15), [m.accept] + iv);
    Peel(b, 15, [m.accept], iv);
    Peel(b, 16, m.serverIV, start);
    Peel(b, 32, PutTimestamp(m.startTime), Zeros(8));
    assert b[40..48] == b[40..] && b[15] == b[15..16][0];
    TimestampInverse(m.startTime, b[32..40]);
    AllZeroIsZeros(b[0..15]);
    AllZeroIsZeros(b[40..48]);
    if |data| == 48 && DecodeServerStart(data).Ok? {
      ServerStartReproduced(data);
    }
  }

  lemma ServerStartReproduced(data: bytes)
    requires |data| == 48 && DecodeServerStart(data).Ok?
    ensures EncodeServerStart(DecodeServerStart(data).value) == data
  {
    hide PutTimestamp, GetTimestamp, Zeros;
    TimestampInverse(DecodeServerStart(data).value.startTime, data[32..40]);
    AllZeroIsZeros(data[0..15]);
    AllZeroIsZeros(data[40..48]);
    Rejoin(data, 32, 40);
    Rejoin(data, 16, 32);
    Rejoin(data, 15, 16);
    Rejoin(data, 0, 15);
    assert data[40..] == data[40..48] && data[15..16] == [data[15]];
  }

  // ---- Request-TW-Session, plain and individual ----

  datatype Request = Request(
    command: uint8, ipvn: uint8, confSender: uint8, confReceiver: uint8,
    numSlots: uint32, numPackets: uint32, senderPort: uint16, receiverPort: uint16,
    senderAddress: Block, receiverAddress: Block, sid: SID, paddingLength: uint32,
    startTime: Timestamp, timeout: Timestamp, typeP: uint32, hmac: Block)

  /** The Type-P descriptor may only carry a DSCP, in bits 18 to 23. */
  predicate ValidTypeP(typeP: uint32) {
    typeP / 0x100_0000 == 0 && typeP / 0x1_0000 % 4 == 0 && typeP % 0x1_0000 == 0
  }

  function EncodeRequest(m: Request, includeHMAC: bool): (b: bytes)
    ensures |b| == 112
  {
    [m.command, m.ipvn % 16, m.confSender, m.confReceiver]
    + (PutUint32(m.numSlots) + (PutUint32(m.numPackets) + (PutUint16(m.senderPort) + (PutUint16(m.receiverPort)
    + (m.senderAddress + (m.receiverAddress + (m.sid + (PutUint32(m.paddingLength)
    + (PutTimestamp(m.startTime) + (PutTimestamp(m.timeout) + (PutUint32(m.typeP)
    + (Zeros(8) + Tail(m.hmac, includeHMAC)))))))))))))
  }

  function DecodeRequest(data: bytes, includeHMAC: bool): (r: Result<Request>)
    ensures r.Ok? ==> WellFormed(r.value)
  {
    if |data| < 112 then Err(InvalidMessageLength) else
    :- Need(data[1] / 16 == 0, InvalidMBZ);
    var ipvn := data[1] % 16;
    :- Need(ipvn == 4 || ipvn == 6, InvalidIPVN);
    var numSlots, numPackets := Uint32(data[4..8]), Uint32(data[8..12]);
    :- Need(numSlots == 0, InvalidNumSlots);
    :- Need(numPackets == 0, InvalidNumPackets);
    var padding := Uint32(data[64..68]);
    :- Need(padding <= MAX_PACKET_SIZE, InvalidPaddingLength);
    var typeP := Uint32(data[84..88]);
    :- Need(ValidTypeP(typeP), InvalidTypePDescriptor);
    :- Need(AllZero(data[88..96]), InvalidMBZ);
    var hmac :- CheckTail(data[96..112], includeHMAC);
    Ok(Request(data[0], ipvn, data[2], data[3], numSlots, numPackets, Uint16(data[12..14]), Uint16(data[14..16]),
               data[16..32], data[32..48], data[48..64], padding,
               GetTimestamp(data[68..76]), GetTimestamp(data[76..84]), typeP, hmac))
  }

  /** The requests a receiver accepts. */
  predicate WellFormed(m: Request) {
    && m.ipvn in {4, 6} && m.numSlots == 0 && m.numPackets == 0
    && m.paddingLength <= MAX_PACKET_SIZE && ValidTypeP(m.typeP)
  }

  /** Every field stands at its offset. */
  ghost predicate LaidOut(b: bytes, m: Request, includeHMAC: bool) {
    && |b| == 112
    && b[0] == m.command && b[1] == m.ipvn % 16 && b[2] == m.confSender && b[3] == m.confReceiver
    && b[4..8] == PutUint32(m.numSlots) && b[8..12] == PutUint32(m.numPackets)
    && b[12..14] == PutUint16(m.senderPort) && b[14..16] == PutUint16(m.receiverPort)
    && b[16..32] == m.senderAddress && b[32..48] == m.receiverAddress && b[48..64] == m.sid
    && b[64..68] == PutUint32(m.paddingLength)
    && b[68..76] == PutTimestamp(m.startTime) && b[76..84] == PutTimestamp(m.timeout)
    && b[84..88] == PutUint32(m.typeP) && b[88..96] == Zeros(8) && b[96..112] == Tail(m.hmac, includeHMAC)
  }

  lemma EncodeLaysOut(m: Request, includeHMAC: bool)
    ensures LaidOut(EncodeRequest(m, includeHMAC), m, includeHMAC)
  {
    hide PutUint32, PutUint16, PutTimestamp, Zeros, Tail;
    var b := EncodeRequest(m, includeHMAC);
    var zeros := Zeros(8) + Tail(m.hmac, includeHMAC);
    var typeP := PutUint32(m.typeP) + zeros;
    var timeout := PutTimestamp(m.timeout) + typeP;
    var startTime := PutTimestamp(m.startTime) + timeout;
    var padding := PutUint32(m.paddingLength) + startTime;
    var sid := m.sid + padding;
    var receiver := m.receiverAddress + sid;
    var sender := m.senderAddress + receiver;
    var receiverPort := PutUint16(m.receiverPort) + sender;
    var senderPort := PutUint16(m.senderPort) + receiverPort;
    var packets := PutUint32(m.numPackets) + senderPort;
    var slots := PutUint32(m.numSlots) + packets;
    Peel(b, 0, [m.command, m.ipvn % 16, m.confSender, m.confReceiver], slots);
    Peel(b, 4, PutUint32(m.numSlots), packets);
    Peel(b, 8, PutUint32(m.numPackets), senderPort);
    Peel(b, 12, PutUint16(m.senderPort), receiverPort);
    Peel(b, 14, PutUint16(m.receiverPort), sender);
    Peel(b, 16, m.senderAddress, receiver);
    Peel(b, 32, m.receiverAddress, sid);
    Peel(b, 48, m.sid, padding);
    Peel(b, 64, PutUint32(m.paddingLength), startTime);
    Peel(b, 68, PutTimestamp(m.startTime), timeout);
    Peel(b, 76, PutTimestamp(m.timeout), typeP);
    Peel(b, 84, PutUint32(m.typeP), zeros);
    Peel(b, 88, Zeros(8), Tail(m.hmac, includeHMAC));
    assert b[96..112] == b[96..];
  }

  lemma LayoutUnique(b: bytes, d: bytes, m: Request, includeHMAC: bool)
    requires LaidOut(b, m, includeHMAC) && LaidOut(d, m, includeHMAC)
    ensures b == d
  {
    assert b[..4] == d[..4];
    var cuts := [4, 8, 12, 14, 16, 32, 48, 64, 68, 76, 84, 88, 96, 112];
    var i := 0;
    while i + 1 < |cuts|
      invariant 0 <= i < |cuts| && b[..cuts[i]] == d[..cuts[i]]
    {
      JoinSlices(b, 0, cuts[i], cuts[i + 1]);
      JoinSlices(d, 0, cuts[i], cuts[i + 1]);
      i := i + 1;
    }
  }

  lemma RequestForward(m: Request, includeHMAC: bool)
    requires WellFormed(m)
    ensures DecodeRequest(EncodeRequest(m, includeHMAC), includeHMAC) == Ok(m.(hmac := Tail(m.hmac, includeHMAC)))
  {
    hide PutUint32, PutUint16, PutTimestamp, Uint32, Uint16, GetTimestamp, EncodeRequest;
    hide Zeros, Tail, CheckTail, AllZero, ValidTypeP;
    var b := EncodeRequest(m, includeHMAC);
    EncodeLaysOut(m, includeHMAC);
    TailChecks(m.hmac, includeHMAC);
    AllZeroIsZeros(b[88..96]);
    Uint32Inverse(m.numSlots, b[4..8]);
    Uint32Inverse(m.numPackets, b[8..12]);
    Uint16Inverse(m.senderPort, b[12..14]);
    Uint16Inverse(m.receiverPort, b[14..16]);
    Uint32Inverse(m.paddingLength, b[64..68]);
    TimestampInverse(m.startTime, b[68..76]);
    TimestampInverse(m.timeout, b[76..84]);
    Uint32Inverse(m.typeP, b[84..88]);
  }

  /** Exactly the well-formed requests survive the wire, and every accepted message of
      exact length is reproduced byte for byte. */
  lemma RequestInverse(m: Request, data: bytes, includeHMAC: bool)
    ensures WellFormed(m) <==> DecodeRequest(EncodeRequest(m, includeHMAC), includeHMAC)
                                 == Ok(m.(hmac := Tail(m.hmac, includeHMAC)))
    ensures |data| == 112 && DecodeRequest(data, includeHMAC).Ok? ==>
              EncodeRequest(DecodeRequest(data, includeHMAC).value, includeHMAC) == data
  {
    if WellFormed(m) {
      RequestForward(m, includeHMAC);
    }
    if |data| == 112 && DecodeRequest(data, includeHMAC).Ok? {
      var r := DecodeRequest(data, includeHMAC).value;
      DecodeReadsLayout(data, includeHMAC, r);
      EncodeLaysOut(r, includeHMAC);
      LayoutUnique(EncodeRequest(r, includeHMAC), data, r, includeHMAC);
    }
  }

  lemma DecodeReadsLayout(data: bytes, includeHMAC: bool, r: Request)
    requires |data| == 112 && DecodeRequest(data, includeHMAC) == Ok(r)
    ensures LaidOut(data, r, includeHMAC)
  {
    hide PutUint32, PutUint16, PutTimestamp, Uint32, Uint16, GetTimestamp, Zeros, AllZero, ValidTypeP;
    Uint32Inverse(0, data[4..8]);
    Uint32Inverse(0, data[8..12]);
    Uint16Inverse(0, data[12..14]);
    Uint16Inverse(0, data[14..16]);
    Uint32Inverse(0, data[64..68]);
    TimestampInverse(r.startTime, data[68..76]);
    TimestampInverse(r.timeout, data[76..84]);
    Uint32Inverse(0, data[84..88]);
    AllZeroIsZeros(data[88..96]);
    AllZeroIsZeros(data[96..112]);
  }

  /** Which 112 bytes a receiver takes for a request: IP version 4 or 6 with zeros before
      it, no slots and packets, at most 2048 bytes of padding, a Type-P descriptor that
      holds a DSCP and nothing else, eight zero bytes, and, without a MAC, zeros for it. */
  lemma RequestsRead(data: bytes, includeHMAC: bool)
    requires |data| == 112
    ensures DecodeRequest(data, includeHMAC).Ok? <==>
              && data[1] in {4, 6} && Uint32(data[4..8]) == 0 && Uint32(data[8..12]) == 0
              && Uint32(data[64..68]) <= 2048
              && data[84] == 0 && data[85] % 4 == 0 && data[86] == 0 && data[87] == 0
              && (forall k :: 88 <= k < 96 || (!includeHMAC && 96 <= k < 112) ==> data[k] == 0)
  {
    TypePBytes(data[84..88]);
    hide Uint32, GetTimestamp, ValidTypeP, Uint16;
    assert forall k :: 88 <= k < 96 ==> data[k] == data[88..96][k - 88];
    assert forall k :: 96 <= k < 112 ==> data[k] == data[96..112][k - 96];
    assert data[84] == data[84..88][0] && data[85] == data[84..88][1];
    assert data[86] == data[84..88][2] && data[87] == data[84..88][3];
  }

  lemma TypePBytes(b: bytes)
    requires |b| == 4
    ensures ValidTypeP(Uint32(b)) <==> b[0] == 0 && b[1] % 4 == 0 && b[2] == 0 && b[3] == 0
  {
    Uint32Unique(Uint32(b), b[0], b[1], b[2], b[3]);
    assert Uint32(b) / 0x1_0000 == b[0] as int * 0x100 + b[1] as int;
    assert Uint32(b) % 0x1_0000 == b[2] as int * 0x100 + b[3] as int;
  }

  /** RequestTWSessionIndividual: the same message under its own command number. */
  function EncodeIndividual(m: Request, includeHMAC: bool): (b: bytes)
    ensures |b| == 112
  {
    EncodeRequest(m, includeHMAC)[0 := CMD_REQUEST_TW_SESSION_INDIVIDUAL]
  }

  function DecodeIndividual(data: bytes, includeHMAC: bool): Result<Request> {
    var r :- DecodeRequest(data, includeHMAC);
    :- Need(r.command == CMD_REQUEST_TW_SESSION_INDIVIDUAL, UnknownCommand);
    Ok(r)
  }

  lemma IndividualIsRequest(m: Request, includeHMAC: bool)
    ensures EncodeIndividual(m, includeHMAC)
              == EncodeRequest(m.(command := CMD_REQUEST_TW_SESSION_INDIVIDUAL), includeHMAC)
  {
  }

  /** Exactly the well-formed requests survive the wire, under their own command number,
      and every accepted message of exact length is reproduced byte for byte. */
  lemma IndividualInverse(m: Request, data: bytes, includeHMAC: bool)
    ensures WellFormed(m) <==>
              DecodeIndividual(EncodeIndividual(m, includeHMAC), includeHMAC)
              == Ok(m.(command := CMD_REQUEST_TW_SESSION_INDIVIDUAL, hmac := Tail(m.hmac, includeHMAC)))
    ensures |data| == 112 && DecodeIndividual(data, includeHMAC).Ok? ==>
              EncodeIndividual(DecodeIndividual(data, includeHMAC).value, includeHMAC) == data
  {
    var m6 := m.(command := CMD_REQUEST_TW_SESSION_INDIVIDUAL);
    IndividualIsRequest(m, includeHMAC);
    RequestInverse(m6, data, includeHMAC);
    hide EncodeRequest, DecodeRequest, EncodeIndividual;
    if DecodeIndividual(data, includeHMAC).Ok? {
      var r := DecodeIndividual(data, includeHMAC).value;
      IndividualIsRequest(r, includeHMAC);
      assert r.(command := CMD_REQUEST_TW_SESSION_INDIVIDUAL) == r;
    }
  }

  // ---- Accept-Session, Start-Sessions, Start-Ack, Stop-Sessions ----

  datatype AcceptSession = AcceptSession(accept: uint8, port: uint16, sid: SID, hmac: Block)

  function EncodeAccept(m: AcceptSession, includeHMAC: bool): (b: bytes)
    ensures |b| == 48
  {
    [m.accept, 0] + (PutUint16(m.port) + (m.sid + (Zeros(12) + Tail(m.hmac, includeHMAC))))
  }

  function DecodeAccept(data: bytes, includeHMAC: bool): Result<AcceptSession> {
    if |data| < 48 then Err(InvalidMessageLength) else
    :- Need(data[1] == 0 && AllZero(data[20..32]), InvalidMBZ);
    var hmac :- CheckTail(data[32..48], includeHMAC);
    Ok(AcceptSession(data[0], Uint16(data[2..4]), data[4..20], hmac))
  }

  lemma AcceptInverse(m: AcceptSession, data: bytes, includeHMAC: bool)
    ensures DecodeAccept(EncodeAccept(m, includeHMAC), includeHMAC) == Ok(m.(hmac := Tail(m.hmac, includeHMAC)))
    ensures var b := EncodeAccept(m, includeHMAC);
            && b[0] == m.accept && b[1] == 0 && b[2..4] == PutUint16(m.port) && b[4..20] == m.sid
            && b[20..32] == Zeros(12) && b[32..48] == Tail(m.hmac, includeHMAC)
    ensures |data| == 48 && DecodeAccept(data, includeHMAC).Ok? ==>
              EncodeAccept(DecodeAccept(data, includeHMAC).value, includeHMAC) == data
  {
    AcceptForward(m, includeHMAC);
    if |data| == 48 && DecodeAccept(data, includeHMAC).Ok? {
      AcceptReproduced(data, includeHMAC);
    }
  }

  lemma AcceptForward(m: AcceptSession, includeHMAC: bool)
    ensures DecodeAccept(EncodeAccept(m, includeHMAC), includeHMAC) == Ok(m.(hmac := Tail(m.hmac, includeHMAC)))
    ensures var b := EncodeAccept(m, includeHMAC);
            && b[0] == m.accept && b[1] == 0 && b[2..4] == PutUint16(m.port) && b[4..20] == m.sid
            && b[20..32] == Zeros(12) && b[32..48] == Tail(m.hmac, includeHMAC)
  {
    hide PutUint16, Uint16, Zeros, Tail, CheckTail, AllZero;
    TailChecks(m.hmac, includeHMAC);
    var b := EncodeAccept(m, includeHMAC);
    var zeros := Zeros(12) + Tail(m.hmac, includeHMAC);
    var sid := m.sid + zeros;
    Peel(b, 0, [m.accept, 0], PutUint16(m.port) + sid);
    Peel(b, 2, PutUint16(m.port), sid);
    Peel(b, 4, m.sid, zeros);
    Peel(b, 20, Zeros(12), Tail(m.hmac, includeHMAC));
    assert b[32..48] == b[32..];
    Uint16Inverse(m.port, b[2..4]);
    AllZeroIsZeros(b[20..32]);
  }

  lemma AcceptReproduced(data: bytes, includeHMAC: bool)
    requires |data| == 48 && DecodeAccept(data, includeHMAC).Ok?
    ensures EncodeAccept(DecodeAccept(data, includeHMAC).value, includeHMAC) == data
  {
    var m := DecodeAccept(data, includeHMAC).value;
    AcceptFields(data, includeHMAC, m);
    hide PutUint16, Uint16, Zeros, DecodeAccept, Tail;
    assert data[32..] == data[32..48];
    Rejoin(data, 20, 32);
    Rejoin(data, 4, 20);
    Rejoin(data, 2, 4);
    Rejoin(data, 0, 2);
    assert data[0..] == data;
  }

  lemma AcceptFields(data: bytes, includeHMAC: bool, m: AcceptSession)
    requires |data| == 48 && DecodeAccept(data, includeHMAC) == Ok(m)
    ensures data[0..2] == [m.accept, 0] && data[2..4] == PutUint16(m.port) && data[4..20] == m.sid
    ensures data[20..32] == Zeros(12) && data[32..48] == Tail(m.hmac, includeHMAC)
  {
    hide PutUint16, Uint16, Zeros;
    Uint16Inverse(0, data[2..4]);
    AllZeroIsZeros(data[20..32]);
    AllZeroIsZeros(data[32..48]);
  }

  /** Which 48 bytes are an acceptance, and what it says. */
  lemma AcceptsRead(data: bytes, includeHMAC: bool)
    requires |data| == 48
    ensures var r := DecodeAccept(data, includeHMAC);
            && (r.Ok? <==> data[1] == 0 && (forall k :: 20 <= k < 32 ==> data[k] == 0)
                           && (includeHMAC || data[32..] == Zeros(16)))
            && (r.Ok? ==>
                  r.value.accept == data[0] && r.value.port == Uint16(data[2..4]) && r.value.sid == data[4..20])
  {
    hide Uint16;
    AllZeroIsZeros(data[32..48]);
    assert data[32..] == data[32..48];
    assert forall k :: 20 <= k < 32 ==> data[k] == data[20..32][k - 20];
  }

  /** Start-Sessions and Start-Ack share one layout: a byte, zeros, the MAC. */
  datatype Short = Short(code: uint8, hmac: Block)

  function EncodeShort(m: Short, includeHMAC: bool): (b: bytes)
    ensures |b| == 32
  {
    [m.code] + (Zeros(15) + Tail(m.hmac, includeHMAC))
  }

  function DecodeShort(data: bytes, includeHMAC: bool): Result<Short> {
    if |data| < 32 then Err(InvalidMessageLength) else
    :- Need(AllZero(data[1..16]), InvalidMBZ);
    var hmac :- CheckTail(data[16..32], includeHMAC);
    Ok(Short(data[0], hmac))
  }

  lemma ShortInverse(m: Short, data: bytes, includeHMAC: bool)
    ensures DecodeShort(EncodeShort(m, includeHMAC), includeHMAC) == Ok(m.(hmac := Tail(m.hmac, includeHMAC)))
    ensures var b := EncodeShort(m, includeHMAC);
            b[0] == m.code && b[1..16] == Zeros(15) && b[16..32] == Tail(m.hmac, includeHMAC)
    ensures |data| == 32 && DecodeShort(data, includeHMAC).Ok? ==>
              EncodeShort(DecodeShort(data, includeHMAC).value, includeHMAC) == data
  {
    var b := EncodeShort(m, includeHMAC);
    assert b[1..16] == Zeros(15) && b[16..32] == Tail(m.hmac, includeHMAC);
    if |data| == 32 && DecodeShort(data, includeHMAC).Ok? {
      AllZeroIsZeros(data[1..16]);
      AllZeroIsZeros(data[16..32]);
    }
  }

  lemma ShortsRead(data: bytes, includeHMAC: bool)
    requires |data| == 32
    ensures var r := DecodeShort(data, includeHMAC);
            && (r.Ok? <==> (forall k :: 1 <= k < 16 ==> data[k] == 0) && (includeHMAC || data[16..] == Zeros(16)))
            && (r.Ok? ==> r.value.code == data[0])
  {
    AllZeroIsZeros(data[16..32]);
    assert data[16..] == data[16..32];
    assert forall k :: 1 <= k < 16 ==> data[k] == data[1..16][k - 1];
  }

  datatype StopSessions = StopSessions(command: uint8, accept: uint8, numSessions: uint32, hmac: Block)

  /** The first 16 bytes of Stop-Sessions and Stop-N-Sessions. */
  function StopHeader(command: uint8, accept: uint8, numSessions: uint32): (b: bytes)
    ensures |b| == 16
  {
    [command, accept, 0, 0] + (PutUint32(numSessions) + Zeros(8))
  }

  /** Command, accept code and number of sessions stand at their offsets, with zeros
      between. */
  ghost predicate StopLaidOut(b: bytes, command: uint8, accept: uint8, numSessions: uint32) {
    && |b| >= 16 && b[0] == command && b[1] == accept
    && b[2..4] == Zeros(2) && b[4..8] == PutUint32(numSessions) && b[8..16] == Zeros(8)
  }

  lemma StopHeaderInverse(command: uint8, accept: uint8, numSessions: uint32, data: bytes)
    requires |data| >= 16
    ensures var b := StopHeader(command, accept, numSessions);
            && StopLaidOut(b, command, accept, numSessions) && AllZero(b[2..4]) && AllZero(b[8..16])
            && Uint32(b[4..8]) == numSessions
    ensures AllZero(data[2..4]) && AllZero(data[8..16]) ==>
              StopHeader(data[0], data[1], Uint32(data[4..8])) == data[..16]
  {
    var b := StopHeader(command, accept, numSessions);
    assert b[2..4] == Zeros(2) && b[4..8] == PutUint32(numSessions) && b[8..16] == Zeros(8);
    Uint32Inverse(numSessions, data[4..8]);
    if AllZero(data[2..4]) && AllZero(data[8..16]) {
      AllZeroIsZeros(data[8..16]);
      assert data[2..4][0] == 0 && data[2..4][1] == 0;
    }
  }

  function EncodeStop(m: StopSessions, includeHMAC: bool): (b: bytes)
    ensures |b| == 32
  {
    StopHeader(m.command, m.accept, m.numSessions) + Tail(m.hmac, includeHMAC)
  }

  function DecodeStop(data: bytes, includeHMAC: bool): Result<StopSessions> {
    if |data| < 32 then Err(InvalidMessageLength) else
    :- Need(AllZero(data[2..4]) && AllZero(data[8..16]), InvalidMBZ);
    var hmac :- CheckTail(data[16..32], includeHMAC);
    Ok(StopSessions(data[0], data[1], Uint32(data[4..8]), hmac))
  }

  lemma StopInverse(m: StopSessions, data: bytes, includeHMAC: bool)
    ensures DecodeStop(EncodeStop(m, includeHMAC), includeHMAC) == Ok(m.(hmac := Tail(m.hmac, includeHMAC)))
    ensures var b := EncodeStop(m, includeHMAC);
            && StopLaidOut(b, m.command, m.accept, m.numSessions) && b[16..32] == Tail(m.hmac, includeHMAC)
    ensures |data| == 32 && DecodeStop(data, includeHMAC).Ok? ==>
              EncodeStop(DecodeStop(data, includeHMAC).value, includeHMAC) == data
  {
    StopForward(m, includeHMAC);
    if |data| == 32 && DecodeStop(data, includeHMAC).Ok? {
      hide StopHeader, Uint32;
      StopHeaderInverse(0, 0, 0, data);
      AllZeroIsZeros(data[16..32]);
      assert data == data[..16] + data[16..32];
    }
  }

  lemma StopForward(m: StopSessions, includeHMAC: bool)
    ensures DecodeStop(EncodeStop(m, includeHMAC), includeHMAC) == Ok(m.(hmac := Tail(m.hmac, includeHMAC)))
    ensures var b := EncodeStop(m, includeHMAC);
            && StopLaidOut(b, m.command, m.accept, m.numSessions) && b[16..32] == Tail(m.hmac, includeHMAC)
  {
    hide StopHeader, Uint32, Tail, CheckTail, AllZero;
    var b := EncodeStop(m, includeHMAC);
    var h := StopHeader(m.command, m.accept, m.numSessions);
    TailChecks(m.hmac, includeHMAC);
    StopHeaderInverse(m.command, m.accept, m.numSessions, b);
    assert b[..16] == h && b[16..32] == b[16..] == Tail(m.hmac, includeHMAC);
    assert b[2..4] == b[..16][2..4] && b[4..8] == b[..16][4..8] && b[8..16] == b[..16][8..16];
  }

  // ---- Stop-N-Sessions ----

  datatype StopN = StopN(command: uint8, accept: uint8, numSessions: uint32, sids: seq<SID>, hmac: Block)

  function Join(sids: seq<SID>): (b: bytes)
    ensures |b| == 16 * |sids|
  {
    if sids == [] then [] else Join(sids[..|sids| - 1]) + sids[|sids| - 1]
  }

  function Split(b: bytes, n: nat): (sids: seq<SID>)
    requires |b| == 16 * n
    ensures |sids| == n
  {
    if n == 0 then [] else Split(b[..16 * (n - 1)], n - 1) + [b[16 * (n - 1)..]]
  }

  lemma {:induction false} JoinSplit(sids: seq<SID>, b: bytes, n: nat)
    requires |b| == 16 * n && |sids| == n
    ensures Split(Join(sids), n) == sids
    ensures Join(Split(b, n)) == b
  {
    if n != 0 {
      JoinSplit(sids[..n - 1], b[..16 * (n - 1)], n - 1);
      assert Join(sids)[..16 * (n - 1)] == Join(sids[..n - 1]) && Join(sids)[16 * (n - 1)..] == sids[n - 1];
      assert sids[..n - 1] + [sids[n - 1]] == sids;
      var t := Split(b, n);
      assert t[..n - 1] == Split(b[..16 * (n - 1)], n - 1) && t[n - 1] == b[16 * (n - 1)..];
    }
  }

  /** How many SIDs the marshalling loop writes. */
  function WrittenSIDs(m: StopN): (n: nat)
    ensures n <= |m.sids| && n <= m.numSessions
  {
    var len := |m.sids| % TWO32;
    if m.numSessions <= len then m.numSessions else len
  }

  /** The buffer is sized by NumSessions and the MAC follows the SIDs written, so with
      fewer SIDs than announced it does not stand at the end. */
  function EncodeStopN(m: StopN, includeHMAC: bool): (b: bytes)
    ensures |b| == 32 + 16 * m.numSessions as int
  {
    var n := WrittenSIDs(m);
    StopHeader(m.command, m.accept, m.numSessions) + Join(m.sids[..n])
    + Tail(m.hmac, includeHMAC) + Zeros(16 * (m.numSessions as int - n))
  }

  function DecodeStopN(data: bytes, includeHMAC: bool): (r: Result<StopN>)
    ensures r.Ok? ==> |r.value.sids| == r.value.numSessions
  {
    if |data| < 16 then Err(InvalidMessageLength) else
    :- Need(AllZero(data[2..4]), InvalidMBZ);
    var num: int := Uint32(data[4..8]);
    :- Need(AllZero(data[8..16]), InvalidMBZ);
    :- Need(|data| >= 32 + 16 * num, InvalidMessageLength);
    var hmac :- CheckTail(data[16 + 16 * num..32 + 16 * num], includeHMAC);
    Ok(StopN(data[0], data[1], num, Split(data[16..16 + 16 * num], num), hmac))
  }

  lemma StopNBytes(m: StopN, includeHMAC: bool, n: nat)
    requires |m.sids| == m.numSessions == n
    ensures EncodeStopN(m, includeHMAC)
            == StopHeader(m.command, m.accept, m.numSessions) + Join(m.sids) + Tail(m.hmac, includeHMAC)
  {
    hide StopHeader, Join, Tail;
    assert m.sids[..n] == m.sids && Zeros(0) == [];
  }

  lemma StopNSlices(b: bytes, h: bytes, s: bytes, t: bytes, n: nat)
    requires b == h + s + t && |h| == |t| == 16 && |s| == 16 * n
    ensures b[..16] == h && b[16..16 + 16 * n] == s && b[16 + 16 * n..32 + 16 * n] == t
    ensures b[0] == h[0] && b[1] == h[1] && b[2..4] == h[2..4] && b[4..8] == h[4..8] && b[8..16] == h[8..16]
  {
    Peel(b, 0, h, s + t);
    Peel(b, 16, s, t);
    assert b[16 + 16 * n..32 + 16 * n] == b[16 + 16 * n..];
    assert b[2..4] == b[..16][2..4] && b[4..8] == b[..16][4..8] && b[8..16] == b[..16][8..16];
  }

  lemma {:induction false} JoinAt(sids: seq<SID>, i: nat)
    requires i < |sids|
    ensures Join(sids)[16 * i..16 * i + 16] == sids[i]
  {
    var n := |sids| - 1;
    if i < n {
      JoinAt(sids[..n], i);
      assert Join(sids)[16 * i..16 * i + 16] == Join(sids[..n])[16 * i..16 * i + 16];
    }
  }

  /** SIDs from byte 16 on, then the MAC. */
  lemma StopNLayout(m: StopN, includeHMAC: bool, i: nat)
    requires |m.sids| == m.numSessions
    ensures var b, end := EncodeStopN(m, includeHMAC), 16 + 16 * |m.sids|;
            && |b| == end + 16 && StopLaidOut(b, m.command, m.accept, m.numSessions)
            && (i < |m.sids| ==> b[16 + 16 * i..32 + 16 * i] == m.sids[i])
            && b[end..] == Tail(m.hmac, includeHMAC)
  {
    hide EncodeStopN, StopHeader, Join, Tail, PutUint32;
    var n := |m.sids|;
    var b := EncodeStopN(m, includeHMAC);
    var h := StopHeader(m.command, m.accept, m.numSessions);
    StopNBytes(m, includeHMAC, n);
    StopNSlices(b, h, Join(m.sids), Tail(m.hmac, includeHMAC), n);
    StopHeaderInverse(m.command, m.accept, m.numSessions, b);
    assert b[16 + 16 * n..] == b[16 + 16 * n..32 + 16 * n];
    if i < n {
      JoinAt(m.sids, i);
      SubSlice(b, 16, 16 + 16 * n, 16 * i, 16 * i + 16);
    }
  }

  lemma StopNForward(m: StopN, includeHMAC: bool)
    requires |m.sids| == m.numSessions
    ensures DecodeStopN(EncodeStopN(m, includeHMAC), includeHMAC) == Ok(m.(hmac := Tail(m.hmac, includeHMAC)))
  {
    hide EncodeStopN, StopHeader, Join, Split, Uint32, Tail, AllZero, CheckTail;
    var n := |m.sids|;
    var b, s := EncodeStopN(m, includeHMAC), Join(m.sids);
    TailChecks(m.hmac, includeHMAC);
    StopNBytes(m, includeHMAC, n);
    StopNSlices(b, StopHeader(m.command, m.accept, m.numSessions), s, Tail(m.hmac, includeHMAC), n);
    StopHeaderInverse(m.command, m.accept, m.numSessions, b);
    JoinSplit(m.sids, s, n);
  }

  lemma StopNRead(data: bytes, includeHMAC: bool, r: StopN, n: nat)
    requires DecodeStopN(data, includeHMAC) == Ok(r) && |r.sids| == n
    ensures |data| >= 32 + 16 * n && data[..16] == StopHeader(r.command, r.accept, r.numSessions)
    ensures data[16..16 + 16 * n] == Join(r.sids) && data[16 + 16 * n..32 + 16 * n] == Tail(r.hmac, includeHMAC)
  {
    hide StopHeader, Join, Split, Uint32;
    StopHeaderInverse(0, 0, 0, data);
    JoinSplit(r.sids, data[16..16 + 16 * n], n);
    AllZeroIsZeros(data[16 + 16 * n..32 + 16 * n]);
  }

  lemma StopNBack(data: bytes, includeHMAC: bool, r: StopN)
    requires DecodeStopN(data, includeHMAC) == Ok(r) && |data| == 32 + 16 * r.numSessions as int
    ensures EncodeStopN(r, includeHMAC) == data
  {
    var n: nat := |r.sids|;
    StopNRead(data, includeHMAC, r, n);
    StopNBytes(r, includeHMAC, n);
    JoinSlices(data, 0, 16, 16 + 16 * n);
    JoinSlices(data, 0, 16 + 16 * n, 32 + 16 * n);
  }

  /** For every list of SIDs the message survives the wire exactly when the announced
      number is the number carried; accepted messages are reproduced byte for byte. */
  lemma StopNInverse(m: StopN, data: bytes, includeHMAC: bool)
    ensures |m.sids| == m.numSessions <==>
              DecodeStopN(EncodeStopN(m, includeHMAC), includeHMAC) == Ok(m.(hmac := Tail(m.hmac, includeHMAC)))
    ensures var r := DecodeStopN(data, includeHMAC);
            r.Ok? && |data| == 32 + 16 * r.value.numSessions as int ==> EncodeStopN(r.value, includeHMAC) == data
  {
    if |m.sids| == m.numSessions {
      StopNForward(m, includeHMAC);
    }
    var r := DecodeStopN(data, includeHMAC);
    if r.Ok? && |data| == 32 + 16 * r.value.numSessions as int {
      StopNBack(data, includeHMAC, r.value);
    }
  }

  /** messages.StopNSessions, with the loops that write and read its SIDs. */
  class StopNSessions {
    var command: uint8
    var accept: uint8
    var numSessions: uint32
    var sessionIDs: seq<SID>
    var hmac: Block

    function Value(): StopN
      reads this
    {
      StopN(command, accept, numSessions, sessionIDs, hmac)
    }

    method Marshal(includeHMAC: bool) returns (buf: array<uint8>)
      ensures fresh(buf) && buf[..] == EncodeStopN(Value(), includeHMAC)
    {
      var size := 16 + numSessions as int * 16 + 16;
      buf := Make(size);
      ghost var written := MarshalHeader(buf);
      var offset := MarshalSIDs(buf, written);
      ghost var n := WrittenSIDs(Value());
      written := written + Join(sessionIDs[..n]);
      if includeHMAC {
        CopyInto(buf, size, offset, hmac, written);
      } else {
        Skip(buf, size, written, 16);
      }
      assert buf[..] == buf[..size];
    }

    method MarshalSIDs(buf: array<uint8>, ghost header: bytes) returns (offset: nat)
      requires buf.Length == 32 + 16 * numSessions as int && |header| == 16 && Holds(buf, buf.Length, header)
      modifies buf
      ensures offset == 16 + 16 * WrittenSIDs(Value())
      ensures Holds(buf, buf.Length, header + Join(sessionIDs[..WrittenSIDs(Value())]))
    {
      ghost var written := header;
      var i, len := 0, |sessionIDs| % TWO32;
      offset := 16;
      while i < numSessions && i < len
        invariant 0 <= i <= numSessions && i <= len <= |sessionIDs| && offset == 16 + 16 * i
        invariant written == header + Join(sessionIDs[..i]) && Holds(buf, buf.Length, written)
      {
        CopyInto(buf, buf.Length, offset, sessionIDs[i], written);
        assert sessionIDs[..i + 1][..i] == sessionIDs[..i];
        written := written + sessionIDs[i];
        offset, i := offset + 16, i + 1;
      }
      assert i == WrittenSIDs(Value());
    }

    method MarshalHeader(buf: array<uint8>) returns (ghost written: bytes)
      requires buf.Length >= 32 && Holds(buf, buf.Length, [])
      modifies buf
      ensures written == StopHeader(command, accept, numSessions) && Holds(buf, buf.Length, written)
    {
      var n := buf.Length;
      CopyInto(buf, n, 0, [command, accept], []);
      Skip(buf, n, [] + [command, accept], 2);
      CopyInto(buf, n, 4, PutUint32(numSessions), [] + [command, accept] + Zeros(2));
      Skip(buf, n, [] + [command, accept] + Zeros(2) + PutUint32(numSessions), 8);
      written := [] + [command, accept] + Zeros(2) + PutUint32(numSessions) + Zeros(8);
      assert written == StopHeader(command, accept, numSessions);
    }

    method Unmarshal(data: bytes, includeHMAC: bool) returns (err: Option<Error>)
      modifies this
      ensures match DecodeStopN(data, includeHMAC)
              case Ok(m) => err == None && Value().(hmac := m.hmac) == m && (includeHMAC ==> hmac == m.hmac)
              case Err(e) => err == Some(e)
    {
      if |data| < 16 {
        return Some(InvalidMessageLength);
      }
      command := data[0];
      accept := data[1];
      var ok := ValidateMBZ(data, 2, 4);
      if !ok {
        return Some(InvalidMBZ);
      }
      numSessions := Uint32(data[4..8]);
      ok := ValidateMBZ(data, 8, 16);
      if !ok {
        return Some(InvalidMBZ);
      }
      if |data| < 16 + numSessions as int * 16 + 16 {
        return Some(InvalidMessageLength);
      }
      sessionIDs := [];
      var offset, i := 16, 0;
      while i < numSessions
        invariant 0 <= i <= numSessions && offset == 16 + 16 * i
        invariant command == data[0] && accept == data[1] && numSessions == Uint32(data[4..8])
        invariant sessionIDs == Split(data[16..offset], i)
      {
        sessionIDs := sessionIDs + [data[offset..offset + 16]];
        assert data[16..offset + 16][..16 * i] == data[16..offset];
        offset, i := offset + 16, i + 1;
      }
      if includeHMAC {
        hmac := data[offset..offset + 16];
      } else {
        ok := ValidateMBZ(data, offset, offset + 16);
        if !ok {
          return Some(InvalidMBZ);
        }
      }
      return None;
    }
  }
}
