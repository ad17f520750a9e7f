/** The message structs of messages/control.go: Marshal writes a fresh buffer field by
    field, Unmarshal fills the receiver's fields and stops at the first bad one. */
module ControlObjects {
  import opened Buffers
  import opened Bytes
  import opened CbcStream
  import opened Timestamps
  import opened TestPackets
  import opened ControlMessages

  /** The MAC field of a command or reply of known length. */
  method PutTail(buf: array<uint8>, offset: nat, hmac: Block, includeHMAC: bool, ghost written: bytes)
    requires Holds(buf, buf.Length, written) && |written| == offset && buf.Length == offset + 16
    modifies buf
    ensures buf[..] == written + Tail(hmac, includeHMAC)
  {
    if includeHMAC {
      CopyInto(buf, buf.Length, offset, hmac, written);
    }
    assert buf[..] == buf[..buf.Length];
  }

  /** The MAC field of a received message: taken when there is a MAC, else zero. */
  method ReadTail(data: bytes, at: nat, includeHMAC: bool) returns (r: Result<Block>)
    requires at + 16 <= |data|
    ensures r == CheckTail(data[at..at + 16], includeHMAC)
  {
    if includeHMAC {
      return Ok(data[at..at + 16]);
    }
    var ok := ValidateMBZ(data, at, at + 16);
    return if ok then Ok(Zeros(16)) else Err(InvalidMBZ);
  }

  lemma Reassociate(a: bytes, b: bytes, c: bytes, d: bytes, e: bytes)
    ensures a + b + c + d + e == a + (b + (c + (d + e)))
  {
  }

  lemma GreetingInOrder(m: ServerGreeting)
    ensures [] + Zeros(12) + PutUint32(m.modes) + m.challenge + m.salt + PutUint32(m.count) + Zeros(12)
              == EncodeGreeting(m)
  {
    hide PutUint32, Zeros;
    var w := [] + Zeros(12);
    Reassociate(PutUint32(m.modes), m.challenge, m.salt, PutUint32(m.count), Zeros(12));
    Reassociate(w, PutUint32(m.modes), m.challenge, m.salt, PutUint32(m.count) + Zeros(12));
  }

  class ServerGreetingMessage {
    var modes: uint32
    var challenge: Block
    var salt: Block
    var count: uint32

    function Value(): ServerGreeting
      reads this
    {
      ServerGreeting(modes, challenge, salt, count)
    }

    method Marshal() returns (buf: array<uint8>)
      ensures fresh(buf) && buf[..] == EncodeGreeting(Value())
    {
      hide PutUint32, Zeros, EncodeGreeting;
      buf := Make(64);
      ghost var w := [] + Zeros(12);
      Skip(buf, 64, [], 12);
      CopyInto(buf, 64, 12, PutUint32(modes), w);
      CopyInto(buf, 64, 16, challenge, w + PutUint32(modes));
      CopyInto(buf, 64, 32, salt, w + PutUint32(modes) + challenge);
      CopyInto(buf, 64, 48, PutUint32(count), w + PutUint32(modes) + challenge + salt);
      Skip(buf, 64, w + PutUint32(modes) + challenge + salt + PutUint32(count), 12);
      GreetingInOrder(Value());
      assert buf[..] == buf[..64];
    }

    method Unmarshal(data: bytes) returns (err: Option<Error>)
      modifies this
      ensures match DecodeGreeting(data)
              case Ok(m) => err == None && Value() == m
              case Err(e) => err == Some(e)
    {
      if |data| < 64 {
        return Some(InvalidMessageLength);
      }
      var ok := ValidateMBZ(data, 0, 12);
      if !ok {
        return Some(InvalidMBZ);
      }
      ok := ValidateMBZ(data, 52, 64);
      if !ok {
        return Some(InvalidMBZ);
      }
      modes := Uint32(data[12..16]);
      challenge := data[16..32];
      salt := data[32..48];
      count := Uint32(data[48..52]);
      return None;
    }
  }

  class SetupResponseMessage {
    var mode: uint32
    var keyID: bytes
    var token: bytes
    var clientIV: Block

    predicate Valid()
      reads this
    {
      |keyID| == 80 && |token| == 64
    }

    function Value(): SetupResponse
      reads this
    {
      SetupResponse(mode, keyID, token, clientIV)
    }

    method Marshal() returns (buf: array<uint8>)
      requires Valid()
      ensures fresh(buf) && buf[..] == EncodeSetup(Value())
    {
      buf := Make(164);
      CopyInto(buf, 164, 0, PutUint32(mode), []);
      CopyInto(buf, 164, 4, keyID, [] + PutUint32(mode));
      CopyInto(buf, 164, 84, token, [] + PutUint32(mode) + keyID);
      CopyInto(buf, 164, 148, clientIV, [] + PutUint32(mode) + keyID + token);
      Reassociate([], PutUint32(mode), keyID, token, clientIV);
      assert buf[..] == buf[..164];
    }

    method Unmarshal(data: bytes) returns (err: Option<Error>)
      modifies this
      ensures match DecodeSetup(data)
              case Ok(m) => err == None && Valid() && Value() == m
              case Err(e) => err == Some(e)
    {
      if |data| < 164 {
        return Some(InvalidMessageLength);
      }
      mode := Uint32(data[0..4]);
      keyID := data[4..84];
      token := data[84..148];
      clientIV := data[148..164];
      return None;
    }
  }

  class ServerStartMessage {
    var accept: uint8
    var serverIV: Block
    var startTime: Timestamp

    function Value(): ServerStart
      reads this
    {
      ServerStart(accept, serverIV, startTime)
    }

    method Marshal() returns (buf: array<uint8>)
      ensures fresh(buf) && buf[..] == EncodeServerStart(Value())
    {
      buf := Make(48);
      ghost var w := [] + Zeros(15);
      Skip(buf, 48, [], 15);
      CopyInto(buf, 48, 15, [accept], w);
      CopyInto(buf, 48, 16, serverIV, w + [accept]);
      CopyInto(buf, 48, 32, PutTimestamp(startTime), w + [accept] + serverIV);
      Skip(buf, 48, w + [accept] + serverIV + PutTimestamp(startTime), 8);
      Reassociate(w, [accept], serverIV, PutTimestamp(startTime), Zeros(8));
      assert buf[..] == buf[..48];
    }

    method Unmarshal(data: bytes) returns (err: Option<Error>)
      modifies this
      ensures match DecodeServerStart(data)
              case Ok(m) => err == None && Value() == m
              case Err(e) => err == Some(e)
    {
      if |data| < 48 {
        return Some(InvalidMessageLength);
      }
      var ok := ValidateMBZ(data, 0, 15);
      if !ok {
        return Some(InvalidMBZ);
      }
      ok := ValidateMBZ(data, 40, 48);
      if !ok {
        return Some(InvalidMBZ);
      }
      accept := data[15];
      serverIV := data[16..32];
      startTime := GetTimestamp(data[32..40]);
      return None;
    }
  }

  class RequestTWSession {
    var command: uint8
    var ipvn: uint8
    var confSender: uint8
    var confReceiver: uint8
    var numSlots: uint32
    var numPackets: uint32
    var senderPort: uint16
    var receiverPort: uint16
    var senderAddress: Block
    var receiverAddress: Block
    var sid: SID
    var paddingLength: uint32
    var startTime: Timestamp
    var timeout: Timestamp
    var typeP: uint32
    var hmac: Block

    function Value(): Request
      reads this
    {
      Request(command, ipvn, confSender, confReceiver, numSlots, numPackets, senderPort, receiverPort,
              senderAddress, receiverAddress, sid, paddingLength, startTime, timeout, typeP, hmac)
    }

    method Marshal(includeHMAC: bool) returns (buf: array<uint8>)
      ensures fresh(buf) && buf[..] == EncodeRequest(Value(), includeHMAC)
    {
      buf := Make(112);
      ghost var head := MarshalHead(buf);
      ghost var ids := senderAddress + receiverAddress + sid;
      CopyInto(buf, 112, 16, senderAddress, head);
      CopyInto(buf, 112, 32, receiverAddress, head + senderAddress);
      CopyInto(buf, 112, 48, sid, head + senderAddress + receiverAddress);
      assert head + senderAddress + receiverAddress + sid == head + ids;
      ghost var rest := MarshalRest(buf, head + ids);
      PutTail(buf, 96, hmac, includeHMAC, head + ids + rest);
      WrittenInOrder(Value(), includeHMAC, head, ids, rest);
    }

    /** The first 16 bytes. */
    method MarshalHead(buf: array<uint8>) returns (ghost head: bytes)
      requires buf.Length == 112 && Holds(buf, 112, [])
      modifies buf
      ensures head == RequestHead(Value()) && |head| == 16 && Holds(buf, 112, head)
    {
      var version: uint8 := ipvn % 16;
      ghost var w: bytes := [] + [command, version, confSender, confReceiver];
      CopyInto(buf, 112, 0, [command, version, confSender, confReceiver], []);
      CopyInto(buf, 112, 4, PutUint32(numSlots), w);
      CopyInto(buf, 112, 8, PutUint32(numPackets), w + PutUint32(numSlots));
      CopyInto(buf, 112, 12, PutUint16(senderPort), w + PutUint32(numSlots) + PutUint32(numPackets));
      CopyInto(buf, 112, 14, PutUint16(receiverPort),
               w + PutUint32(numSlots) + PutUint32(numPackets) + PutUint16(senderPort));
      head := RequestHead(Value());
      assert head == w + PutUint32(numSlots) + PutUint32(numPackets) + PutUint16(senderPort) + PutUint16(receiverPort);
    }

    /** Bytes 64 to 96. */
    method MarshalRest(buf: array<uint8>, ghost w: bytes) returns (ghost rest: bytes)
      requires buf.Length == 112 && |w| == 64 && Holds(buf, 112, w)
      modifies buf
      ensures rest == RequestRest(Value()) && |rest| == 32 && Holds(buf, 112, w + rest)
    {
      CopyInto(buf, 112, 64, PutUint32(paddingLength), w);
      CopyInto(buf, 112, 68, PutTimestamp(startTime), w + PutUint32(paddingLength));
      CopyInto(buf, 112, 76, PutTimestamp(timeout), w + PutUint32(paddingLength) + PutTimestamp(startTime));
      ghost var v := w + PutUint32(paddingLength) + PutTimestamp(startTime) + PutTimestamp(timeout);
      CopyInto(buf, 112, 84, PutUint32(typeP), v);
      Skip(buf, 112, v + PutUint32(typeP), 8);
      rest := RequestRest(Value());
      assert w + rest == v + PutUint32(typeP) + Zeros(8);
    }

    method Unmarshal(data: bytes, includeHMAC: bool) returns (err: Option<Error>)
      modifies this
      ensures match DecodeRequest(data, includeHMAC)
              case Ok(m) => err == None && Value().(hmac := m.hmac) == m && (includeHMAC ==> hmac == m.hmac)
              case Err(e) => err == Some(e)
    {
      if |data| < 112 {
        return Some(InvalidMessageLength);
      }
      DecodeByParts(data, includeHMAC);
      hide DecodeRequest, HeadError, RestError, HeadOf, RestOf;
      err := UnmarshalHead(data);
      if err == None {
        err := UnmarshalRest(data);
      }
      if err == None {
        var tail := ReadTail(data, 96, includeHMAC);
        err := if tail.Err? then Some(tail.error) else None;
        hmac := if includeHMAC then tail.value else hmac;
      }
    }

    /** The fields before the padding length. */
    method UnmarshalHead(data: bytes) returns (err: Option<Error>)
      requires |data| >= 112
      modifies this
      ensures err == HeadError(data) && (err == None ==> Value() == HeadOf(old(Value()), data))
    {
      hide Uint32, EndpointsOf, FirstOf, CountsOf;
      err := UnmarshalFirst(data);
      if err == None {
        err := UnmarshalCounts(data);
      }
      if err == None {
        UnmarshalEndpoints(data);
      }
    }

    /** The first four bytes. */
    method UnmarshalFirst(data: bytes) returns (err: Option<Error>)
      requires |data| >= 112
      modifies this`command, this`ipvn, this`confSender, this`confReceiver
      ensures err == FirstError(data) && (err == None ==> Value() == FirstOf(old(Value()), data))
    {
      command := data[0];
      if data[1] / 16 != 0 {
        return Some(InvalidMBZ);
      }
      ipvn := data[1] % 16;
      if ipvn != 4 && ipvn != 6 {
        return Some(InvalidIPVN);
      }
      confSender, confReceiver := data[2], data[3];
      return None;
    }

    method UnmarshalCounts(data: bytes) returns (err: Option<Error>)
      requires |data| >= 112
      modifies this`numSlots, this`numPackets
      ensures err == CountsError(data) && (err == None ==> Value() == CountsOf(old(Value()), data))
    {
      hide Uint32;
      numSlots, numPackets := Uint32(data[4..8]), Uint32(data[8..12]);
      if numSlots != 0 {
        return Some(InvalidNumSlots);
      }
      return if numPackets != 0 then Some(InvalidNumPackets) else None;
    }

    method UnmarshalEndpoints(data: bytes)
      requires |data| >= 112
      modifies this`senderPort, this`receiverPort, this`senderAddress, this`receiverAddress, this`sid
      ensures Value() == EndpointsOf(old(Value()), data)
    {
      hide Uint16;
      senderPort, receiverPort := Uint16(data[12..14]), Uint16(data[14..16]);
      senderAddress, receiverAddress, sid := data[16..32], data[32..48], data[48..64];
    }

    /** The fields from the padding length to the MAC. */
    method UnmarshalRest(data: bytes) returns (err: Option<Error>)
      requires |data| >= 112
      modifies this`paddingLength, this`startTime, this`timeout, this`typeP
      ensures err == RestError(data) && (err == None ==> Value() == RestOf(old(Value()), data))
    {
      hide Uint32, GetTimestamp, ValidTypeP, AllZero;
      paddingLength := Uint32(data[64..68]);
      if paddingLength > MAX_PACKET_SIZE {
        return Some(InvalidPaddingLength);
      }
      startTime, timeout := GetTimestamp(data[68..76]), GetTimestamp(data[76..84]);
      typeP := Uint32(data[84..88]);
      if !ValidTypeP(typeP) {
        return Some(InvalidTypePDescriptor);
      }
      var ok := ValidateMBZ(data, 88, 96);
      return if ok then None else Some(InvalidMBZ);
    }
  }

  /** The first complaint about the fields before the padding length. */
  function HeadError(data: bytes): Option<Error>
    requires |data| >= 112
  {
    if FirstError(data).Some? then FirstError(data) else CountsError(data)
  }

  function HeadOf(m: Request, data: bytes): Request
    requires |data| >= 112
  {
    EndpointsOf(CountsOf(FirstOf(m, data), data), data)
  }

  function FirstError(data: bytes): Option<Error>
    requires |data| >= 112
  {
    if data[1] / 16 != 0 then Some(InvalidMBZ)
    else if data[1] % 16 != 4 && data[1] % 16 != 6 then Some(InvalidIPVN) else None
  }

  function FirstOf(m: Request, data: bytes): Request
    requires |data| >= 112
  {
    m.(command := data[0], ipvn := data[1] % 16, confSender := data[2], confReceiver := data[3])
  }

  function CountsError(data: bytes): Option<Error>
    requires |data| >= 112
  {
    if Uint32(data[4..8]) != 0 then Some(InvalidNumSlots)
    else if Uint32(data[8..12]) != 0 then Some(InvalidNumPackets) else None
  }

  function CountsOf(m: Request, data: bytes): Request
    requires |data| >= 112
  {
    m.(numSlots := Uint32(data[4..8]), numPackets := Uint32(data[8..12]))
  }

  function EndpointsOf(m: Request, data: bytes): Request
    requires |data| >= 112
  {
    m.(senderPort := Uint16(data[12..14]), receiverPort := Uint16(data[14..16]),
       senderAddress := data[16..32], receiverAddress := data[32..48], sid := data[48..64])
  }

  function RestError(data: bytes): Option<Error>
    requires |data| >= 112
  {
    if Uint32(data[64..68]) > MAX_PACKET_SIZE then Some(InvalidPaddingLength)
    else if !ValidTypeP(Uint32(data[84..88])) then Some(InvalidTypePDescriptor)
    else if !AllZero(data[88..96]) then Some(InvalidMBZ)
    else None
  }

  function RestOf(m: Request, data: bytes): Request
    requires |data| >= 112
  {
    m.(paddingLength := Uint32(data[64..68]), startTime := GetTimestamp(data[68..76]),
       timeout := GetTimestamp(data[76..84]), typeP := Uint32(data[84..88]))
  }

  lemma DecodeByParts(data: bytes, includeHMAC: bool)
    requires |data| >= 112
    ensures DecodeRequest(data, includeHMAC) ==
            if HeadError(data).Some? then Err(HeadError(data).value)
            else if RestError(data).Some? then Err(RestError(data).value)
            else if CheckTail(data[96..112], includeHMAC).Err? then Err(CheckTail(data[96..112], includeHMAC).error)
            else DecodeRequest(data, includeHMAC)
    ensures DecodeRequest(data, includeHMAC).Ok? <==>
              HeadError(data) == None && RestError(data) == None && CheckTail(data[96..112], includeHMAC).Ok?
    ensures forall m: Request :: DecodeRequest(data, includeHMAC).Ok? ==>
              DecodeRequest(data, includeHMAC).value
              == RestOf(HeadOf(m, data), data).(hmac := CheckTail(data[96..112], includeHMAC).value)
  {
    hide Uint32, Uint16, GetTimestamp, ValidTypeP, AllZero;
  }

  function RequestHead(m: Request): (b: bytes)
    ensures |b| == 16
  {
    [m.command, m.ipvn % 16, m.confSender, m.confReceiver] + PutUint32(m.numSlots) + PutUint32(m.numPackets)
    + PutUint16(m.senderPort) + PutUint16(m.receiverPort)
  }

  function RequestRest(m: Request): (b: bytes)
    ensures |b| == 32
  {
    PutUint32(m.paddingLength) + PutTimestamp(m.startTime) + PutTimestamp(m.timeout) + PutUint32(m.typeP) + Zeros(8)
  }

  lemma WrittenInOrder(m: Request, includeHMAC: bool, head: bytes, ids: bytes, rest: bytes)
    requires head == RequestHead(m) && ids == m.senderAddress + m.receiverAddress + m.sid && rest == RequestRest(m)
    ensures head + ids + rest + Tail(m.hmac, includeHMAC) == EncodeRequest(m, includeHMAC)
  {
    hide PutUint32, PutUint16, PutTimestamp, Zeros, Tail, EncodeRequest, RequestHead, RequestRest;
    var tail := Tail(m.hmac, includeHMAC);
    var b := head + ids + rest + tail;
    assert b[0..] == b == head + (ids + (rest + tail));
    Peel(b, 0, head, ids + (rest + tail));
    Peel(b, 16, ids, rest + tail);
    Peel(b, 64, rest, tail);
    assert b[..16] == b[0..16] && b[96..112] == b[96..];
    HeadLayout(b, m);
    RestLayout(b, m);
    IdsLayout(b, m);
    EncodeLaysOut(m, includeHMAC);
    LayoutUnique(b, EncodeRequest(m, includeHMAC), m, includeHMAC);
  }

  lemma HeadLayout(b: bytes, m: Request)
    requires |b| == 112 && b[..16] == RequestHead(m)
    ensures b[0] == m.command && b[1] == m.ipvn % 16 && b[2] == m.confSender && b[3] == m.confReceiver
    ensures b[4..8] == PutUint32(m.numSlots) && b[8..12] == PutUint32(m.numPackets)
    ensures b[12..14] == PutUint16(m.senderPort) && b[14..16] == PutUint16(m.receiverPort)
  {
    var h := RequestHead(m);
    assert forall i :: 0 <= i < 16 ==> b[i] == h[i];
  }

  lemma IdsLayout(b: bytes, m: Request)
    requires |b| == 112 && b[16..64] == m.senderAddress + m.receiverAddress + m.sid
    ensures b[16..32] == m.senderAddress && b[32..48] == m.receiverAddress && b[48..64] == m.sid
  {
    var x := b[16..64];
    assert x[0..] == x == m.senderAddress + (m.receiverAddress + m.sid);
    Peel(x, 0, m.senderAddress, m.receiverAddress + m.sid);
    Peel(x, 16, m.receiverAddress, m.sid);
    assert x[32..48] == x[32..];
    SubSlice(b, 16, 64, 0, 16);
    SubSlice(b, 16, 64, 16, 32);
    SubSlice(b, 16, 64, 32, 48);
  }

  lemma RestLayout(b: bytes, m: Request)
    requires |b| == 112 && b[64..96] == RequestRest(m)
    ensures b[64..68] == PutUint32(m.paddingLength) && b[68..76] == PutTimestamp(m.startTime)
    ensures b[76..84] == PutTimestamp(m.timeout) && b[84..88] == PutUint32(m.typeP) && b[88..96] == Zeros(8)
  {
    hide PutUint32, PutTimestamp, Zeros;
    var x, zeros := b[64..96], Zeros(8);
    var typeP := PutUint32(m.typeP) + zeros;
    var timeout := PutTimestamp(m.timeout) + typeP;
    var start := PutTimestamp(m.startTime) + timeout;
    Reassociate(PutUint32(m.paddingLength), PutTimestamp(m.startTime), PutTimestamp(m.timeout),
                PutUint32(m.typeP), zeros);
    assert x[0..] == x == PutUint32(m.paddingLength) + start;
    Peel(x, 0, PutUint32(m.paddingLength), start);
    Peel(x, 4, PutTimestamp(m.startTime), timeout);
    Peel(x, 12, PutTimestamp(m.timeout), typeP);
    Peel(x, 20, PutUint32(m.typeP), zeros);
    assert x[24..32] == x[24..];
    SubSlice(b, 64, 96, 0, 4);
    SubSlice(b, 64, 96, 4, 12);
    SubSlice(b, 64, 96, 12, 20);
    SubSlice(b, 64, 96, 20, 24);
    SubSlice(b, 64, 96, 24, 32);
  }

  class AcceptSessionMessage {
    var accept: uint8
    var port: uint16
    var sid: SID
    var hmac: Block

    function Value(): AcceptSession
      reads this
    {
      AcceptSession(accept, port, sid, hmac)
    }

    method Marshal(includeHMAC: bool) returns (buf: array<uint8>)
      ensures fresh(buf) && buf[..] == EncodeAccept(Value(), includeHMAC)
    {
      buf := Make(48);
      CopyInto(buf, 48, 0, [accept], []);
      ghost var w := [] + [accept] + Zeros(1);
      Skip(buf, 48, [] + [accept], 1);
      CopyInto(buf, 48, 2, PutUint16(port), w);
      CopyInto(buf, 48, 4, sid, w + PutUint16(port));
      Skip(buf, 48, w + PutUint16(port) + sid, 12);
      PutTail(buf, 32, hmac, includeHMAC, w + PutUint16(port) + sid + Zeros(12));
      assert w == [accept, 0];
      Reassociate(w, PutUint16(port), sid, Zeros(12), Tail(hmac, includeHMAC));
    }

    method Unmarshal(data: bytes, includeHMAC: bool) returns (err: Option<Error>)
      modifies this
      ensures match DecodeAccept(data, includeHMAC)
              case Ok(m) => err == None && Value().(hmac := m.hmac) == m && (includeHMAC ==> hmac == m.hmac)
              case Err(e) => err == Some(e)
    {
      if |data| < 48 {
        return Some(InvalidMessageLength);
      }
      accept := data[0];
      if data[1] != 0 {
        return Some(InvalidMBZ);
      }
      port := Uint16(data[2..4]);
      sid := data[4..20];
      var ok := ValidateMBZ(data, 20, 32);
      if !ok {
        return Some(InvalidMBZ);
      }
      var tail := ReadTail(data, 32, includeHMAC);
      if tail.Err? {
        return Some(tail.error);
      }
      hmac := if includeHMAC then tail.value else hmac;
      return None;
    }
  }

  /** StartSessions and StartAck. */
  class ShortMessage {
    var code: uint8
    var hmac: Block

    function Value(): Short
      reads this
    {
      Short(code, hmac)
    }

    method Marshal(includeHMAC: bool) returns (buf: array<uint8>)
      ensures fresh(buf) && buf[..] == EncodeShort(Value(), includeHMAC)
    {
      buf := Make(32);
      CopyInto(buf, 32, 0, [code], []);
      Skip(buf, 32, [] + [code], 15);
      PutTail(buf, 16, hmac, includeHMAC, [] + [code] + Zeros(15));
    }

    method Unmarshal(data: bytes, includeHMAC: bool) returns (err: Option<Error>)
      modifies this
      ensures match DecodeShort(data, includeHMAC)
              case Ok(m) => err == None && Value().(hmac := m.hmac) == m && (includeHMAC ==> hmac == m.hmac)
              case Err(e) => err == Some(e)
    {
      if |data| < 32 {
        return Some(InvalidMessageLength);
      }
      code := data[0];
      var ok := ValidateMBZ(data, 1, 16);
      if !ok {
        return Some(InvalidMBZ);
      }
      var tail := ReadTail(data, 16, includeHMAC);
      if tail.Err? {
        return Some(tail.error);
      }
      hmac := if includeHMAC then tail.value else hmac;
      return None;
    }
  }

  class StopSessionsMessage {
    var command: uint8
    var accept: uint8
    var numSessions: uint32
    var hmac: Block

    function Value(): StopSessions
      reads this
    {
      StopSessions(command, accept, numSessions, hmac)
    }

    method Marshal(includeHMAC: bool) returns (buf: array<uint8>)
      ensures fresh(buf) && buf[..] == EncodeStop(Value(), includeHMAC)
    {
      buf := Make(32);
      CopyInto(buf, 32, 0, [command, accept], []);
      ghost var w := [] + [command, accept] + Zeros(2);
      Skip(buf, 32, [] + [command, accept], 2);
      CopyInto(buf, 32, 4, PutUint32(numSessions), w);
      Skip(buf, 32, w + PutUint32(numSessions), 8);
      PutTail(buf, 16, hmac, includeHMAC, w + PutUint32(numSessions) + Zeros(8));
      assert w + PutUint32(numSessions) + Zeros(8) == StopHeader(command, accept, numSessions);
    }

    method Unmarshal(data: bytes, includeHMAC: bool) returns (err: Option<Error>)
      modifies this
      ensures match DecodeStop(data, includeHMAC)
              case Ok(m) => err == None && Value().(hmac := m.hmac) == m && (includeHMAC ==> hmac == m.hmac)
              case Err(e) => err == Some(e)
    {
      if |data| < 32 {
        return Some(InvalidMessageLength);
      }
      command, accept := data[0], data[1];
      var ok := ValidateMBZ(data, 2, 4);
      if !ok {
        return Some(InvalidMBZ);
      }
      numSessions := Uint32(data[4..8]);
      ok := ValidateMBZ(data, 8, 16);
      if !ok {
        return Some(InvalidMBZ);
      }
      var tail := ReadTail(data, 16, includeHMAC);
      if tail.Err? {
        return Some(tail.error);
      }
      hmac := if includeHMAC then tail.value else hmac;
      return None;
    }
  }
}
