/** The TWAMP-Test packets of messages/test.go and messages/test_rfc6038.go, how the
    sender builds them, the reflector answers them and the sender reads the answer
    (client/test_session.go, processAndReflect in server/server.go). */
module TestPackets {
  import opened Bytes
  import opened CbcStream
  import opened PacketCrypto
  import opened Timestamps

  const SENDER_MIN := 14
  const SENDER_AUTH_MIN := 48
  const REFLECTOR_MIN := 41
  const REFLECTOR_AUTH_MIN := 112
  const MAX_PACKET_SIZE := 2048

  // ---- Error estimate (common/types.go) ----

  datatype ErrorEstimate = ErrorEstimate(multiplier: uint8, scale: uint8, s: bool)

  function ToUint16(ee: ErrorEstimate): uint16 {
    ee.multiplier as int + 0x100 * (if ee.s then 0x80 + ee.scale as int % 0x80 else ee.scale as int)
  }

  function FromUint16(val: uint16): ErrorEstimate {
    ErrorEstimate(val % 0x100, val / 0x100 % 0x40, val >= 0x8000)
  }

  /** Only a scale that fits its six bits survives the wire; of a wire value only
      the unused bit below the S bit is lost. */
  lemma ErrorEstimateRoundTrip(ee: ErrorEstimate, val: uint16)
    ensures FromUint16(ToUint16(ee)) == ee <==> ee.scale < 0x40
    ensures ToUint16(FromUint16(val)) == val <==> val / 0x4000 % 2 == 0
  {
    EstimateToWire(ee);
    WireToEstimate(val);
  }

  lemma EstimateToWire(ee: ErrorEstimate)
    ensures FromUint16(ToUint16(ee)) == ee <==> ee.scale < 0x40
  {
    assert ToUint16(ee) / 0x100 == if ee.s then 0x80 + ee.scale as int % 0x80 else ee.scale as int;
  }

  lemma WireToEstimate(val: uint16)
    ensures ToUint16(FromUint16(val)) == val <==> val / 0x4000 % 2 == 0
  {
    var high: int := val / 0x100;
    assert high / 0x40 == val / 0x4000 && high == high / 0x40 * 0x40 + high % 0x40;
    assert val / 0x4000 in {0, 1, 2, 3};
  }

  // ---- Layouts ----

  function PutTimestamp(ts: Timestamp): (b: bytes)
    ensures |b| == 8
  {
    PutUint32(ts.seconds) + PutUint32(ts.fraction)
  }

  function GetTimestamp(b: bytes): Timestamp
    requires |b| == 8
  {
    Timestamp(Uint32(b[..4]), Uint32(b[4..]))
  }

  lemma TimestampInverse(ts: Timestamp, b: bytes)
    requires |b| == 8
    ensures GetTimestamp(PutTimestamp(ts)) == ts
    ensures PutTimestamp(GetTimestamp(b)) == b
  {
    var w := PutTimestamp(ts);
    assert w[..4] == PutUint32(ts.seconds) && w[4..] == PutUint32(ts.fraction);
    Uint32Inverse(ts.seconds, b[..4]);
    Uint32Inverse(ts.fraction, b[4..]);
    assert b[..4] + b[4..] == b;
  }

  /** What a test packet says about one transmission. */
  datatype Stamp = Stamp(seqNo: uint32, timestamp: Timestamp, errorEstimate: ErrorEstimate) {
    /** The stamp as the wire delivers it: a scale beyond six bits is mangled. */
    function OnWire(): Stamp {
      this.(errorEstimate := FromUint16(ToUint16(errorEstimate)))
    }
  }

  datatype Reflection = Reflection(own: Stamp, receiveTimestamp: Timestamp, sender: Stamp, senderTTL: uint8) {
    function OnWire(): Reflection {
      this.(own := own.OnWire(), sender := sender.OnWire())
    }
  }

  function PutStamp(s: Stamp): (b: bytes)
    ensures |b| == 14
  {
    PutUint32(s.seqNo) + PutTimestamp(s.timestamp) + PutUint16(ToUint16(s.errorEstimate))
  }

  function GetStamp(b: bytes): Stamp
    requires |b| == 14
  {
    Stamp(Uint32(b[0..4]), GetTimestamp(b[4..12]), FromUint16(Uint16(b[12..14])))
  }

  lemma StampInverse(s: Stamp)
    ensures GetStamp(PutStamp(s)) == s.OnWire()
  {
    var b := PutStamp(s);
    assert b[0..4] == PutUint32(s.seqNo);
    assert b[4..12] == PutTimestamp(s.timestamp);
    assert b[12..14] == PutUint16(ToUint16(s.errorEstimate));
    Uint32Inverse(s.seqNo, b[0..4]);
    TimestampInverse(s.timestamp, b[4..12]);
    Uint16Inverse(ToUint16(s.errorEstimate), b[12..14]);
  }

  /** The stamp spread over 32 bytes, as in authenticated packets. */
  function PutWideStamp(s: Stamp): (b: bytes)
    ensures |b| == 32
  {
    PutUint32(s.seqNo) + Zeros(12) + PutTimestamp(s.timestamp) + PutUint16(ToUint16(s.errorEstimate)) + Zeros(6)
  }

  function GetWideStamp(b: bytes): Result<Stamp>
    requires |b| == 32
  {
    if !(AllZero(b[4..16]) && AllZero(b[26..32])) then Err(InvalidMBZ) else
    Ok(Stamp(Uint32(b[0..4]), GetTimestamp(b[16..24]), FromUint16(Uint16(b[24..26]))))
  }

  lemma WideStampInverse(s: Stamp)
    ensures GetWideStamp(PutWideStamp(s)) == Ok(s.OnWire())
  {
    var b := PutWideStamp(s);
    assert b[0..4] == PutUint32(s.seqNo) && b[4..16] == Zeros(12);
    assert b[16..24] == PutTimestamp(s.timestamp);
    assert b[24..26] == PutUint16(ToUint16(s.errorEstimate));
    assert b[26..32] == b[26..] == Zeros(6);
    Uint32Inverse(s.seqNo, b[0..4]);
    TimestampInverse(s.timestamp, b[16..24]);
    Uint16Inverse(ToUint16(s.errorEstimate), b[24..26]);
  }

  lemma WideStampRead(b: bytes)
    requires |b| == 32
    ensures GetWideStamp(b).Ok? <==> forall k :: 4 <= k < 16 || 26 <= k < 32 ==> b[k] == 0
    ensures GetWideStamp(b).Err? ==> GetWideStamp(b).error == InvalidMBZ
  {
    assert forall k :: 4 <= k < 16 ==> b[k] == b[4..16][k - 4];
    assert forall k :: 26 <= k < 32 ==> b[k] == b[26..32][k - 26];
  }

  function PutReflection(r: Reflection): (b: bytes)
    ensures |b| == REFLECTOR_MIN
  {
    PutStamp(r.own) + Zeros(2) + PutTimestamp(r.receiveTimestamp)
    + (PutStamp(r.sender) + Zeros(2) + [r.senderTTL])
  }

  function GetReflection(data: bytes): Result<Reflection> {
    if |data| < REFLECTOR_MIN then Err(InvalidMessageLength) else
    :- Need(AllZero(data[14..16]) && AllZero(data[38..40]), InvalidMBZ);
    Ok(Reflection(GetStamp(data[0..14]), GetTimestamp(data[16..24]), GetStamp(data[24..38]), data[40]))
  }

  lemma ReflectionInverse(r: Reflection, padding: bytes)
    ensures GetReflection(PutReflection(r) + padding) == Ok(r.OnWire())
  {
    var b := PutReflection(r) + padding;
    assert b[0..14] == PutStamp(r.own) && b[14..16] == Zeros(2);
    assert b[16..24] == PutTimestamp(r.receiveTimestamp);
    assert b[24..38] == PutStamp(r.sender) && b[38..40] == Zeros(2);
    StampInverse(r.own);
    StampInverse(r.sender);
    TimestampInverse(r.receiveTimestamp, b[16..24]);
  }

  function PutWideReflection(r: Reflection): (b: bytes)
    ensures |b| == REFLECTOR_HMAC_OFFSET
  {
    PutWideStamp(r.own) + (PutTimestamp(r.receiveTimestamp) + Zeros(8))
    + PutWideStamp(r.sender) + ([r.senderTTL] + Zeros(15))
  }

  function GetWideReflection(data: bytes): Result<Reflection> {
    if |data| < REFLECTOR_AUTH_MIN then Err(InvalidMessageLength) else
    var own :- GetWideStamp(data[0..32]);
    :- Need(AllZero(data[40..48]), InvalidMBZ);
    var sender :- GetWideStamp(data[48..80]);
    :- Need(AllZero(data[81..96]), InvalidMBZ);
    Ok(Reflection(own, GetTimestamp(data[32..40]), sender, data[80]))
  }

  lemma WideReflectionInverse(r: Reflection, rest: bytes)
    requires |rest| >= 16
    ensures GetWideReflection(PutWideReflection(r) + rest) == Ok(r.OnWire())
  {
    var b := PutWideReflection(r) + rest;
    assert b[0..32] == PutWideStamp(r.own);
    assert b[32..40] == PutTimestamp(r.receiveTimestamp) && b[40..48] == Zeros(8);
    assert b[48..80] == PutWideStamp(r.sender);
    assert b[81..96] == Zeros(15);
    WideStampInverse(r.own);
    WideStampInverse(r.sender);
    TimestampInverse(r.receiveTimestamp, b[32..40]);
  }

  /** Number, time and error estimate stand at the given places of the bytes: four bytes,
      eight, then the S bit with the scale, and the multiplier. */
  predicate StampAt(b: bytes, number: nat, time: nat, s: Stamp)
    requires number + 4 <= |b| && time + 10 <= |b|
  {
    && s.seqNo == Uint32(b[number..number + 4])
    && s.timestamp == Timestamp(Uint32(b[time..time + 4]), Uint32(b[time + 4..time + 8]))
    && s.errorEstimate == ErrorEstimate(b[time + 9], b[time + 8] % 0x40, b[time + 8] >= 0x80)
  }

  /** Where the fields of the test packets are read, in either layout. */
  lemma StampLayout(b: bytes)
    ensures |b| == 14 ==> StampAt(b, 0, 4, GetStamp(b))
    ensures |b| == 32 && GetWideStamp(b).Ok? ==> StampAt(b, 0, 16, GetWideStamp(b).value)
  {
    hide Uint32;
    if |b| == 14 {
      assert b[4..12][..4] == b[4..8] && b[4..12][4..] == b[8..12];
      EstimateLayout(b[12..14]);
    } else if |b| == 32 {
      assert b[16..24][..4] == b[16..20] && b[16..24][4..] == b[20..24];
      EstimateLayout(b[24..26]);
    }
  }

  lemma EstimateLayout(b: bytes)
    requires |b| == 2
    ensures FromUint16(Uint16(b)) == ErrorEstimate(b[1], b[0] % 0x40, b[0] >= 0x80)
  {
    assert Uint16(b) / 0x100 == b[0];
  }

  lemma ReflectionLayout(b: bytes, wide: bool)
    requires (if wide then GetWideReflection(b) else GetReflection(b)).Ok?
    ensures if wide then
              var r := GetWideReflection(b).value;
              && StampAt(b, 0, 16, r.own) && StampAt(b, 48, 64, r.sender) && r.senderTTL == b[80]
              && r.receiveTimestamp == Timestamp(Uint32(b[32..36]), Uint32(b[36..40]))
            else
              var r := GetReflection(b).value;
              && StampAt(b, 0, 4, r.own) && StampAt(b, 24, 28, r.sender) && r.senderTTL == b[40]
              && r.receiveTimestamp == Timestamp(Uint32(b[16..20]), Uint32(b[20..24]))
  {
    hide Uint32, GetStamp, GetWideStamp;
    if wide {
      StampLayout(b[0..32]);
      StampLayout(b[48..80]);
      StampWithin(b, 0, 32, 0, 16, GetWideStamp(b[0..32]).value);
      StampWithin(b, 48, 80, 0, 16, GetWideStamp(b[48..80]).value);
      assert b[32..40][..4] == b[32..36] && b[32..40][4..] == b[36..40];
    } else {
      StampLayout(b[0..14]);
      StampLayout(b[24..38]);
      StampWithin(b, 0, 14, 0, 4, GetStamp(b[0..14]));
      StampWithin(b, 24, 38, 0, 4, GetStamp(b[24..38]));
      assert b[16..24][..4] == b[16..20] && b[16..24][4..] == b[20..24];
    }
  }

  lemma StampWithin(b: bytes, from: nat, to: nat, number: nat, time: nat, s: Stamp)
    requires from + number + 4 <= to && from + time + 10 <= to <= |b| && StampAt(b[from..to], number, time, s)
    ensures StampAt(b, from + number, from + time, s)
  {
    hide Uint32;
    SubSlice(b, from, to, number, number + 4);
    SubSlice(b, from, to, time, time + 4);
    SubSlice(b, from, to, time + 4, time + 8);
  }

  // ---- Modes and keys of a test session ----

  datatype Security = Unauthenticated | Authenticated | Encrypted

  datatype TestMode = TestMode(security: Security, reflectOctets: bool, symmetricalSize: bool)

  type HmacKey = k: bytes | |k| == 32 witness Zeros(32)

  datatype SessionKeys = SessionKeys(aes: Block, hmac: HmacKey, clientIV: Block, serverIV: Block)

  /** DeriveTestSessionKeys: ECB for the AES key, two CBC blocks for the MAC key. */
  function DeriveTestSessionKeys(p: Primitives, controlAES: Block, controlHMAC: HmacKey, sid: Block): (Block, HmacKey) {
    (p.encrypt(sid, controlAES), CbcEncrypt(p, sid, ZERO_IV, controlHMAC))
  }

  /** Insert the MAC at its offset, then encrypt the prefix. */
  function Protect(p: Primitives, aes: Block, hmac: HmacKey, iv: Block, raw: bytes,
                   isEncrypted: bool, isReflector: bool): Result<bytes>
    requires MinAuthSize(isReflector) <= |raw|
  {
    var h := HmacOffset(isReflector);
    var mac := p.mac(hmac, raw[..HMACCoverage(isEncrypted, isReflector)]);
    EncryptTestPacket(p, aes, iv, raw[..h] + mac + raw[h + 16..], !isEncrypted, isReflector)
  }

  /** Decrypt the prefix, then check the MAC before anything is parsed. */
  function Unprotect(p: Primitives, aes: Block, hmac: HmacKey, iv: Block, packet: bytes,
                     isEncrypted: bool, isReflector: bool): (r: Result<bytes>)
    ensures r.Ok? ==> |r.value| == |packet| >= MinAuthSize(isReflector)
  {
    var plain :- DecryptTestPacket(p, aes, iv, packet, !isEncrypted, isReflector);
    var h := HmacOffset(isReflector);
    :- Need(p.mac(hmac, plain[..HMACCoverage(isEncrypted, isReflector)]) == plain[h..h + 16], HMACVerificationFailed);
    Ok(plain)
  }

  lemma UnprotectProtect(p: Primitives, aes: Block, hmac: HmacKey, iv: Block, otherIV: Block, raw: bytes,
                         isEncrypted: bool, isReflector: bool)
    requires p.DecryptInverts() && MinAuthSize(isReflector) <= |raw|
    ensures var sealed := Protect(p, aes, hmac, iv, raw, isEncrypted, isReflector);
            var h := HmacOffset(isReflector);
            && sealed.Ok? && |sealed.value| == |raw|
            && sealed.value[h + 16..] == raw[h + 16..]
            && var received := Unprotect(p, aes, hmac, otherIV, sealed.value, isEncrypted, isReflector);
            received.Ok? && received.value[..h] == raw[..h] && received.value[h + 16..] == raw[h + 16..]
  {
    var h, n := HmacOffset(isReflector), HMACCoverage(isEncrypted, isReflector);
    var mac := p.mac(hmac, raw[..n]);
    var packet := raw[..h] + mac + raw[h + 16..];
    DecryptEncryptPacket(p, aes, iv, packet, !isEncrypted, isReflector);
    DecryptEncryptPacket(p, aes, otherIV, packet, !isEncrypted, isReflector);
    var e := EncryptTestPacket(p, aes, iv, packet, !isEncrypted, isReflector).value;
    assert EncryptTestPacket(p, aes, otherIV, packet, !isEncrypted, isReflector).value == e;
    var k := EncryptedPrefix(!isEncrypted, isReflector);
    assert e[h + 16..] == e[k..][h + 16 - k..] && packet[h + 16..] == packet[k..][h + 16 - k..];
    assert packet[..n] == raw[..n] && packet[h..h + 16] == mac && packet[..h] == raw[..h];
    assert packet[h + 16..] == raw[h + 16..];
  }

  // ---- What a protected packet must be ----

  /** The plaintext that the MAC of a protected packet covers. */
  ghost function Opened(p: Primitives, aes: Block, packet: bytes, isEncrypted: bool, isReflector: bool): (b: bytes)
    requires |packet| >= if isReflector then 112 else 48
    ensures |b| == if !isEncrypted then 16 else if isReflector then 96 else 32
  {
    if !isEncrypted then p.decrypt(aes, packet[..16])
    else CbcDecrypt(p, aes, Zeros(16), packet[..if isReflector then 96 else 32])
  }

  /** The packet carries the MAC of that plaintext, at byte 32 or 96. */
  ghost predicate Genuine(p: Primitives, aes: Block, hmac: HmacKey, packet: bytes, isEncrypted: bool, isReflector: bool)
    requires |packet| >= if isReflector then 112 else 48
  {
    var at := if isReflector then 96 else 32;
    p.mac(hmac, Opened(p, aes, packet, isEncrypted, isReflector)) == packet[at..at + 16]
  }

  /** Any packet: too short a one is refused for its size, one with a wrong MAC for its
      MAC, and of any other the plaintext comes out, the rest as it is. */
  lemma UnprotectExact(p: Primitives, aes: Block, hmac: HmacKey, iv: Block, packet: bytes,
                       isEncrypted: bool, isReflector: bool)
    ensures var r := Unprotect(p, aes, hmac, iv, packet, isEncrypted, isReflector);
            if |packet| < (if isReflector then 112 else 48) then r == Err(InvalidBlockSize)
            else if !Genuine(p, aes, hmac, packet, isEncrypted, isReflector) then r == Err(HMACVerificationFailed)
            else
              var head := Opened(p, aes, packet, isEncrypted, isReflector);
              r == Ok(head + packet[|head|..])
  {
    if |packet| >= if isReflector then 112 else 48 {
      var head := Opened(p, aes, packet, isEncrypted, isReflector);
      var at := if isReflector then 96 else 32;
      var plain := head + packet[|head|..];
      assert plain[..|head|] == head && plain[at..at + 16] == packet[at..at + 16];
    }
  }

  /** A test packet, or a reflection, whose MAC is wrong, in a mode with MACs. */
  ghost predicate Forged(p: Primitives, keys: SessionKeys, mode: TestMode, packet: bytes, isReflector: bool) {
    && mode.security != Unauthenticated && |packet| >= (if isReflector then 112 else 48)
    && !Genuine(p, keys.aes, keys.hmac, packet, mode.security == Encrypted, isReflector)
  }

  /** What is left to parse of a packet that has passed the check of its MAC. */
  ghost function Plain(p: Primitives, keys: SessionKeys, mode: TestMode, packet: bytes, isReflector: bool): (b: bytes)
    requires mode.security != Unauthenticated ==> |packet| >= if isReflector then 112 else 48
    ensures |b| == |packet|
  {
    if mode.security == Unauthenticated then packet
    else
      var head := Opened(p, keys.aes, packet, mode.security == Encrypted, isReflector);
      head + packet[|head|..]
  }

  /** A test packet the reflector can read: long enough, with the right MAC and zeros in
      bytes 4 to 15 and 26 to 31 of the plaintext. */
  ghost predicate Readable(p: Primitives, keys: SessionKeys, mode: TestMode, packet: bytes) {
    if mode.security == Unauthenticated then |packet| >= 14
    else
      && |packet| >= 48 && !Forged(p, keys, mode, packet, false)
      && var b := Plain(p, keys, mode, packet, false);
      forall k :: 4 <= k < 16 || 26 <= k < 32 ==> b[k] == 0
  }

  /** The bytes of an authenticated reflection that must be zero. */
  predicate Reserved(k: int) {
    4 <= k < 16 || 26 <= k < 32 || 40 <= k < 48 || 52 <= k < 64 || 74 <= k < 80 || 81 <= k < 96
  }

  /** A reflection the sender can read, likewise. */
  ghost predicate Acceptable(p: Primitives, keys: SessionKeys, mode: TestMode, packet: bytes) {
    if mode.security == Unauthenticated then
      |packet| >= 41 && forall k :: 14 <= k < 16 || 38 <= k < 40 ==> packet[k] == 0
    else
      && |packet| >= 112 && !Forged(p, keys, mode, packet, true)
      && var b := Plain(p, keys, mode, packet, true);
      forall k :: Reserved(k) ==> b[k] == 0
  }

  // ---- Sender ----

  /** A buffer from the pool is cut to the packet size; a larger size panics. */
  function PoolBuffer(size: nat): Check {
    Need(size <= MAX_PACKET_SIZE, BufferOverrun)
  }

  /** The packet SendTestPacket writes to the socket.  `random` stands for the bytes
      the system's random source yields for the configured padding. */
  function BuildPacket(p: Primitives, keys: SessionKeys, mode: TestMode, s: Stamp, random: bytes): Result<bytes> {
    if mode.security == Unauthenticated then
      :- PoolBuffer(SENDER_MIN + |random|);
      Ok(PutStamp(s) + if mode.reflectOctets then random else Zeros(|random|))
    else
      :- PoolBuffer(SENDER_AUTH_MIN + |random|);
      Protect(p, keys.aes, keys.hmac, keys.clientIV, PutWideStamp(s) + Zeros(16) + random,
              mode.security == Encrypted, false)
  }

  // ---- Reflector ----

  datatype Parsed = Parsed(stamp: Stamp, padding: bytes)

  function ParseSenderPacket(p: Primitives, keys: SessionKeys, mode: TestMode, packet: bytes): Result<Parsed> {
    if mode.security == Unauthenticated then
      :- Need(|packet| >= SENDER_MIN, InvalidMessageLength);
      Ok(Parsed(GetStamp(packet[..SENDER_MIN]), packet[SENDER_MIN..]))
    else
      var plain :- Unprotect(p, keys.aes, keys.hmac, keys.clientIV, packet, mode.security == Encrypted, false);
      var stamp :- GetWideStamp(plain[..32]);
      Ok(Parsed(stamp, plain[SENDER_AUTH_MIN..]))
  }

  /** The reflector reads exactly the readable packets, the padding being what follows the
      first 14 or 48 bytes, and speaks of a failed MAC exactly when a MAC is wrong. */
  lemma SenderPacketRead(p: Primitives, keys: SessionKeys, mode: TestMode, packet: bytes)
    ensures var parsed := ParseSenderPacket(p, keys, mode, packet);
            && (parsed.Ok? <==> Readable(p, keys, mode, packet))
            && (parsed.Ok? ==>
                  parsed.value.padding == packet[if mode.security == Unauthenticated then 14 else 48..])
            && (parsed == Err(HMACVerificationFailed) <==> Forged(p, keys, mode, packet, false))
            && parsed != Err(BufferOverrun)
  {
    hide Unprotect, Genuine, Opened, GetWideStamp;
    if mode.security != Unauthenticated {
      UnprotectExact(p, keys.aes, keys.hmac, keys.clientIV, packet, mode.security == Encrypted, false);
      if |packet| >= 48 {
        WideStampRead(Plain(p, keys, mode, packet, false)[..32]);
      }
    }
  }

  /** Padding of the reflection: the sender's own octets, zero-extended in symmetrical
      mode when the sender's packet is still larger, or fresh bytes up to its size. */
  function ReflectedPadding(mode: TestMode, senderSize: nat, padding: bytes, random: nat -> bytes): bytes {
    var base := if mode.security == Unauthenticated then REFLECTOR_MIN else REFLECTOR_AUTH_MIN;
    if mode.reflectOctets then
      if mode.symmetricalSize && senderSize > base + |padding| then
        padding + Zeros(senderSize - base - |padding|)
      else
        padding
    else if mode.security == Unauthenticated then
      Zeros(if senderSize > base then senderSize - base else 0)
    else if mode.symmetricalSize && senderSize > base then
      random(senderSize - base)
    else
      []
  }

  /** processAndReflect: the packet sent back for one received packet. */
  function Reflect(p: Primitives, keys: SessionKeys, mode: TestMode, packet: bytes, own: Stamp,
                   receiveTimestamp: Timestamp, senderTTL: uint8, random: nat -> bytes): Result<bytes>
  {
    var parsed :- ParseSenderPacket(p, keys, mode, packet);
    var padding := ReflectedPadding(mode, |packet|, parsed.padding, random);
    var reflection := Reflection(own, receiveTimestamp, parsed.stamp, senderTTL);
    if mode.security == Unauthenticated then
      :- PoolBuffer(REFLECTOR_MIN + |padding|);
      Ok(PutReflection(reflection) + padding)
    else
      :- PoolBuffer(REFLECTOR_AUTH_MIN + |padding|);
      Protect(p, keys.aes, keys.hmac, keys.serverIV, PutWideReflection(reflection) + Zeros(16) + padding,
              mode.security == Encrypted, true)
  }

  /** The padding of an answer: the octets that came under reflect-octets; otherwise zeros
      up to the size of the packet when unauthenticated, and random bytes up to it with
      symmetrical size. */
  ghost predicate PaddedAs(mode: TestMode, packet: bytes, padding: bytes, fill: nat -> bytes) {
    var (own, base) := if mode.security == Unauthenticated then (14, 41) else (48, 112);
    && |packet| >= own && base + |padding| == ReflectedSize(mode, |packet|)
    && (mode.reflectOctets ==> padding == packet[own..])
    && (!mode.reflectOctets && mode.security == Unauthenticated ==> padding == Zeros(|padding|))
    && (!mode.reflectOctets && mode.security != Unauthenticated && padding != [] ==> padding == fill(|padding|))
  }

  lemma PaddingExact(mode: TestMode, packet: bytes, padding: bytes, fill: nat -> bytes)
    requires |packet| >= (if mode.security == Unauthenticated then 14 else 48)
    requires padding == packet[if mode.security == Unauthenticated then 14 else 48..]
    requires forall n :: |fill(n)| == n
    ensures PaddedAs(mode, packet, ReflectedPadding(mode, |packet|, padding, fill), fill)
  {
  }

  lemma ProtectKeepsPadding(p: Primitives, keys: SessionKeys, raw: bytes, isEncrypted: bool)
    requires |raw| >= REFLECTOR_AUTH_MIN
    ensures var sealed := Protect(p, keys.aes, keys.hmac, keys.serverIV, raw, isEncrypted, true);
            sealed.Ok? && |sealed.value| == |raw| && sealed.value[112..] == raw[112..]
  {
    hide CbcEncrypt;
    var mac := p.mac(keys.hmac, raw[..HMACCoverage(isEncrypted, true)]);
    var packet := raw[..96] + mac + raw[112..];
    assert packet[112..] == raw[112..];
    PrefixOnly(p, keys.aes, keys.serverIV, packet, !isEncrypted, true);
    var e := EncryptTestPacket(p, keys.aes, keys.serverIV, packet, !isEncrypted, true).value;
    var n := EncryptedPrefix(!isEncrypted, true);
    assert e[112..] == e[n..][112 - n..] && packet[112..] == packet[n..][112 - n..];
  }

  /** What any packet comes to: it is answered, with the size the law gives, exactly when
      it is readable and that size fits the pool buffer. */
  lemma ReflectExact(p: Primitives, keys: SessionKeys, mode: TestMode, packet: bytes, own: Stamp,
                     rx: Timestamp, ttl: uint8, fill: nat -> bytes)
    requires forall n :: |fill(n)| == n
    ensures var r := Reflect(p, keys, mode, packet, own, rx, ttl, fill);
            && (r.Ok? <==> Readable(p, keys, mode, packet) && ReflectedSize(mode, |packet|) <= 2048)
            && (r.Ok? ==>
                  var base := if mode.security == Unauthenticated then 41 else 112;
                  |r.value| == ReflectedSize(mode, |packet|) && PaddedAs(mode, packet, r.value[base..], fill))
            && (r == Err(HMACVerificationFailed) <==> Forged(p, keys, mode, packet, false))
            && (r == Err(BufferOverrun)
                <==> Readable(p, keys, mode, packet) && ReflectedSize(mode, |packet|) > 2048)
  {
    hide ParseSenderPacket, PutReflection, PutWideReflection, Forged, Protect, Opened, ReflectedPadding;
    SenderPacketRead(p, keys, mode, packet);
    var parsed := ParseSenderPacket(p, keys, mode, packet);
    if parsed.Ok? {
      var padding := ReflectedPadding(mode, |packet|, parsed.value.padding, fill);
      var r := Reflection(own, rx, parsed.value.stamp, ttl);
      PaddingExact(mode, packet, parsed.value.padding, fill);
      if mode.security == Unauthenticated {
        assert (PutReflection(r) + padding)[REFLECTOR_MIN..] == padding;
      } else {
        var raw := PutWideReflection(r) + Zeros(16) + padding;
        assert raw[REFLECTOR_AUTH_MIN..] == padding;
        ProtectKeepsPadding(p, keys, raw, mode.security == Encrypted);
      }
    }
  }

  // ---- Sender again ----

  /** The parsing half of processReceivedPacket. */
  function ParseReflection(p: Primitives, keys: SessionKeys, mode: TestMode, packet: bytes): Result<Reflection> {
    if mode.security == Unauthenticated then
      GetReflection(packet)
    else
      var plain :- Unprotect(p, keys.aes, keys.hmac, keys.serverIV, packet, mode.security == Encrypted, true);
      GetWideReflection(plain)
  }

  /** The sender reads exactly the acceptable reflections, and speaks of a failed MAC
      exactly when a MAC is wrong. */
  lemma ReflectionRead(p: Primitives, keys: SessionKeys, mode: TestMode, packet: bytes)
    ensures var parsed := ParseReflection(p, keys, mode, packet);
            && (parsed.Ok? <==> Acceptable(p, keys, mode, packet))
            && (parsed == Err(HMACVerificationFailed) <==> Forged(p, keys, mode, packet, true))
  {
    hide Unprotect, Genuine, Opened, GetWideReflection, GetStamp, GetTimestamp;
    if mode.security == Unauthenticated {
      assert |packet| >= 41 ==> forall k :: 14 <= k < 16 ==> packet[k] == packet[14..16][k - 14];
      assert |packet| >= 41 ==> forall k :: 38 <= k < 40 ==> packet[k] == packet[38..40][k - 38];
    } else {
      UnprotectExact(p, keys.aes, keys.hmac, keys.serverIV, packet, mode.security == Encrypted, true);
      if |packet| >= 112 {
        WideReflectionRead(Plain(p, keys, mode, packet, true));
      }
    }
  }

  lemma WideReflectionRead(b: bytes)
    requires |b| >= 112
    ensures GetWideReflection(b).Ok? <==> forall k :: Reserved(k) ==> b[k] == 0
    ensures GetWideReflection(b).Err? ==> GetWideReflection(b).error == InvalidMBZ
  {
    hide GetWideStamp;
    WideStampRead(b[0..32]);
    WideStampRead(b[48..80]);
    assert forall k :: 0 <= k < 32 ==> b[k] == b[0..32][k];
    assert forall k :: 40 <= k < 48 ==> b[k] == b[40..48][k - 40];
    assert forall k :: 48 <= k < 80 ==> b[k] == b[48..80][k - 48];
    assert forall k :: 81 <= k < 96 ==> b[k] == b[81..96][k - 81];
  }

  // ---- Sizes ----

  /** The size law of the reflection, independent of contents. */
  function ReflectedSize(mode: TestMode, n: nat): nat {
    if mode.security == Unauthenticated then
      if mode.reflectOctets then n + 27 else if n > 41 then n else 41
    else
      if mode.reflectOctets then n + 64
      else if mode.symmetricalSize && n > 112 then n else 112
  }

  function SenderBase(mode: TestMode): nat {
    if mode.security == Unauthenticated then SENDER_MIN else SENDER_AUTH_MIN
  }

  /** maxSenderPadding of the server. */
  function MaxSenderPadding(mode: TestMode): uint32 {
    MAX_PACKET_SIZE - SenderBase(mode)
  }

  /** Largest sender packet whose reflection still fits the pool buffer. */
  function ReflectableLimit(mode: TestMode): nat {
    if !mode.reflectOctets then 2048 else if mode.security == Unauthenticated then 2021 else 1984
  }

  /** A padding the server accepts always leaves the sender's own packet within the
      buffer, but with reflect-octets the largest accepted paddings produce packets
      whose reflection does not fit. */
  lemma AcceptedPaddingBound(mode: TestMode, padding: nat)
    requires padding <= MaxSenderPadding(mode)
    ensures var n := SenderBase(mode) + padding;
            && n <= MAX_PACKET_SIZE
            && (ReflectedSize(mode, n) <= MAX_PACKET_SIZE <==> n <= ReflectableLimit(mode))
    ensures mode.reflectOctets ==>
              ReflectedSize(mode, SenderBase(mode) + MaxSenderPadding(mode)) > MAX_PACKET_SIZE
  {
  }

  /** Symmetrical size delivers equal sizes exactly without reflect-octets, from the
      reflector's own minimum on. */
  lemma SymmetricalSizeHolds(mode: TestMode, n: nat)
    requires mode.symmetricalSize
    ensures ReflectedSize(mode, n) == n
            <==> !mode.reflectOctets && n >= if mode.security == Unauthenticated then 41 else 112
  {
  }

  // ---- The whole path ----

  lemma SenderPacketParses(p: Primitives, keys: SessionKeys, mode: TestMode, s: Stamp, random: bytes)
    requires p.DecryptInverts() && SenderBase(mode) + |random| <= MAX_PACKET_SIZE
    ensures var b := BuildPacket(p, keys, mode, s, random);
            && b.Ok? && |b.value| == SenderBase(mode) + |random|
            && var q := ParseSenderPacket(p, keys, mode, b.value);
            && q.Ok? && q.value.stamp == s.OnWire() && |q.value.padding| == |random|
            && q.value.padding == (if mode.security == Unauthenticated && !mode.reflectOctets then Zeros(|random|)
                                   else random)
  {
    var b := BuildPacket(p, keys, mode, s, random);
    if mode.security == Unauthenticated {
      assert b.value[..SENDER_MIN] == PutStamp(s);
      StampInverse(s);
    } else {
      var enc := mode.security == Encrypted;
      var raw := PutWideStamp(s) + Zeros(16) + random;
      UnprotectProtect(p, keys.aes, keys.hmac, keys.clientIV, keys.clientIV, raw, enc, false);
      var plain := Unprotect(p, keys.aes, keys.hmac, keys.clientIV, b.value, enc, false).value;
      assert raw[..32] == PutWideStamp(s) && raw[48..] == random;
      assert plain[..32] == PutWideStamp(s);
      WideStampInverse(s);
    }
  }

  lemma ReflectionParses(p: Primitives, keys: SessionKeys, mode: TestMode, r: Reflection, padding: bytes, enc: bool)
    requires p.DecryptInverts() && mode.security != Unauthenticated && enc == (mode.security == Encrypted)
    ensures var sealed := Protect(p, keys.aes, keys.hmac, keys.serverIV, PutWideReflection(r) + Zeros(16) + padding,
                                  enc, true);
            && sealed.Ok? && |sealed.value| == REFLECTOR_AUTH_MIN + |padding|
            && sealed.value[REFLECTOR_AUTH_MIN..] == padding
            && ParseReflection(p, keys, mode, sealed.value) == Ok(r.OnWire())
  {
    var raw := PutWideReflection(r) + Zeros(16) + padding;
    UnprotectProtect(p, keys.aes, keys.hmac, keys.serverIV, keys.serverIV, raw, enc, true);
    var sealed := Protect(p, keys.aes, keys.hmac, keys.serverIV, raw, enc, true).value;
    var plain := Unprotect(p, keys.aes, keys.hmac, keys.serverIV, sealed, enc, true).value;
    assert raw[..96] == PutWideReflection(r) && raw[112..] == padding;
    assert plain == PutWideReflection(r) + plain[96..] by {
      assert plain == plain[..96] + plain[96..];
    }
    WideReflectionInverse(r, plain[96..]);
  }

  /** End to end, in every mode: the reflector accepts the sender's packet; its answer
      has the size the law gives, ends with the sender's padding under reflect-octets,
      and the sender reads from it what it sent and what the reflector stamped.  The
      only failure is an answer larger than the pool buffer. */
  lemma TestPacketRoundTrip(p: Primitives, keys: SessionKeys, mode: TestMode, s: Stamp, random: bytes,
                            own: Stamp, rx: Timestamp, ttl: uint8, fill: nat -> bytes)
    requires p.DecryptInverts() && |random| <= MaxSenderPadding(mode)
    requires forall n :: |fill(n)| == n
    ensures var b := BuildPacket(p, keys, mode, s, random);
            && b.Ok?
            && var n := |b.value|;
            var r := Reflect(p, keys, mode, b.value, own, rx, ttl, fill);
            && n == SenderBase(mode) + |random|
            && (r == Err(BufferOverrun) <==> n > ReflectableLimit(mode))
            && (n <= ReflectableLimit(mode) ==>
                  && r.Ok? && |r.value| == ReflectedSize(mode, n)
                  && (mode.reflectOctets ==> r.value[|r.value| - |random|..] == random)
                  && ParseReflection(p, keys, mode, r.value) == Ok(Reflection(own.OnWire(), rx, s.OnWire(), ttl)))
    ensures s.OnWire() == s <==> s.errorEstimate.scale < 0x40
  {
    hide PutStamp, PutWideStamp, GetStamp, GetWideStamp, PutReflection, PutWideReflection, GetReflection;
    hide Protect, Unprotect, ToUint16, FromUint16, BuildPacket, ParseSenderPacket;
    SenderPacketParses(p, keys, mode, s, random);
    ErrorEstimateRoundTrip(s.errorEstimate, 0);
    OnWireTwice(s);
    var b := BuildPacket(p, keys, mode, s, random).value;
    var parsed := ParseSenderPacket(p, keys, mode, b).value;
    var padding := ReflectedPadding(mode, |b|, parsed.padding, fill);
    var reflection := Reflection(own, rx, s.OnWire(), ttl);
    if mode.security == Unauthenticated {
      var out := PutReflection(reflection) + padding;
      assert out[REFLECTOR_MIN..] == padding;
      ReflectionInverse(reflection, padding);
    } else {
      ReflectionParses(p, keys, mode, reflection, padding, mode.security == Encrypted);
    }
  }

  /** The same between two ends that hold the same keys whenever the mode uses any. */
  lemma TestPacketBetween(p: Primitives, mine: SessionKeys, theirs: SessionKeys, mode: TestMode, s: Stamp,
                          random: bytes, own: Stamp, rx: Timestamp, ttl: uint8, fill: nat -> bytes)
    requires p.DecryptInverts() && |random| <= MaxSenderPadding(mode)
    requires forall n :: |fill(n)| == n
    requires mode.security != Unauthenticated ==> mine == theirs
    ensures var b := BuildPacket(p, mine, mode, s, random);
            && b.Ok?
            && var n := |b.value|;
            var r := Reflect(p, theirs, mode, b.value, own, rx, ttl, fill);
            && n == SenderBase(mode) + |random|
            && (r == Err(BufferOverrun) <==> n > ReflectableLimit(mode))
            && (n <= ReflectableLimit(mode) ==>
                  && r.Ok? && |r.value| == ReflectedSize(mode, n)
                  && ParseReflection(p, mine, mode, r.value) == Ok(Reflection(own.OnWire(), rx, s.OnWire(), ttl)))
  {
    TestPacketRoundTrip(p, mine, mode, s, random, own, rx, ttl, fill);
    if mode.security == Unauthenticated {
      PlainIgnoresKeys(p, mine, theirs, mode, BuildPacket(p, mine, mode, s, random).value, own, rx, ttl, fill);
    }
  }

  lemma PlainIgnoresKeys(p: Primitives, mine: SessionKeys, theirs: SessionKeys, mode: TestMode, packet: bytes,
                         own: Stamp, rx: Timestamp, ttl: uint8, fill: nat -> bytes)
    requires mode.security == Unauthenticated
    ensures Reflect(p, mine, mode, packet, own, rx, ttl, fill) == Reflect(p, theirs, mode, packet, own, rx, ttl, fill)
  {
  }

  lemma OnWireTwice(s: Stamp)
    ensures s.OnWire().OnWire() == s.OnWire()
  {
    ErrorEstimateRoundTrip(s.OnWire().errorEstimate, 0);
  }
}
