/** The Marshal methods of messages/test.go and messages/test_rfc6038.go: a slice of a
    pooled buffer is cleared and written in place.  Whatever packet the buffer held
    before, the slice ends up as the packet's layout and the bytes beyond it stay. */
module PooledPackets {
  import opened Buffers
  import opened Bytes
  import opened CbcStream
  import opened TestPackets

  /** Sequence number, timestamp and error estimate, side by side. */
  method StampInto(buf: array<uint8>, size: nat, offset: nat, s: Stamp, ghost w: bytes)
    requires Holds(buf, size, w) && |w| == offset && offset + 14 <= size
    modifies buf
    ensures Holds(buf, size, w + PutStamp(s)) && buf[size..] == old(buf[size..])
  {
    var a, b, c := PutUint32(s.seqNo), PutTimestamp(s.timestamp), PutUint16(ToUint16(s.errorEstimate));
    CopyInto(buf, size, offset, a, w);
    CopyInto(buf, size, offset + 4, b, w + a);
    CopyInto(buf, size, offset + 12, c, w + a + b);
    assert w + a + b + c == w + (a + b + c);
  }

  /** The same spread over 32 bytes. */
  method WideStampInto(buf: array<uint8>, size: nat, offset: nat, s: Stamp, ghost w: bytes)
    requires Holds(buf, size, w) && |w| == offset && offset + 32 <= size
    modifies buf
    ensures Holds(buf, size, w + PutWideStamp(s)) && buf[size..] == old(buf[size..])
  {
    var a, b, c := PutUint32(s.seqNo), PutTimestamp(s.timestamp), PutUint16(ToUint16(s.errorEstimate));
    CopyInto(buf, size, offset, a, w);
    Skip(buf, size, w + a, 12);
    CopyInto(buf, size, offset + 16, b, w + a + Zeros(12));
    CopyInto(buf, size, offset + 24, c, w + a + Zeros(12) + b);
    Skip(buf, size, w + a + Zeros(12) + b + c, 6);
    assert w + a + Zeros(12) + b + c + Zeros(6) == w + (a + Zeros(12) + b + c + Zeros(6));
  }

  /** SenderTestPacket. */
  method MarshalSender(buf: array<uint8>, s: Stamp, paddingSize: nat)
    requires buf.Length == POOL_SIZE && SENDER_MIN + paddingSize <= POOL_SIZE
    modifies buf
    ensures buf[..SENDER_MIN + paddingSize] == PutStamp(s) + Zeros(paddingSize)
    ensures buf[SENDER_MIN + paddingSize..] == old(buf[SENDER_MIN + paddingSize..])
  {
    Clear(buf, SENDER_MIN + paddingSize);
    StampInto(buf, SENDER_MIN + paddingSize, 0, s, []);
    assert [] + PutStamp(s) == PutStamp(s);
  }

  /** SenderTestPacketReflectOctets; `padding` is given or random. */
  method MarshalSenderReflectOctets(buf: array<uint8>, s: Stamp, padding: bytes)
    requires buf.Length == POOL_SIZE && SENDER_MIN + |padding| <= POOL_SIZE
    modifies buf
    ensures buf[..SENDER_MIN + |padding|] == PutStamp(s) + padding
    ensures buf[SENDER_MIN + |padding|..] == old(buf[SENDER_MIN + |padding|..])
  {
    var size := SENDER_MIN + |padding|;
    Clear(buf, size);
    StampInto(buf, size, 0, s, []);
    assert [] + PutStamp(s) == PutStamp(s);
    CopyInto(buf, size, SENDER_MIN, padding, PutStamp(s));
  }

  /** SenderTestPacketAuth and its reflect-octets form. */
  method MarshalSenderAuth(buf: array<uint8>, s: Stamp, hmac: Block, padding: bytes)
    requires buf.Length == POOL_SIZE && SENDER_AUTH_MIN + |padding| <= POOL_SIZE
    modifies buf
    ensures buf[..SENDER_AUTH_MIN + |padding|] == PutWideStamp(s) + hmac + padding
    ensures buf[SENDER_AUTH_MIN + |padding|..] == old(buf[SENDER_AUTH_MIN + |padding|..])
  {
    var size := SENDER_AUTH_MIN + |padding|;
    Clear(buf, size);
    WideStampInto(buf, size, 0, s, []);
    assert [] + PutWideStamp(s) == PutWideStamp(s);
    CopyInto(buf, size, 32, hmac, PutWideStamp(s));
    CopyInto(buf, size, SENDER_AUTH_MIN, padding, PutWideStamp(s) + hmac);
  }

  /** The fields of a plain reflection. */
  method ReflectionInto(buf: array<uint8>, size: nat, r: Reflection)
    requires Holds(buf, size, []) && REFLECTOR_MIN <= size
    modifies buf
    ensures Holds(buf, size, PutReflection(r)) && buf[size..] == old(buf[size..])
  {
    StampInto(buf, size, 0, r.own, []);
    ghost var w := [] + PutStamp(r.own) + Zeros(2);
    Skip(buf, size, [] + PutStamp(r.own), 2);
    CopyInto(buf, size, 16, PutTimestamp(r.receiveTimestamp), w);
    StampInto(buf, size, 24, r.sender, w + PutTimestamp(r.receiveTimestamp));
    Skip(buf, size, w + PutTimestamp(r.receiveTimestamp) + PutStamp(r.sender), 2);
    CopyInto(buf, size, 40, [r.senderTTL], w + PutTimestamp(r.receiveTimestamp) + PutStamp(r.sender) + Zeros(2));
    assert w + PutTimestamp(r.receiveTimestamp) + PutStamp(r.sender) + Zeros(2) + [r.senderTTL] == PutReflection(r);
  }

  /** ReflectorTestPacket, with zero padding. */
  method MarshalReflector(buf: array<uint8>, r: Reflection, paddingSize: nat)
    requires buf.Length == POOL_SIZE && REFLECTOR_MIN + paddingSize <= POOL_SIZE
    modifies buf
    ensures buf[..REFLECTOR_MIN + paddingSize] == PutReflection(r) + Zeros(paddingSize)
    ensures buf[REFLECTOR_MIN + paddingSize..] == old(buf[REFLECTOR_MIN + paddingSize..])
  {
    Clear(buf, REFLECTOR_MIN + paddingSize);
    ReflectionInto(buf, REFLECTOR_MIN + paddingSize, r);
  }

  /** ReflectorTestPacketReflectOctets. */
  method MarshalReflectorReflectOctets(buf: array<uint8>, r: Reflection, padding: bytes)
    requires buf.Length == POOL_SIZE && REFLECTOR_MIN + |padding| <= POOL_SIZE
    modifies buf
    ensures buf[..REFLECTOR_MIN + |padding|] == PutReflection(r) + padding
    ensures buf[REFLECTOR_MIN + |padding|..] == old(buf[REFLECTOR_MIN + |padding|..])
  {
    var size := REFLECTOR_MIN + |padding|;
    Clear(buf, size);
    ReflectionInto(buf, size, r);
    CopyInto(buf, size, REFLECTOR_MIN, padding, PutReflection(r));
  }

  /** ReflectorTestPacketAuth and its reflect-octets form. */
  method MarshalReflectorAuth(buf: array<uint8>, r: Reflection, hmac: Block, padding: bytes)
    requires buf.Length == POOL_SIZE && REFLECTOR_AUTH_MIN + |padding| <= POOL_SIZE
    modifies buf
    ensures buf[..REFLECTOR_AUTH_MIN + |padding|] == PutWideReflection(r) + hmac + padding
    ensures buf[REFLECTOR_AUTH_MIN + |padding|..] == old(buf[REFLECTOR_AUTH_MIN + |padding|..])
  {
    var size := REFLECTOR_AUTH_MIN + |padding|;
    Clear(buf, size);
    WideReflectionInto(buf, size, r);
    CopyInto(buf, size, 96, hmac, PutWideReflection(r));
    CopyInto(buf, size, REFLECTOR_AUTH_MIN, padding, PutWideReflection(r) + hmac);
  }

  method WideReflectionInto(buf: array<uint8>, size: nat, r: Reflection)
    requires Holds(buf, size, []) && REFLECTOR_AUTH_MIN <= size
    modifies buf
    ensures Holds(buf, size, PutWideReflection(r)) && buf[size..] == old(buf[size..])
  {
    WideStampInto(buf, size, 0, r.own, []);
    ghost var w := [] + PutWideStamp(r.own);
    CopyInto(buf, size, 32, PutTimestamp(r.receiveTimestamp), w);
    ghost var v := w + PutTimestamp(r.receiveTimestamp) + Zeros(8);
    Skip(buf, size, w + PutTimestamp(r.receiveTimestamp), 8);
    WideStampInto(buf, size, 48, r.sender, v);
    CopyInto(buf, size, 80, [r.senderTTL], v + PutWideStamp(r.sender));
    Skip(buf, size, v + PutWideStamp(r.sender) + [r.senderTTL], 15);
    assert v + PutWideStamp(r.sender) + [r.senderTTL] + Zeros(15) == PutWideReflection(r);
  }
}
