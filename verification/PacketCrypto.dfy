/** Protection of test-packet prefixes: common/hmac.go, the copying functions of
    crypto/crypto.go and the in-place ones of crypto/crypto_inplace.go. */
module PacketCrypto {
  import opened Bytes
  import opened CbcStream

  const HMAC_COVERAGE_AUTHENTICATED := 16
  const HMAC_COVERAGE_SENDER_ENCRYPTED := 32
  const HMAC_COVERAGE_REFLECTOR_ENCRYPTED := 96
  const SENDER_HMAC_OFFSET := 32
  const REFLECTOR_HMAC_OFFSET := 96
  const MIN_SENDER_AUTH_PACKET_SIZE := SENDER_HMAC_OFFSET + 16
  const MIN_REFLECTOR_AUTH_PACKET_SIZE := REFLECTOR_HMAC_OFFSET + 16

  const ZERO_IV: Block := Zeros(16)

  function HMACCoverage(isEncrypted: bool, isReflector: bool): (n: nat)
    ensures n % 16 == 0 && n <= HmacOffset(isReflector)
    ensures isEncrypted <==> n == HmacOffset(isReflector)
    ensures !isEncrypted ==> n == 16
  {
    if !isEncrypted then HMAC_COVERAGE_AUTHENTICATED
    else if isReflector then HMAC_COVERAGE_REFLECTOR_ENCRYPTED
    else HMAC_COVERAGE_SENDER_ENCRYPTED
  }

  function HmacOffset(isReflector: bool): nat {
    if isReflector then REFLECTOR_HMAC_OFFSET else SENDER_HMAC_OFFSET
  }

  function MinAuthSize(isReflector: bool): nat {
    if isReflector then MIN_REFLECTOR_AUTH_PACKET_SIZE else MIN_SENDER_AUTH_PACKET_SIZE
  }

  /** The checks both directions make before touching the packet. */
  function CheckSizes(key: bytes, iv: bytes, size: nat, isReflector: bool): Check {
    if |key| != 16 then Fail(InvalidKeyLength)
    else if |iv| != 16 || size < MinAuthSize(isReflector) then Fail(InvalidBlockSize)
    else Pass
  }

  /** The copying versions: one ECB block in authenticated mode, otherwise CBC from a
      zero vector over the part the MAC covers in encrypted mode. */
  function EncryptTestPacket(p: Primitives, key: bytes, iv: bytes, packet: bytes,
                             isAuthenticated: bool, isReflector: bool): Result<bytes>
  {
    match CheckSizes(key, iv, |packet|, isReflector)
    case Fail(e) => Err(e)
    case Pass =>
      if isAuthenticated then
        Ok(p.encrypt(key, packet[..16]) + packet[16..])
      else
        var n := HMACCoverage(true, isReflector);
        Ok(CbcEncrypt(p, key, ZERO_IV, packet[..n]) + packet[n..])
  }

  function DecryptTestPacket(p: Primitives, key: bytes, iv: bytes, packet: bytes,
                             isAuthenticated: bool, isReflector: bool): Result<bytes>
  {
    match CheckSizes(key, iv, |packet|, isReflector)
    case Fail(e) => Err(e)
    case Pass =>
      if isAuthenticated then
        Ok(p.decrypt(key, packet[..16]) + packet[16..])
      else
        var n := HMACCoverage(true, isReflector);
        Ok(CbcDecrypt(p, key, ZERO_IV, packet[..n]) + packet[n..])
  }

  /** How many bytes of a packet are encrypted: 16, 32 or 96. */
  function EncryptedPrefix(isAuthenticated: bool, isReflector: bool): (n: nat)
    ensures n in {16, 32, 96} && n <= HmacOffset(isReflector)
  {
    HMACCoverage(!isAuthenticated, isReflector)
  }

  /** What is encrypted and decrypted at all: packets with room for a MAC after byte 32
      or 96, under a key and a vector of 16 bytes. */
  lemma SizesExact(p: Primitives, key: bytes, iv: bytes, packet: bytes, isAuthenticated: bool, isReflector: bool)
    ensures var least := if isReflector then 112 else 48;
            var e := EncryptTestPacket(p, key, iv, packet, isAuthenticated, isReflector);
            var d := DecryptTestPacket(p, key, iv, packet, isAuthenticated, isReflector);
            if |key| != 16 then e == d == Err(InvalidKeyLength)
            else if |iv| != 16 || |packet| < least then e == d == Err(InvalidBlockSize)
            else e.Ok? && d.Ok? && |e.value| == |d.value| == |packet|
  {
    hide CbcEncrypt, CbcDecrypt;
  }

  /** Both directions keep the size and every byte after the prefix, whatever the
      packet holds; the MAC and all before it but the prefix are among those bytes. */
  lemma PrefixOnly(p: Primitives, key: bytes, iv: bytes, packet: bytes, isAuthenticated: bool, isReflector: bool)
    requires |key| == 16 && |iv| == 16 && MinAuthSize(isReflector) <= |packet|
    ensures var n := EncryptedPrefix(isAuthenticated, isReflector);
            var e := EncryptTestPacket(p, key, iv, packet, isAuthenticated, isReflector);
            var d := DecryptTestPacket(p, key, iv, packet, isAuthenticated, isReflector);
            && e.Ok? && |e.value| == |packet| && e.value[n..] == packet[n..]
            && d.Ok? && |d.value| == |packet| && d.value[n..] == packet[n..]
  {
  }

  /** Decryption undoes encryption for every packet of sufficient size, and only the
      encrypted prefix changes in between. */
  lemma DecryptEncryptPacket(p: Primitives, key: bytes, iv: bytes, packet: bytes,
                             isAuthenticated: bool, isReflector: bool)
    requires p.DecryptInverts()
    requires |key| == 16 && |iv| == 16 && MinAuthSize(isReflector) <= |packet|
    ensures var n := EncryptedPrefix(isAuthenticated, isReflector);
            var e := EncryptTestPacket(p, key, iv, packet, isAuthenticated, isReflector);
            && e.Ok? && |e.value| == |packet| && e.value[n..] == packet[n..]
            && DecryptTestPacket(p, key, iv, e.value, isAuthenticated, isReflector) == Ok(packet)
  {
    PrefixOnly(p, key, iv, packet, isAuthenticated, isReflector);
    var e := EncryptTestPacket(p, key, iv, packet, isAuthenticated, isReflector).value;
    var n := EncryptedPrefix(isAuthenticated, isReflector);
    assert packet[..n] + packet[n..] == packet;
    if isAuthenticated {
      var b: Block := packet[..16];
      assert e[..16] == p.encrypt(key, b);
      assert p.decrypt(key, p.encrypt(key, b)) == b;
    } else {
      assert e[..n] == CbcEncrypt(p, key, ZERO_IV, packet[..n]);
      DecryptEncrypt(p, key, ZERO_IV, packet[..n]);
    }
  }

  /** cipher.Block and cipher.BlockMode write their result over their input. */
  method Overwrite(packet: array<uint8>, prefix: bytes)
    requires |prefix| <= packet.Length
    modifies packet
    ensures packet[..] == prefix + old(packet[..])[|prefix|..]
  {
    forall i | 0 <= i < |prefix| {
      packet[i] := prefix[i];
    }
  }

  method EncryptTestPacketInPlace(p: Primitives, key: bytes, iv: bytes, packet: array<uint8>,
                                  isAuthenticated: bool, isReflector: bool)
    returns (err: Option<Error>)
    modifies packet
    ensures match EncryptTestPacket(p, key, iv, old(packet[..]), isAuthenticated, isReflector)
            case Ok(out) => err == None && packet[..] == out
            case Err(e) => err == Some(e) && packet[..] == old(packet[..])
  {
    if |key| != 16 {
      return Some(InvalidKeyLength);
    }
    if |iv| != 16 {
      return Some(InvalidBlockSize);
    }
    if isAuthenticated {
      var minSize := MIN_SENDER_AUTH_PACKET_SIZE;
      if isReflector {
        minSize := MIN_REFLECTOR_AUTH_PACKET_SIZE;
      }
      if packet.Length < minSize {
        return Some(InvalidBlockSize);
      }
      Overwrite(packet, p.encrypt(key, packet[..16]));
    } else {
      var encryptLen, minSize := HMAC_COVERAGE_SENDER_ENCRYPTED, MIN_SENDER_AUTH_PACKET_SIZE;
      if isReflector {
        encryptLen, minSize := HMAC_COVERAGE_REFLECTOR_ENCRYPTED, MIN_REFLECTOR_AUTH_PACKET_SIZE;
      }
      if packet.Length < minSize {
        return Some(InvalidBlockSize);
      }
      Overwrite(packet, CbcEncrypt(p, key, ZERO_IV, packet[..encryptLen]));
    }
    return None;
  }

  method DecryptTestPacketInPlace(p: Primitives, key: bytes, iv: bytes, packet: array<uint8>,
                                  isAuthenticated: bool, isReflector: bool)
    returns (err: Option<Error>)
    modifies packet
    ensures match DecryptTestPacket(p, key, iv, old(packet[..]), isAuthenticated, isReflector)
            case Ok(out) => err == None && packet[..] == out
            case Err(e) => err == Some(e) && packet[..] == old(packet[..])
  {
    if |key| != 16 {
      return Some(InvalidKeyLength);
    }
    if |iv| != 16 {
      return Some(InvalidBlockSize);
    }
    if isAuthenticated {
      var minSize := MIN_SENDER_AUTH_PACKET_SIZE;
      if isReflector {
        minSize := MIN_REFLECTOR_AUTH_PACKET_SIZE;
      }
      if packet.Length < minSize {
        return Some(InvalidBlockSize);
      }
      Overwrite(packet, p.decrypt(key, packet[..16]));
    } else {
      var encryptLen, minSize := HMAC_COVERAGE_SENDER_ENCRYPTED, MIN_SENDER_AUTH_PACKET_SIZE;
      if isReflector {
        encryptLen, minSize := HMAC_COVERAGE_REFLECTOR_ENCRYPTED, MIN_REFLECTOR_AUTH_PACKET_SIZE;
      }
      if packet.Length < minSize {
        return Some(InvalidBlockSize);
      }
      Overwrite(packet, CbcDecrypt(p, key, ZERO_IV, packet[..encryptLen]));
    }
    return None;
  }

  /** A packet encrypted and decrypted in the same buffer ends as it began. */
  method RoundTripInPlace(p: Primitives, key: bytes, iv: bytes, packet: array<uint8>,
                          isAuthenticated: bool, isReflector: bool)
    returns (err: Option<Error>)
    requires p.DecryptInverts()
    requires |key| == 16 && |iv| == 16 && MinAuthSize(isReflector) <= packet.Length
    modifies packet
    ensures err == None && packet[..] == old(packet[..])
  {
    DecryptEncryptPacket(p, key, iv, packet[..], isAuthenticated, isReflector);
    err := EncryptTestPacketInPlace(p, key, iv, packet, isAuthenticated, isReflector);
    err := DecryptTestPacketInPlace(p, key, iv, packet, isAuthenticated, isReflector);
  }
}
