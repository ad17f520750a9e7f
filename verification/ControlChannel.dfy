/** How commands and replies travel on a control connection: framing, the MAC in the
    last 16 bytes, the CBC streams, and the one reply whose MAC also covers the
    Server-Start message (client/client.go, server/server.go; sections 3.4 and 3.5 of
    RFC 4656). */
module ControlChannel {
  import opened Bytes
  import opened CbcStream
  import opened TestPackets
  import opened ControlMessages

  // ---- Framing ----

  /** controlCommandLength, on a platform whose int has 64 bits. */
  function CommandLength(cmd: uint8, header: bytes): (r: Result<nat>)
    ensures r.Ok? ==> r.value >= 32 && r.value % 16 == 0
    ensures r.Ok? <==> cmd in {2, 3, 5, 6} || (cmd == 4 && |header| >= 8)
    ensures r == Err(UnknownCommand) <==> !(2 <= cmd <= 6)
  {
    if cmd == CMD_REQUEST_TW_SESSION || cmd == CMD_REQUEST_TW_SESSION_INDIVIDUAL then Ok(112)
    else if cmd == CMD_START_SESSIONS || cmd == CMD_STOP_SESSIONS then Ok(32)
    else if cmd == CMD_STOP_N_SESSIONS then
      if |header| < 8 then Err(InvalidMessageLength) else Ok(16 + Uint32(header[4..8]) as int * 16 + 16)
    else Err(UnknownCommand)
  }

  /** A complete command, as far as its length goes. */
  predicate IsFrame(b: bytes) {
    |b| >= 32 && |b| % 16 == 0 && CommandLength(b[0], b[..16]) == Ok(|b|)
  }

  /** readPlainCommand: the next command and what remains of the stream. */
  function ReadPlain(stream: bytes): (r: Result<(bytes, bytes)>)
    ensures r.Ok? ==> |r.value.0| >= 32 && stream == r.value.0 + r.value.1 && IsFrame(r.value.0)
  {
    if |stream| < 1 then Err(EndOfStream) else
    :- Need(stream[0] == CMD_STOP_N_SESSIONS ==> |stream| >= 16, EndOfStream);
    var n :- CommandLength(stream[0], if stream[0] == CMD_STOP_N_SESSIONS then stream[..16] else stream[..1]);
    :- Need(|stream| >= n, EndOfStream);
    assert stream[..n][..16] == stream[..16];
    Ok((stream[..n], stream[n..]))
  }

  lemma ReadPlainFrame(cmd: bytes, rest: bytes)
    requires IsFrame(cmd)
    ensures ReadPlain(cmd + rest) == Ok((cmd, rest))
  {
    var s, n := cmd + rest, |cmd|;
    assert s[..16] == cmd[..16] && s[..n] == cmd && s[n..] == rest;
  }

  /** Reading until the stream is used up. */
  function ReadAllPlain(stream: bytes): Result<seq<bytes>>
    decreases |stream|
  {
    if stream == [] then Ok([]) else
      var next :- ReadPlain(stream);
      var more :- ReadAllPlain(next.1);
      Ok([next.0] + more)
  }

  /** Framing inverts sending: any sequence of commands, written one after the other,
      is read back as exactly those commands, with nothing left over. */
  lemma {:induction false} FramingInverse(cmds: seq<bytes>)
    requires forall i :: 0 <= i < |cmds| ==> IsFrame(cmds[i])
    ensures ReadAllPlain(Flatten(cmds)) == Ok(cmds)
    decreases |cmds|
  {
    if cmds != [] {
      ReadPlainFrame(cmds[0], Flatten(cmds[1..]));
      FramingInverse(cmds[1..]);
      assert Flatten(cmds) == cmds[0] + Flatten(cmds[1..]) != [];
      assert [cmds[0]] + cmds[1..] == cmds;
    }
  }

  lemma StopNIsFrame(m: StopN, hmac: bool)
    requires m.command == CMD_STOP_N_SESSIONS
    ensures IsFrame(EncodeStopN(m, hmac))
  {
    var h, b := StopHeader(m.command, m.accept, m.numSessions), EncodeStopN(m, hmac);
    StopHeaderInverse(m.command, m.accept, m.numSessions, h);
    assert b[..16] == h && b[0] == h[0];
    assert CommandLength(b[0], h) == Ok(|b|);
    var n: int := m.numSessions;
    assert (32 + 16 * n) % 16 == 0;
  }

  /** Every command the clients marshal is a frame of its announced length. */
  lemma CommandsAreFrames(r: Request, start: Short, stop: StopSessions, stopN: StopN, hmac: bool)
    requires r.command == CMD_REQUEST_TW_SESSION && start.code == CMD_START_SESSIONS
    requires stop.command == CMD_STOP_SESSIONS && stopN.command == CMD_STOP_N_SESSIONS
    ensures IsFrame(EncodeRequest(r, hmac)) && IsFrame(EncodeIndividual(r, hmac))
    ensures IsFrame(EncodeShort(start, hmac)) && IsFrame(EncodeStop(stop, hmac)) && IsFrame(EncodeStopN(stopN, hmac))
  {
    StopNIsFrame(stopN, hmac);
  }

  // ---- Protection ----

  /** What both ends share, and whether the connection is secured at all. */
  datatype Protection = Protection(p: Primitives, secured: bool, aes: Block, hmac: HmacKey, serverStart: bytes)

  /** One end: the vectors of its two streams and the Server-Start flag. */
  datatype Endpoint = Endpoint(sendIV: Block, recvIV: Block, pending: bool)

  /** A message with its last 16 bytes filled in by the sender. */
  function Finish(x: Protection, prefix: bytes, message: bytes): (m: bytes)
    requires |message| >= 16
    ensures |m| == |message|
  {
    var body := message[..|message| - 16];
    body + if x.secured then x.p.mac(x.hmac, prefix + body) else Zeros(16)
  }

  function Cover(x: Protection, e: Endpoint): bytes {
    if e.pending then x.serverStart else []
  }

  /** What goes over the wire for a finished message, and the vector afterwards. */
  function Seal(x: Protection, iv: Block, m: bytes): (bytes, Block)
    requires Aligned(m)
  {
    if x.secured then
      var c := CbcEncrypt(x.p, x.aes, iv, m);
      (c, NextIV(iv, c))
    else
      (m, iv)
  }

  /** The client's sendControlMessage. */
  function ClientSend(x: Protection, client: Endpoint, message: bytes): (bytes, Endpoint)
    requires |message| >= 16 && Aligned(message)
  {
    var s := Seal(x, client.sendIV, Finish(x, [], message));
    (s.0, client.(sendIV := s.1))
  }

  /** The server's sendControlMessage, with the prefix and flag of its two callers. */
  function ServerSend(x: Protection, server: Endpoint, message: bytes): (bytes, Endpoint)
    requires |message| >= 16 && Aligned(message)
  {
    var s := Seal(x, server.sendIV, Finish(x, Cover(x, server), message));
    (s.0, server.(sendIV := s.1, pending := server.pending && !x.secured))
  }

  datatype Received = Received(message: bytes, end: Endpoint, rest: bytes)

  /** Reading the first block of a command tells how long the command is. */
  function OpenFirst(x: Protection, iv: Block, stream: bytes): (r: Result<(bytes, nat)>)
    ensures r.Ok? ==> |r.value.0| == 16 <= |stream| && r.value.1 >= 32 && (r.value.1 - 16) % 16 == r.value.1 % 16 == 0
  {
    if |stream| < 16 then Err(EndOfStream) else
    var first := CbcDecrypt(x.p, x.aes, iv, stream[..16]);
    var n :- CommandLength(first[0], first);
    if n % 16 != 0 then Err(InvalidMessageLength) else Ok((first, n))
  }

  /** Whether a message ends in the MAC of a prefix and of all before its end. */
  predicate Verifies(x: Protection, prefix: bytes, m: bytes)
    requires |m| >= 16
  {
    x.p.mac(x.hmac, prefix + m[..|m| - 16]) == m[|m| - 16..]
  }

  /** readEncryptedCommand: one block first, then the rest, then the MAC. */
  function OpenCommand(x: Protection, iv: Block, stream: bytes): (r: Result<(bytes, Block, bytes)>)
    ensures r.Ok? ==> |r.value.0| >= 32
  {
    var first :- OpenFirst(x, iv, stream);
    if |stream| < first.1 then Err(EndOfStream) else
      var c := stream[..first.1];
      var cmd := first.0 + CbcDecrypt(x.p, x.aes, c[..16], c[16..]);
      if Verifies(x, [], cmd) then Ok((cmd, NextIV(iv, c), stream[first.1..])) else Err(HMACVerificationFailed)
  }

  /** readCommand of the server. */
  function ServerReceive(x: Protection, server: Endpoint, stream: bytes): (r: Result<Received>)
    ensures r.Ok? ==> |r.value.message| >= 32
  {
    if x.secured then
      var r :- OpenCommand(x, server.recvIV, stream);
      Ok(Received(r.0, server.(recvIV := r.1), r.2))
    else
      var r :- ReadPlain(stream);
      Ok(Received(r.0, server, r.1))
  }

  /** receiveAndVerify of the client, for a reply of known length. */
  function ClientReceive(x: Protection, client: Endpoint, n: nat, stream: bytes): Result<Received>
    requires n >= 16 && n % 16 == 0
  {
    if |stream| < n then Err(EndOfStream) else
    var c := stream[..n];
    if !x.secured then
      :- Need(AllZero(c[n - 16..]), InvalidMBZ);
      Ok(Received(c, client, stream[n..]))
    else
      var reply := CbcDecrypt(x.p, x.aes, client.recvIV, c);
      :- Need(Verifies(x, Cover(x, client), reply), HMACVerificationFailed);
      Ok(Received(reply, client.(recvIV := NextIV(client.recvIV, c), pending := false), stream[n..]))
  }

  /** The ends agree: each decrypts where the other encrypts, and both or neither
      still expect the Server-Start prefix. */
  predicate Agree(client: Endpoint, server: Endpoint) {
    client.sendIV == server.recvIV && server.sendIV == client.recvIV && client.pending == server.pending
  }

  /** Decrypting the first block on its own and the rest after it gives the message. */
  lemma TwoPieces(x: Protection, iv: Block, m: bytes)
    requires x.p.DecryptInverts() && Aligned(m) && |m| >= 32
    ensures var c := CbcEncrypt(x.p, x.aes, iv, m);
            && CbcDecrypt(x.p, x.aes, iv, c[..16]) == m[..16]
            && CbcDecrypt(x.p, x.aes, c[..16], c[16..]) == m[16..]
  {
    var c := CbcEncrypt(x.p, x.aes, iv, m);
    DecryptEncrypt(x.p, x.aes, iv, m);
    assert c == c[..16] + c[16..];
    DecryptConcat(x.p, x.aes, iv, c[..16], c[16..]);
    var first, second := CbcDecrypt(x.p, x.aes, iv, c[..16]), CbcDecrypt(x.p, x.aes, c[..16], c[16..]);
    assert m == first + second;
  }

  /** The reader, step by step. */
  lemma OpenByPieces(x: Protection, iv: Block, s: bytes)
    ensures match OpenFirst(x, iv, s)
            case Err(e) => OpenCommand(x, iv, s) == Err(e)
            case Ok((first, n)) =>
              if |s| < n then OpenCommand(x, iv, s) == Err(EndOfStream)
              else
                var m := first + CbcDecrypt(x.p, x.aes, s[..16], s[16..n]);
                OpenCommand(x, iv, s) ==
                if x.p.mac(x.hmac, m[..n - 16]) == m[n - 16..] then Ok((m, s[n - 16..n], s[n..]))
                else Err(HMACVerificationFailed)
  {
    hide CbcDecrypt, OpenFirst;
    var first := OpenFirst(x, iv, s);
    if first.Ok? && |s| >= first.value.1 {
      var n := first.value.1;
      var c := s[..n];
      assert c[..16] == s[..16] && c[16..] == s[16..n] && c[n - 16..] == s[n - 16..n];
      var m := first.value.0 + CbcDecrypt(x.p, x.aes, c[..16], c[16..]);
      assert [] + m[..n - 16] == m[..n - 16];
    }
  }

  /** What is read from any sealed message of the right length: the message when its last
      block is the MAC of the rest, and an error otherwise. */
  lemma SealedRead(x: Protection, iv: Block, m: bytes, rest: bytes)
    requires x.p.DecryptInverts() && IsFrame(m)
    ensures var c := CbcEncrypt(x.p, x.aes, iv, m);
            OpenCommand(x, iv, c + rest) ==
            if x.p.mac(x.hmac, m[..|m| - 16]) == m[|m| - 16..] then Ok((m, c[|c| - 16..], rest))
            else Err(HMACVerificationFailed)
  {
    var n, c := |m|, CbcEncrypt(x.p, x.aes, iv, m);
    var s := c + rest;
    assert s[..16] == c[..16] && s[16..n] == c[16..] && s[n - 16..n] == c[n - 16..] && s[n..] == rest;
    TwoPieces(x, iv, m);
    OpenByPieces(x, iv, s);
    hide CbcEncrypt, CbcDecrypt, OpenCommand;
    assert m[..16] + m[16..] == m;
  }

  /** Whatever bytes arrive, a command delivered ends in the MAC of what precedes it, is
      the decryption of the bytes consumed, and has the length it announces. */
  lemma OnlyAuthentic(x: Protection, iv: Block, stream: bytes)
    requires OpenCommand(x, iv, stream).Ok?
    ensures var (m, next, rest) := OpenCommand(x, iv, stream).value;
            && |m| <= |stream| && rest == stream[|m|..] && next == stream[|m| - 16..|m|]
            && IsFrame(m) && m == CbcDecrypt(x.p, x.aes, iv, stream[..|m|])
            && x.p.mac(x.hmac, m[..|m| - 16]) == m[|m| - 16..]
  {
    var (m, next, rest) := OpenCommand(x, iv, stream).value;
    var n := OpenFirst(x, iv, stream).value.1;
    var c := stream[..n];
    assert c == c[..16] + c[16..] && c[..16] == stream[..16];
    DecryptConcat(x.p, x.aes, iv, c[..16], c[16..]);
    assert m[..16] == OpenFirst(x, iv, stream).value.0;
    assert [] + m[..n - 16] == m[..n - 16];
  }

  /** The same for readCommand, on either kind of connection. */
  lemma CommandRead(x: Protection, server: Endpoint, m: bytes, rest: bytes)
    requires x.p.DecryptInverts() && IsFrame(m)
    ensures x.secured ==>
              var c := CbcEncrypt(x.p, x.aes, server.recvIV, m);
              ServerReceive(x, server, c + rest) ==
              if x.p.mac(x.hmac, m[..|m| - 16]) == m[|m| - 16..] then
                Ok(Received(m, server.(recvIV := c[|c| - 16..]), rest))
              else
                Err(HMACVerificationFailed)
    ensures !x.secured ==> ServerReceive(x, server, m + rest) == Ok(Received(m, server, rest))
  {
    if x.secured {
      SealedRead(x, server.recvIV, m, rest);
    } else {
      ReadPlainFrame(m, rest);
    }
  }

  /** What the client makes of any reply of the length it expects.  Until the first
      reply has been accepted the MAC covers the Server-Start message as well. */
  lemma ReplyRead(x: Protection, client: Endpoint, m: bytes, rest: bytes)
    requires x.p.DecryptInverts() && |m| >= 16 && Aligned(m)
    ensures x.secured ==>
              var c := CbcEncrypt(x.p, x.aes, client.recvIV, m);
              var covered := (if client.pending then x.serverStart else []) + m[..|m| - 16];
              ClientReceive(x, client, |m|, c + rest) ==
              if x.p.mac(x.hmac, covered) == m[|m| - 16..] then
                Ok(Received(m, client.(recvIV := c[|c| - 16..], pending := false), rest))
              else
                Err(HMACVerificationFailed)
    ensures !x.secured ==>
              ClientReceive(x, client, |m|, m + rest) ==
              if m[|m| - 16..] == Zeros(16) then Ok(Received(m, client, rest)) else Err(InvalidMBZ)
  {
    var n, c := |m|, if x.secured then CbcEncrypt(x.p, x.aes, client.recvIV, m) else m;
    var s := c + rest;
    assert s[..n] == c && s[n..] == rest;
    DecryptEncrypt(x.p, x.aes, client.recvIV, m);
    AllZeroIsZeros(m[n - 16..]);
  }

  /** What the two ends put on the wire for a message: all but its last block, then the
      MAC or zeros; the server's first MAC on a secured connection, and no other, covers
      the Server-Start message. */
  lemma MessagesSealed(x: Protection, end: Endpoint, message: bytes)
    requires |message| >= 16 && Aligned(message)
    ensures var body := message[..|message| - 16];
            var command := body + x.p.mac(x.hmac, body);
            var reply := body + x.p.mac(x.hmac, (if end.pending then x.serverStart else []) + body);
            && ClientSend(x, end, message).0 ==
               (if x.secured then CbcEncrypt(x.p, x.aes, end.sendIV, command) else body + Zeros(16))
            && ServerSend(x, end, message).0 ==
               (if x.secured then CbcEncrypt(x.p, x.aes, end.sendIV, reply) else body + Zeros(16))
            && ClientSend(x, end, message).1.pending == end.pending
            && ServerSend(x, end, message).1.pending == (end.pending && !x.secured)
  {
    assert [] + message[..|message| - 16] == message[..|message| - 16];
  }

  lemma OpenSealed(x: Protection, iv: Block, message: bytes, rest: bytes)
    requires x.p.DecryptInverts() && x.secured && IsFrame(message)
    ensures var m := Finish(x, [], message);
            var c := CbcEncrypt(x.p, x.aes, iv, m);
            OpenCommand(x, iv, c + rest) == Ok((m, NextIV(iv, c), rest))
  {
    var m, n := Finish(x, [], message), |message|;
    assert m[..16] == message[..16] && m[..n - 16] == message[..n - 16] == [] + message[..n - 16];
    SealedRead(x, iv, m, rest);
  }

  /** A command the client sends arrives as finished, whatever follows it on the wire,
      and the ends still agree. */
  lemma CommandArrives(x: Protection, client: Endpoint, server: Endpoint, message: bytes, rest: bytes)
    requires x.p.DecryptInverts() && Agree(client, server) && IsFrame(message)
    ensures var sent := ClientSend(x, client, message);
            var got := ServerReceive(x, server, sent.0 + rest);
            && got.Ok? && got.value.message == Finish(x, [], message) && got.value.rest == rest
            && Agree(sent.1, got.value.end)
  {
    var m := Finish(x, [], message);
    if x.secured {
      OpenSealed(x, client.sendIV, message, rest);
    } else {
      assert m[..16] == message[..16];
      ReadPlainFrame(m, rest);
    }
  }

  /** A reply of the server passes the client's checks, including the first one, whose
      MAC covers the Server-Start message as well. */
  lemma ReplyArrives(x: Protection, client: Endpoint, server: Endpoint, message: bytes, rest: bytes)
    requires x.p.DecryptInverts() && Agree(client, server) && |message| >= 16 && Aligned(message)
    ensures var sent := ServerSend(x, server, message);
            var got := ClientReceive(x, client, |message|, sent.0 + rest);
            && got.Ok? && got.value.message == Finish(x, Cover(x, server), message) && got.value.rest == rest
            && Agree(got.value.end, sent.1) && (x.secured ==> !sent.1.pending)
  {
    var m, n := Finish(x, Cover(x, server), message), |message|;
    var c := if x.secured then CbcEncrypt(x.p, x.aes, server.sendIV, m) else m;
    var s := c + rest;
    assert s[..n] == c && s[n..] == rest;
    if x.secured {
      DecryptEncrypt(x.p, x.aes, server.sendIV, m);
      assert m[..n - 16] == message[..n - 16];
    }
  }

  lemma FirstAndRest(s: bytes, n: nat)
    requires 16 <= n <= |s| && n % 16 == 0
    ensures s[..n][..16] == s[..16] && s[..n][16..] == s[16..][..n - 16] && s[16..][n - 16..] == s[n..]
    ensures (n - 16) % 16 == 0
  {
  }

  // ---- The two ends as objects ----

  /** One direction of the TCP connection: the bytes written and not yet read. */
  class Wire {
    var data: bytes

    constructor ()
      ensures data == []
    {
      data := [];
    }

    method Write(b: bytes)
      modifies this
      ensures data == old(data) + b
    {
      data := data + b;
    }

    /** io.ReadFull into a buffer of n bytes; a stream that ends before them is an error. */
    method ReadFull(n: nat) returns (r: Result<bytes>)
      modifies this
      ensures |old(data)| >= n ==> r == Ok(old(data)[..n]) && data == old(data)[n..]
      ensures |old(data)| < n ==> r == Err(EndOfStream)
    {
      if |data| < n {
        data := [];
        return Err(EndOfStream);
      }
      var b := data[..n];
      data := data[n..];
      return Ok(b);
    }
  }

  /** What client.Client and the server's controlConnection both hold for the control
      protocol. */
  class Channel {
    const protection: Protection
    const incoming: Wire
    const outgoing: Wire
    const controlEncrypt: CBCStream
    const controlDecrypt: CBCStream
    var serverStartHMACPending: bool

    constructor (protection: Protection, incoming: Wire, outgoing: Wire, sendIV: Block, recvIV: Block)
      requires incoming != outgoing
      ensures Valid() && this.protection == protection && this.incoming == incoming && this.outgoing == outgoing
      ensures End() == Endpoint(sendIV, recvIV, protection.secured)
      ensures fresh(controlEncrypt) && fresh(controlDecrypt)
    {
      this.protection, this.incoming, this.outgoing := protection, incoming, outgoing;
      controlEncrypt := new CBCStream(protection.p, protection.aes, sendIV);
      controlDecrypt := new CBCStream(protection.p, protection.aes, recvIV);
      serverStartHMACPending := protection.secured;
    }

    ghost predicate Valid()
      reads this
    {
      && incoming != outgoing && controlEncrypt != controlDecrypt
      && controlEncrypt.prims == protection.p == controlDecrypt.prims
      && controlEncrypt.key == protection.aes == controlDecrypt.key
    }

    ghost function End(): Endpoint
      reads this, controlEncrypt, controlDecrypt
    {
      Endpoint(controlEncrypt.iv, controlDecrypt.iv, serverStartHMACPending)
    }

    /** sendControlMessage of either side; the client's has no prefix.  The last 16
        bytes of the caller's message are overwritten. */
    method SendControlMessage(message: array<uint8>, prefix: bytes) returns (err: Option<Error>)
      requires Valid()
      modifies message, outgoing, controlEncrypt`iv
      ensures message.Length < 16 || (protection.secured && !Aligned(old(message[..]))) <==> err.Some?
      ensures err.Some? ==> outgoing.data == old(outgoing.data) && controlEncrypt.iv == old(controlEncrypt.iv)
      ensures err == None ==>
                && message[..] == Finish(protection, prefix, old(message[..]))
                && (Aligned(old(message[..])) ==>
                      var s := Seal(protection, old(controlEncrypt.iv), message[..]);
                      outgoing.data == old(outgoing.data) + s.0 && controlEncrypt.iv == s.1)
    {
      if message.Length < 16 {
        return Some(InvalidMessageLength);
      }
      var messageLen := message.Length - 16;
      assert old(message[..])[..messageLen] == old(message[..messageLen]);
      if protection.secured {
        var hmac := protection.p.mac(protection.hmac, prefix + message[..messageLen]);
        forall i | 0 <= i < 16 {
          message[messageLen + i] := hmac[i];
        }
        assert message[..] == old(message[..messageLen]) + hmac;
        var encrypted := controlEncrypt.Encrypt(message[..]);
        if encrypted.Err? {
          return Some(encrypted.error);
        }
        outgoing.Write(encrypted.value);
      } else {
        for i := messageLen to message.Length
          modifies message
          invariant message[..messageLen] == old(message[..messageLen])
          invariant forall j :: messageLen <= j < i ==> message[j] == 0
        {
          message[i] := 0;
        }
        assert message[..] == old(message[..messageLen]) + Zeros(16);
        outgoing.Write(message[..]);
      }
      return None;
    }

    /** The client's sendControlMessage. */
    method SendCommand(message: array<uint8>) returns (err: Option<Error>)
      requires Valid() && message.Length >= 16 && Aligned(message[..])
      modifies message, outgoing, controlEncrypt`iv
      ensures err == None
      ensures var sent := ClientSend(protection, old(End()), old(message[..]));
              outgoing.data == old(outgoing.data) + sent.0 && End() == sent.1
    {
      err := SendControlMessage(message, []);
    }

    /** The tail of sendAcceptSession and sendStartAck of the server. */
    method SendReply(message: array<uint8>) returns (err: Option<Error>)
      requires Valid() && message.Length >= 16 && Aligned(message[..])
      modifies this, message, outgoing, controlEncrypt`iv
      ensures err == None
      ensures var sent := ServerSend(protection, old(End()), old(message[..]));
              outgoing.data == old(outgoing.data) + sent.0 && End() == sent.1
    {
      var usePrefix := protection.secured && serverStartHMACPending;
      err := SendControlMessage(message, if usePrefix then protection.serverStart else []);
      if err == None && usePrefix {
        serverStartHMACPending := false;
      }
    }

    /** The client's receiveAndVerify. */
    method ReceiveAndVerify(expectedLen: nat) returns (r: Result<bytes>)
      requires Valid() && expectedLen >= 16 && expectedLen % 16 == 0
      modifies this, incoming, controlDecrypt`iv
      ensures r.Ok? ==> |r.value| == expectedLen
      ensures r.Ok? && protection.secured ==>
                && !serverStartHMACPending
                && var covered := (if old(serverStartHMACPending) then protection.serverStart else [])
                                  + r.value[..expectedLen - 16];
                protection.p.mac(protection.hmac, covered) == r.value[expectedLen - 16..]
      ensures r.Ok? && !protection.secured ==> AllZero(r.value[expectedLen - 16..])
      ensures match ClientReceive(protection, old(End()), expectedLen, old(incoming.data))
              case Ok(got) => r == Ok(got.message) && End() == got.end && incoming.data == got.rest
              case Err(e) => r == Err(e)
    {
      var buf := incoming.ReadFull(expectedLen);
      if buf.Err? {
        return buf;
      }
      var c := buf.value;
      if protection.secured {
        var plain := controlDecrypt.Decrypt(c);
        var messageLen := expectedLen - 16;
        var prefix := if serverStartHMACPending then protection.serverStart else [];
        if protection.p.mac(protection.hmac, prefix + plain.value[..messageLen]) != plain.value[messageLen..] {
          return Err(HMACVerificationFailed);
        }
        serverStartHMACPending := false;
        return plain;
      }
      var ok := ValidateMBZ(c, expectedLen - 16, expectedLen);
      assert c[expectedLen - 16..expectedLen] == c[expectedLen - 16..];
      return if ok then Ok(c) else Err(InvalidMBZ);
    }

    /** readPlainCommand: one byte, for Stop-N-Sessions fifteen more, then the rest. */
    method ReadPlainCommand() returns (r: Result<bytes>)
      requires Valid()
      modifies incoming
      ensures match ReadPlain(old(incoming.data))
              case Ok(got) => r == Ok(got.0) && incoming.data == got.1
              case Err(e) => r == Err(e)
    {
      ghost var s := incoming.data;
      var header := incoming.ReadFull(1);
      if header.Err? {
        return header;
      }
      if header.value[0] == CMD_STOP_N_SESSIONS {
        var more := incoming.ReadFull(15);
        if more.Err? {
          return more;
        }
        header := Ok(header.value + more.value);
        assert header.value == s[..16];
      }
      var length := CommandLength(header.value[0], header.value);
      if length.Err? {
        return Err(length.error);
      }
      var rest := incoming.ReadFull(length.value - |header.value|);
      if rest.Err? {
        return rest;
      }
      assert header.value + rest.value == s[..length.value];
      return Ok(header.value + rest.value);
    }

    /** The stream starts with this message, sealed. */
    ghost predicate Carries(stream: bytes, iv: Block, m: bytes, rest: bytes) {
      && protection.p.DecryptInverts() && IsFrame(m)
      && stream == CbcEncrypt(protection.p, protection.aes, iv, m) + rest
    }

    /** The message ends in the MAC of what precedes it. */
    ghost predicate Authentic(m: bytes)
      requires |m| >= 16
    {
      protection.p.mac(protection.hmac, m[..|m| - 16]) == m[|m| - 16..]
    }

    /** What reading a sealed command must come to: any message sealed at the front of the
        stream is delivered, and the rest left, exactly when it is authentic, and is refused
        for its MAC otherwise; nothing that is not authentic is ever delivered. */
    ghost predicate Judges(stream: bytes, iv: Block, r: Result<bytes>, left: bytes) {
      && (forall m, rest :: Carries(stream, iv, m, rest) ==>
            if Authentic(m) then r == Ok(m) && left == rest else r == Err(HMACVerificationFailed))
      && (r.Ok? ==> |r.value| >= 16 && Authentic(r.value))
    }

    /** readEncryptedCommand: the first block, then as much as it announces. */
    method ReadEncryptedCommand() returns (r: Result<bytes>)
      requires Valid()
      modifies incoming, controlDecrypt`iv
      ensures Judges(old(incoming.data), old(controlDecrypt.iv), r, incoming.data)
      ensures match OpenCommand(protection, old(controlDecrypt.iv), old(incoming.data))
              case Ok(got) => r == Ok(got.0) && controlDecrypt.iv == got.1 && incoming.data == got.2
              case Err(e) => r == Err(e)
    {
      EncryptedRead(incoming.data, controlDecrypt.iv);
      OpenByPieces(protection, controlDecrypt.iv, incoming.data);
      hide CbcDecrypt, CbcEncrypt, CommandLength, OpenCommand, Judges;
      ghost var s, iv := incoming.data, controlDecrypt.iv;
      var firstCipher := incoming.ReadFull(16);
      if firstCipher.Err? {
        return firstCipher;
      }
      var firstPlain := controlDecrypt.Decrypt(firstCipher.value);
      var length := CommandLength(firstPlain.value[0], firstPlain.value);
      if length.Err? {
        return Err(length.error);
      }
      if length.value % 16 != 0 {
        return Err(InvalidMessageLength);
      }
      var n := length.value;
      assert OpenFirst(protection, iv, s) == Ok((firstPlain.value, n));
      var restCipher := incoming.ReadFull(n - 16);
      if restCipher.Err? {
        return restCipher;
      }
      FirstAndRest(s, n);
      var restPlain := controlDecrypt.Decrypt(restCipher.value);
      var cmd := firstPlain.value + restPlain.value;
      if protection.p.mac(protection.hmac, cmd[..n - 16]) != cmd[n - 16..] {
        return Err(HMACVerificationFailed);
      }
      return Ok(cmd);
    }

    lemma EncryptedRead(stream: bytes, iv: Block)
      ensures match OpenCommand(protection, iv, stream)
              case Ok(got) => Judges(stream, iv, Ok(got.0), got.2)
              case Err(e) => forall left :: Judges(stream, iv, Err(e), left)
    {
      hide OpenCommand, CbcEncrypt;
      forall m, rest | Carries(stream, iv, m, rest)
        ensures if Authentic(m) then
                  && OpenCommand(protection, iv, stream).Ok? && OpenCommand(protection, iv, stream).value.0 == m
                  && OpenCommand(protection, iv, stream).value.2 == rest
                else
                  OpenCommand(protection, iv, stream) == Err(HMACVerificationFailed)
      {
        SealedRead(protection, iv, m, rest);
      }
      if OpenCommand(protection, iv, stream).Ok? {
        OnlyAuthentic(protection, iv, stream);
      }
    }

    /** readCommand of the server. */
    method ReadCommand() returns (r: Result<bytes>)
      requires Valid()
      modifies incoming, controlDecrypt`iv
      ensures protection.secured ==> Judges(old(incoming.data), old(controlDecrypt.iv), r, incoming.data)
      ensures match ServerReceive(protection, old(End()), old(incoming.data))
              case Ok(got) => r == Ok(got.message) && End() == got.end && incoming.data == got.rest
              case Err(e) => r == Err(e)
    {
      hide Judges, OpenCommand, ReadPlain;
      if protection.secured {
        r := ReadEncryptedCommand();
      } else {
        r := ReadPlainCommand();
      }
    }
  }
}
