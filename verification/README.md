# A verified model of the TWAMP client and server

The Go program implements the Two-Way Active Measurement Protocol: a control protocol
over TCP (RFC 4656 sections 3.1 to 3.5, RFC 5357 sections 3.5 to 3.8, RFC 5938
section 3, RFC 5618 section 3.1) and test packets over UDP (RFC 5357 section 4,
RFC 6038). This project models its client, server, codecs, packet protection,
timestamps and statistics in Dafny and proves what they promise each other.
`dafny verify dfyconfig.toml` checks everything.

## How the project is laid out

| file | what it holds |
|---|---|
| `Bytes.dfy`, `Buffers.dfy` | integers of fixed width, byte strings, errors; writing into fresh and pooled byte arrays |
| `Timestamps.dfy` | 32.32 NTP timestamps and durations |
| `CbcStream.dfy`, `PacketCrypto.dfy` | CBC with a carried vector; protection of test packets, copying and in place |
| `TestPackets.dfy`, `PooledPackets.dfy` | test packets as values from sender to reflector and back; the same written in place into pooled buffers |
| `ControlMessages.dfy`, `ControlObjects.dfy` | control messages as values with their inverse laws; the message structs with Marshal and Unmarshal |
| `Modes.dfy`, `Setup.dfy` | mode negotiation; the connection setup up to the first command |
| `ControlChannel.dfy` | framing, MACs and cipher streams of a control connection, as functions and as objects |
| `SessionMachine.dfy`, `ConnectionView.dfy`, `Supervision.dfy` | sessions and ports as a state machine at lock granularity; one connection's view of it; who still has to stop a session |
| `PortPool.dfy`, `Server.dfy` | the port pool and the command handlers as objects, each tied to the machine |
| `Lockstep.dfy`, `Client.dfy`, `SidOrder.dfy` | client and server on one connection, command by command through the bytes on the wire; the client's calls; the order of SIDs and the selection of the least |
| `TestTraffic.dfy` | from the setup and a history of calls to the keys of a test session and its packets |
| `Reflector.dfy`, `Statistics.dfy` | the reflector's loop over the packets that arrive, with its MAC-failure counter; the client's statistics |

AES and HMAC-SHA1 are function-valued parameters: of AES only "decryption undoes
encryption, block by block" is used, of the MAC nothing. PBKDF2, random bytes, clocks,
bindable ports, read timeouts, the order in which a Go map yields its entries and the
interleaving of goroutines are parameters as well, and every result holds for all of
their values. Go computes the fraction of a nanosecond count in `float64`; the model
takes any conversion within one unit of the exact floor.

## What the code does that its callers may not expect

Each of these is the exact boundary of a property that holds otherwise, and has a lemma.

- `startSession` only looks at `isActive`, so a second Start-Sessions starts a stopped
  session again on a port it has given back. Ownership of ports is kept exactly when no
  stopped session is started (`StepKeepsInv`, `StartKeepsInv`, `RestartCounterexample`).
  A session started again keeps its failure count and its packet number (`ReflectPackets`).
- The duplicate check for a SID and the insertion are two critical sections. Ownership
  is kept exactly when the SID published is not listed (`StepKeepsInv`,
  `RequestKeepsInv`, `DuplicateSidCounterexample`, `DuplicateSidRace`).
- `stopSession` does nothing to a session that was never started; dropped by its
  connection it stays listed and keeps its port for ever, even through `Server.Stop`
  (`OrphanKeepsPort`, `OrphanedExactly`, `StoppableExactly`, `Server.Server.Stop`). A
  session at work is never forgotten so: when all connections are closed and all timers
  have fired, only sessions never started hold ports (`RunKeepsWatched`, `AllReturned`).
- With a range that ends at 65535 and has no free port left the counter of `allocatePort`
  wraps: it returns a port below the range exactly when one is free there, and never
  returns exactly when none is free at all (`WrapsExactly`, `OnePortRange`). Port 0 can
  always be bound and is found first. A client reads port 0 in an acceptance as "none
  given" and books its own configured port: the two ends keep the same SIDs, but agree on
  the port exactly when the port granted is not 0 or the client has none configured
  (`ChosenPortExactly`, `ExchangeKeepsSync`, `HistoryKeepsPorts`, `PortZeroCounterexample`).
- With reflect-octets a reflection is 27 or 64 bytes longer than the packet it answers,
  so an accepted padding can overrun the 2048-byte buffer: exactly above 2021 bytes
  unauthenticated and 1984 authenticated (`TestPacketRoundTrip`, `AcceptedPaddingBound`).
  The overrun ends the process (`ReflectPackets`). Symmetrical size has no effect with
  reflect-octets (`SymmetricalSizeHolds`).
- `DurationBetween` leaves 64-bit subtraction exactly for readings half an era apart
  (`DurationBetweenRefinesSubtraction`); a timeout arrives exactly below 2^32 s
  (`TimeoutReachesServer`); an error estimate survives exactly with a scale below 64.
- `StopNSessions.Marshal` produces a message its own `Unmarshal` returns exactly when
  NumSessions is the number of SIDs (`StopNInverse`).
- A key identifier reaches the server exactly when it is shorter than 80 bytes and has no
  zero byte (`KeyIDRoundTrip`).
- A request with more than 2048 bytes of padding or a DSCP of 64 and more is not answered
  but ends the connection (`ExchangeKeepsSync`).
- `PacketsLost` is a 32-bit difference: a packet answered twice makes it wrap
  (`LostIsDifference`, `DuplicateReplyCounterexample`).
- The server accepts a mode that shares any one bit with what it supports
  (`AcceptanceExact`), where its comment says that it checks whether the mode is supported.

## Model

| member | source | states |
|---|---|---|
| `SessionMachine.StepKeepsInv` | server/server.go:1027-1085 | for every step of every interleaving, the ownership invariant (marked ports are exactly the owned ones, one owner each, one release per session, exact table, each session filed under its own SID with one connection) survives if and only if the step neither starts a stopped session nor publishes a listed SID |
| `SessionMachine.CleanRunKeepsInv` | server/server.go:335-364 | every run of such steps, any number of connections and stopping goroutines, keeps the invariant |
| `SessionMachine.ReachableOwnership` | server/server.go:2028-2057 | in every reachable state two requested or active sessions have different marked ports, a session releases its port at most once, and has done so exactly when it is stopped with no call at work |
| `SessionMachine.QuiescentPorts` | server/server.go:201-213 | with nothing in flight the marked ports are exactly the ports of the listed sessions, none of them stopped |
| `SessionMachine.OrphanKeepsPort` | server/server.go:2030-2032 | a session dropped before it was started stays listed and holds its port through every clean continuation |
| `SessionMachine.OrphanedExactly` | server/server.go:1872-1885 | a requested session listed by a connection becomes an orphan by exactly three events: its connection drops it, ends, or publishes its SID again |
| `SessionMachine.StoppableExactly` | server/server.go:1176-1192 | some clean run stops a requested session and gives back its port if and only if a connection still lists it |
| `SessionMachine.StepKeepsFiled` | server/server.go:1073-1080 | every step, clean or not, keeps each entry of a connection under its session's own SID and each session with at most one connection |
| `SessionMachine.RunKeepsFiled` | server/server.go:1073-1080 | so does every run |
| `SessionMachine.RestartBreaks` | server/server.go:1233-1237 | starting a stopped session always breaks ownership |
| `SessionMachine.RepublishBreaks` | server/server.go:1966-2018 | publishing a listed SID always breaks ownership |
| `SessionMachine.RestartCounterexample` | server/server.go:1233-1284 | a run from the empty server in which a stopped session's port is granted to a second connection and the first then starts the session again: two sessions, one active and one requested, own one port |
| `SessionMachine.DuplicateSidCounterexample` | server/server.go:1966-2018 | a run from the empty server in which two connections allocate, each finding the SID unlisted, and then both publish it: two sessions under one SID, one of them unlisted |
| `Server.DuplicateSidRace` | server/server.go:1950-2018 | in that run each connection does exactly what the handler of an individual request does when its duplicate check falls before either insertion, and ownership is lost |
| `SessionMachine.InitialInv` | server/server.go:216-266 | the empty server satisfies the invariant |
| `Supervision.StepKeepsWatched` | server/server.go:1872-1885 | for every step, clean or not: each active session stays listed by a connection or has a stop timer, if and only if the step is not the end of a connection that lists an active session without a timer, nor a publication over one |
| `Supervision.CleanupOrderly` | server/server.go:335-358 | once a handler has ended and each session of its connection has seen one stopSession call, whatever the other goroutines did in between, the connection ends without forgetting a session at work |
| `Supervision.CleanPublishOrderly` | server/server.go:1073-1080 | publishing a SID that is not listed never hides a session at work |
| `Supervision.RunKeepsWatched` | server/server.go:2028-2057 | over every clean run whose connections clean up, every active session is listed by a connection or has a timer |
| `Supervision.NothingLeft` | server/server.go:2028-2057 | with no connection, timer or call left no session is active, and the ports marked are exactly those of the sessions never started, which nobody can stop any more |
| `Supervision.AllReturned` | server/server.go:2028-2057 | so at the end of every such run from the empty server |
| `ConnectionView.ViewNext` | server/server.go:1073-1080 | one event changes a connection's sessions and their ports only if it is that connection's own |
| `ConnectionView.ViewReplay` | server/server.go:1073-1080 | over every interleaved run a connection's sessions and their ports are the fold of its own events |
| `PortPool.PortManager.AllocatePort` | server/server.go:178-198 | returns the least port of the range that is unused and bindable and marks it alone, or fails exactly when there is none; with the wrap at 65535 spelled out |
| `PortPool.PortManager.ReleasePort` | server/server.go:208-213 | unmarks exactly that port |
| `PortPool.OutcomeUnique` | server/server.go:178-198 | a search has one outcome; it is a port of the range exactly when the range has a free one; it terminates within the range when the range ends below 65535 |
| `PortPool.WrapsExactly` | server/server.go:182-197 | a port below the range is returned if and only if the range ends at 65535, is exhausted and a lower port is free; the search never ends if and only if the range ends at 65535 and no port at all is free |
| `PortPool.OnePortRange` | server/server.go:178-198 | a pool of port 65535 alone: the first search finds it, the second returns port 0, the third never returns |
| `PortPool.NewPortManager` | server/server.go:157-175 | defaults for zero bounds, an error exactly for an inverted range |
| `Server.RequestRuns` | server/server.go:993-1101 | a session request is a run of the machine: allocate then publish, allocate then give back, or nothing |
| `Server.RequestKeepsInv` | server/server.go:993-1101 | a request keeps ownership if and only if a granted random SID is not listed |
| `Server.RequestOutcome` | server/server.go:1006-1101 | a reply accepts exactly when a session was created and names the listed session and its port; any other reply has a zero port and SID and changes nothing |
| `Server.RefusedExactly` | server/server.go:1006-1026 | what is turned down before a port is looked for: a plain request with a SID, a nonzero Conf field, a receiver not allowed on an unsecured connection, or a sender packet over 2048 bytes |
| `Server.RepliesExactly` | server/server.go:1006-1101 | the codes of the replies by the request's fields: 3 for those, 5 without a port, 1 for a SID in use, 0 in all other cases |
| `Server.StartRuns` | server/server.go:1170-1200 | starting sessions one after the other is a run of the machine |
| `Server.StartLives` | server/server.go:1233-1284 | exactly the sessions started end up active |
| `Server.StartKeepsInv` | server/server.go:1170-1200 | Start-Sessions keeps ownership if and only if none of its sessions was stopped before |
| `Server.StopRuns` | server/server.go:2028-2057 | a stop that runs alone ends with the session stopped, unlisted and without its port, or changes nothing |
| `Server.StopAllRuns` | server/server.go:335-342 | any list of stops is a run that keeps ownership |
| `Server.StopAllLives` | server/server.go:335-342 | stopping sessions any number of times stops each active one listed and touches no other |
| `Server.ForgetRuns` | server/server.go:1872-1885 | dropping a connection's sessions is a run of the machine with exactly that effect |
| `Server.StopNRuns` | server/server.go:1908-1928 | Stop-N-Sessions drops each listed session the connection has, once, whatever else is listed or repeated |
| `Server.FirstOfSet` | server/server.go:1908-1918 | the sessions dropped are those both listed and owned by the connection |
| `Server.ShutdownTable` | server/server.go:2100-2124 | stopping all listed sessions keeps ownership and leaves exactly the never-started ones listed |
| `Server.Server.StopSession` | server/server.go:2028-2057 | the call that turns isActive off unlists the session and frees its port; every other call changes nothing; no session at work is forgotten |
| `Server.Server.StartSession` | server/server.go:1233-1284 | starts unless already active, fails exactly when the port cannot be bound |
| `Server.Server.HandleRequest` | server/server.go:993-1101 | for every request, plain or individual, the reply and the new state are those the machine prescribes for the port found; the reply is 3, not supported, exactly for a plain request with a SID, a nonzero Conf field, a receiver not allowed, or padding that takes the packet beyond 2048 bytes; with a fresh SID no session at work is forgotten |
| `Server.Server.HandleStartSessions` | server/server.go:1170-1200 | on success every session of the connection was started; on failure some port could not be bound; the state is that of the sessions started, in any map order; no session at work is forgotten |
| `Server.Server.HandleStopSessions` | server/server.go:1825-1893 | accepts exactly the connection's own count modulo 2^32, then drops all its sessions and arms the timer of each exactly once, so that none at work is forgotten |
| `Server.Server.HandleStopNSessions` | server/server.go:1896-1931 | drops exactly the listed sessions it has and arms each one's timer once, so that none at work is forgotten |
| `Server.Server.FireTimer` | server/server.go:1879-1884 | a timer stops its session, or nothing if it is stopped already, and disappears; no session at work is forgotten |
| `Server.Server.CloseConnection` | server/server.go:335-364 | the connection's sessions are stopped and the connection forgotten, but no session at work |
| `Server.Server.Stop` | server/server.go:2100-2124 | keeps ownership; exactly the never-started sessions remain, with their ports; no session at work is forgotten |
| `Server.Server.OnlyNeverStarted` | server/server.go:2100-2124 | with every connection closed and every timer fired no session is active and the pool marks exactly the ports of sessions never started |
| `CbcStream.XorInverse` | crypto/control_stream.go:36-62 | exclusive or with the same block twice is the identity, from the bits up |
| `CbcStream.XorBitwise` | crypto/control_stream.go:36-62 | each bit of the exclusive or is 1 exactly when the two differ |
| `CbcStream.CipherBlock` | crypto/control_stream.go:37-48 | each ciphertext block encrypts its plaintext block combined with the ciphertext block before it, the first with the vector |
| `CbcStream.DecryptEncrypt` | crypto/control_stream.go:36-62 | CBC decryption undoes encryption for every key, vector and aligned message |
| `CbcStream.EncryptConcat` | crypto/control_stream.go:37-48 | encrypting a concatenation is encrypting the parts with the vector carried over |
| `CbcStream.DecryptConcat` | crypto/control_stream.go:51-62 | the same for decryption |
| `CbcStream.EncryptEachIsOneShot` | crypto/control_stream.go:37-48 | a stream of messages encrypts like their concatenation |
| `CbcStream.DecryptEachIsOneShot` | crypto/control_stream.go:51-62 | pieces decrypt like their concatenation |
| `CbcStream.RechunkedStream` | crypto/control_stream.go:36-62 | however the ciphertext of any messages is cut into aligned pieces, the pieces decrypt to what was sent |
| `CbcStream.CBCStream.Encrypt` | crypto/control_stream.go:37-48 | ciphertext and carried vector as specified; rejects empty and unaligned input and keeps the vector |
| `CbcStream.CBCStream.Decrypt` | crypto/control_stream.go:51-62 | the same for decryption |
| `PacketCrypto.DecryptEncryptPacket` | crypto/crypto.go:315-459 | decrypt undoes encrypt for all packets from the minimum size on, and the ciphertext agrees with the packet from byte 16, 32 or 96 on |
| `PacketCrypto.PrefixOnly` | crypto/crypto.go:315-459 | on any input that is accepted, encryption and decryption keep the size and every byte from 16 (authenticated), 32 (encrypted sender) or 96 (encrypted reflector) on |
| `PacketCrypto.SizesExact` | crypto/crypto.go:315-459 | accepted in both directions are exactly keys and vectors of 16 bytes and packets from 48 or 112 bytes on; the error of each other case |
| `PacketCrypto.HMACCoverage` | common/hmac.go:44-52 | in encrypted mode the covered prefix is everything before the MAC field, in authenticated mode one block |
| `PacketCrypto.EncryptTestPacketInPlace` | crypto/crypto_inplace.go:20-66 | writes into the array exactly what the copying version returns, with the same errors |
| `PacketCrypto.DecryptTestPacketInPlace` | crypto/crypto_inplace.go:78-124 | the same for decryption |
| `PacketCrypto.RoundTripInPlace` | crypto/crypto_inplace.go:11-124 | encrypting and decrypting in place restores the array |
| `Timestamps.NanosWithinOne` | common/timestamp.go:37-77 | nanoseconds to fraction and back loses at most 1 ns |
| `Timestamps.NanosExact` | common/timestamp.go:37-77 | with exact floors the round trip is exact precisely on multiples of 1953125 ns |
| `Timestamps.DurationBetweenIsFloor` | common/timestamp.go:152-183 | the borrow cases together compute the floor of one 32.32 span |
| `Timestamps.DurationBetweenRefinesSubtraction` | common/timestamp.go:152-183 | the result is the floor of the signed 64-bit difference if and only if the readings are not half an era apart |
| `Timestamps.DurationBetweenAntisymmetric` | common/timestamp.go:152-183 | the two directions add up to 0 or -1 ns, for all inputs |
| `Timestamps.DurationBetweenReadings` | common/timestamp.go:152-183 | for clock readings up to 2^31-1 s apart, across an era or not, the true difference or 1 ns less |
| `Timestamps.TimeRoundTrip` | common/timestamp.go:85-113 | seconds come back if and only if the reading lies in era 0 for a reference before era 1, and in era 1 for any later one; nanoseconds within 1 |
| `Timestamps.Epochs` | common/timestamp.go:11-18 | the Unix epoch lies 70 years with 17 leap days after the NTP epoch, and era 1 starts where 32 bits of seconds run out |
| `Timestamps.BeforeWithinEra` | common/timestamp.go:254-262 | within an era conversion is strictly increasing and injective |
| `Timestamps.AddSubInverse` | common/timestamp.go:186-246 | Add and Sub undo each other for every timestamp and duration, with every carry, borrow and wrap |
| `Timestamps.DurationBetweenAdd` | common/timestamp.go:152-215 | measuring an added duration gives it or 1 ns less if and only if the ends are not half an era apart |
| `Timestamps.TimeoutArrives` | client/client.go:501-508 | a timeout keeps its value or loses 1 ns if and only if it is below 2^32 s |
| `TestPackets.ErrorEstimateRoundTrip` | common/types.go:258-272 | survives the wire if and only if the scale is below 64; which wire values survive the other way |
| `TestPackets.StampInverse` | messages/test.go:31-71 | a sender's fields come back from the plain layout |
| `TestPackets.WideStampInverse` | messages/test.go:86-151 | and from the authenticated layout, its zero bytes checked |
| `TestPackets.ReflectionInverse` | messages/test.go:170-254 | a reflection's fields come back whatever padding follows |
| `TestPackets.WideReflectionInverse` | messages/test.go:278-405 | the same for the authenticated layout |
| `TestPackets.UnprotectProtect` | crypto/crypto.go:315-459 | verifying and decrypting a protected packet succeeds and returns it |
| `TestPackets.UnprotectExact` | server/server.go:1494-1527 | of any packet: below 48 or 112 bytes refused for its size; with a MAC, at byte 32 or 96, other than that of its first 16 plaintext bytes (authenticated) or of all plaintext before the MAC (encrypted) refused for its MAC; otherwise its plaintext |
| `TestPackets.SenderPacketRead` | server/server.go:1482-1582 | exactly the readable packets are read: long enough, the MAC right, the reserved bytes zero; the padding is what follows 14 or 48 bytes; HMACVerificationFailed exactly for a wrong MAC |
| `TestPackets.ReflectExact` | server/server.go:1474-1822 | of any packet: answered, with the size the law gives and the padding of its mode, if and only if it is readable and that size is within 2048 bytes |
| `TestPackets.ReflectionRead` | client/test_session.go:405-480 | the same for what the client accepts as a reflection |
| `TestPackets.StampLayout` | messages/test.go:53-151 | where number, time and error estimate of a sender packet stand, in both layouts |
| `TestPackets.ReflectionLayout` | messages/test.go:211-405 | where the fields of a reflection stand, in both layouts |
| `TestPackets.AcceptedPaddingBound` | server/server.go:840-849 | a padding the server accepts keeps the sender's packet within 2048 bytes; when its reflection fits as well |
| `TestPackets.SymmetricalSizeHolds` | messages/test_rfc6038.go:361-387 | equal sizes exactly without reflect-octets and from the reflector's minimum on |
| `TestPackets.TestPacketRoundTrip` | client/test_session.go:208-303 | for every mode, key and accepted padding: the packet passes the reflector's checks, the reflection has the stated size with the sender's padding as its suffix under reflect-octets, passes the client's checks and returns sequence number, timestamp and error estimate; it overruns the buffer exactly above the stated limit |
| `TestPackets.TestPacketBetween` | server/server.go:1474-1530 | the same between two ends whose keys agree whenever the mode uses any |
| `TestTraffic.TrafficAfterSetup` | client/test_session.go:100-138 | after a setup that goes through and any history of calls, for every session the client has: the server has one on file for the SID, both sides derive the same session keys whenever the mode uses keys, and test packets with the padding accepted for the session pass the server and their reflections the client |
| `TestTraffic.SessionsOnFile` | server/server.go:1058-1080 | over every history a session the client has is on file at the server under the SID it was made for |
| `TestTraffic.PaddingsAccepted` | server/server.go:1022 | over every history each session the client has was booked with a padding that the server's check let pass |
| `TestTraffic.SessionPadding` | client/client.go:443-448 | so from the setup on every session has such a padding, and its packets fit 2048 bytes |
| `TestTraffic.SessionKeysDetermine` | crypto/crypto.go:142-167 | under one SID two connections have the same session keys if and only if they have the same keys |
| `PooledPackets.MarshalSender` | messages/test.go:31-50 | the slice of the pooled buffer is the packet's layout whatever it held before, and the bytes beyond stay |
| `PooledPackets.MarshalSenderReflectOctets` | messages/test_rfc6038.go:114-142 | the same with the padding given |
| `PooledPackets.MarshalSenderAuth` | messages/test.go:86-117 | the same for authenticated packets, MAC and padding in place |
| `PooledPackets.MarshalReflector` | messages/test.go:170-208 | the same for reflections |
| `PooledPackets.MarshalReflectorReflectOctets` | messages/test_rfc6038.go:264-304 | the same with the sender's padding |
| `PooledPackets.MarshalReflectorAuth` | messages/test.go:278-336 | the same for authenticated reflections |
| `Bytes.ValidateMBZ` | messages/control.go:29-36 | true exactly when all bytes of the range are zero |
| `Bytes.NetworkOrder` | messages/control.go:78-98 | integers travel with the most significant byte first |
| `ControlMessages.GreetingInverse` | messages/control.go:78-128 | decoding undoes encoding, encoding reproduces every accepted message of exact length, and each field stands at its offset |
| `ControlMessages.SetupInverse` | messages/control.go:139-177 | the same |
| `ControlMessages.ServerStartInverse` | messages/control.go:189-233 | the same |
| `ControlMessages.RequestInverse` | messages/control.go:259-422 | exactly the well-formed requests survive the wire; every accepted message of exact length is reproduced |
| `ControlMessages.RequestsRead` | messages/control.go:322-422 | which 112 bytes are taken for a request, byte by byte |
| `ControlMessages.EncodeLaysOut` | messages/control.go:259-319 | each of the request's sixteen fields stands at its offset |
| `ControlMessages.IndividualInverse` | messages/control_rfc5938.go:120-147 | exactly the well-formed individual requests survive under their own command number; every accepted message of exact length is reproduced |
| `ControlMessages.AcceptInverse` | messages/control.go:435-503 | mutual inverses, each field at its offset |
| `ControlMessages.AcceptsRead` | messages/control.go:465-503 | which 48 bytes are an Accept-Session, and what it says |
| `ControlMessages.ShortInverse` | messages/control.go:513-619 | mutual inverses, Start-Sessions and Start-Ack, each field at its offset |
| `ControlMessages.ShortsRead` | messages/control.go:535-619 | the same for the 32 bytes of Start-Sessions and Start-Ack |
| `ControlMessages.StopInverse` | messages/control.go:655-729 | mutual inverses, each field at its offset |
| `ControlMessages.JoinSplit` | messages/control_rfc5938.go:26-111 | writing and reading any list of SIDs are mutual inverses |
| `ControlMessages.StopNInverse` | messages/control_rfc5938.go:26-111 | for every list of SIDs the message survives if and only if the announced number is the number carried; accepted messages are reproduced |
| `ControlMessages.StopNLayout` | messages/control_rfc5938.go:26-58 | the i-th SID stands at byte 16 + 16 i and the MAC after the last |
| `ControlMessages.StopNSessions.Marshal` | messages/control_rfc5938.go:26-58 | the loop writes exactly the specified bytes, also when the two numbers differ |
| `ControlMessages.StopNSessions.Unmarshal` | messages/control_rfc5938.go:61-111 | the loop reads exactly what decoding specifies, with the same errors in the same order |
| `ControlObjects.ServerGreetingMessage.Marshal` | messages/control.go:78-98 | the buffer equals the encoding |
| `ControlObjects.ServerGreetingMessage.Unmarshal` | messages/control.go:101-128 | fields and errors as decoding specifies |
| `ControlObjects.SetupResponseMessage.Marshal` | messages/control.go:139-156 | the buffer equals the encoding |
| `ControlObjects.SetupResponseMessage.Unmarshal` | messages/control.go:159-177 | fields and errors as decoding specifies |
| `ControlObjects.ServerStartMessage.Marshal` | messages/control.go:189-206 | the buffer equals the encoding |
| `ControlObjects.ServerStartMessage.Unmarshal` | messages/control.go:209-233 | fields and errors as decoding specifies |
| `ControlObjects.RequestTWSession.Marshal` | messages/control.go:259-319 | fourteen fields written in turn give the encoding |
| `ControlObjects.RequestTWSession.Unmarshal` | messages/control.go:322-422 | fields and errors as decoding specifies, in the order of the checks |
| `ControlObjects.AcceptSessionMessage.Marshal` | messages/control.go:435-462 | the buffer equals the encoding |
| `ControlObjects.AcceptSessionMessage.Unmarshal` | messages/control.go:465-503 | fields and errors as decoding specifies |
| `ControlObjects.ShortMessage.Marshal` | messages/control.go:513-532 | the buffer equals the encoding |
| `ControlObjects.ShortMessage.Unmarshal` | messages/control.go:535-561 | fields and errors as decoding specifies |
| `ControlObjects.StopSessionsMessage.Marshal` | messages/control.go:655-683 | the buffer equals the encoding |
| `ControlObjects.StopSessionsMessage.Unmarshal` | messages/control.go:692-729 | fields and errors as decoding specifies |
| `Modes.ValidationMeaning` | common/types.go:186-200 | validation passes exactly the modes with one security bit and without bit 14 |
| `Modes.ResolvesExactly` | common/types.go:204-231 | a mode resolves if and only if it is valid and not mixed with unauthenticated |
| `Modes.MixedResolution` | common/types.go:204-231 | mixed mode: secured control, unauthenticated test, all other bits kept by both |
| `Modes.SelectionExact` | client/client.go:162-189 | over all masks the client finds a mode if and only if its mask is valid and a security bit is shared; it has the strongest common one and no other and lies within both masks |
| `Modes.FeaturesKept` | client/client.go:162-189 | for every bit but the security bits the selected mode has it if and only if both masks have it, bit 14 excepted: mixed mode, reflect-octets and symmetrical size are kept |
| `Modes.ResolvedFeatures` | common/types.go:204-231 | resolution keeps every such bit but the mixed one for both protocols |
| `Modes.NegotiationAgrees` | server/server.go:495-517 | over all masks both sides resolve the selected mode alike, failing together exactly for mixed with unauthenticated |
| `Modes.AcceptanceExact` | server/server.go:495-517 | the server accepts exactly the modes that resolve and share a bit with its own |
| `Setup.TokenInverse` | crypto/crypto.go:67-138 | the server recovers challenge and keys from every token |
| `Setup.TokenRead` | crypto/crypto.go:101-138 | a token of 64 bytes is taken if and only if its plaintext starts with the challenge |
| `Setup.KeyIDLength` | server/server.go:524-531 | the loop finds the first zero byte, with none before it, or stays at 0 without one |
| `Setup.KeyIDRoundTrip` | client/client.go:228-231 | a key identifier survives if and only if it is shorter than 80 bytes and free of zero bytes |
| `Setup.SetupAgrees` | server/server.go:479-582 | for sides that share the secret whenever the selected mode needs one, the server accepts a Setup-Response if and only if its mode resolves, and then holds the client's modes and keys and runs the test mode that the two configurations share bit by bit |
| `Setup.FeaturesNegotiated` | client/client.go:162-189 | what two configurations lead to, bit by bit: the test mode has reflect-octets and symmetrical size exactly if both sides have them, the strongest security both have, and none if both have mixed mode |
| `Setup.AcceptedExactly` | server/server.go:495-582 | which Setup-Responses the server takes: any whose mode it accepts and, when that secures the control protocol, only one whose key identifier it knows and whose token decrypts to the challenge; each refusal with its error |
| `Setup.AnsweredExactly` | client/client.go:162-231 | which greetings a client answers: those that share a security bit with its valid mask, with a secret if a shared bit needs one; and what the response carries |
| `Setup.SetupLeadsToSync` | client/client.go:246-299 | after a setup that goes through, both sides have the same link and the first command starts in step |
| `ControlChannel.CommandLength` | server/server.go:859-882 | a length is announced exactly for commands 2 to 6, for 4 from the number of sessions in the header; every length is whole blocks, two at least |
| `ControlChannel.ReadPlainFrame` | server/server.go:895-937 | a complete command is read whole and no further |
| `ControlChannel.FramingInverse` | server/server.go:895-937 | any sequence of commands written one after the other is read back as those commands with nothing left over |
| `ControlChannel.CommandsAreFrames` | server/server.go:859-882 | every marshalled command has its announced length |
| `ControlChannel.TwoPieces` | server/server.go:939-975 | decrypting one block and then the rest gives the message |
| `ControlChannel.CommandArrives` | client/client.go:403-435 | from agreeing ends every command arrives as sent, its MAC verifies and the ends agree again, whatever follows on the wire |
| `ControlChannel.SealedRead` | server/server.go:939-990 | of any message of the announced length sealed under the right key and vector: it is delivered if and only if its last 16 bytes are the MAC of the rest, otherwise the read ends in ErrHMACVerificationFailed |
| `ControlChannel.OnlyAuthentic` | server/server.go:939-990 | whatever bytes arrive, a command delivered is the decryption of the bytes consumed, has the length it announces and ends in the MAC of what precedes it |
| `ControlChannel.CommandRead` | server/server.go:885-893 | the same for the reader of either kind of connection; a plain one delivers any complete command |
| `ControlChannel.ReplyRead` | client/client.go:320-368 | of any reply of the expected length: it is accepted if and only if its last 16 bytes are the MAC of the rest, preceded by the Server-Start message until the first reply has been accepted, or zeros on an unsecured connection |
| `ControlChannel.MessagesSealed` | server/server.go:1104-1167 | what either end puts on the wire: the message with its MAC or zeros, sealed; only the server's first MAC covers the Server-Start message, and only on a secured connection |
| `ControlChannel.ReplyArrives` | client/client.go:320-368 | the same for every reply, the first one with the Server-Start prefix in its MAC included |
| `ControlChannel.Channel.SendControlMessage` | server/server.go:1135-1167 | fills in the MAC or zeros, seals and writes; short or unaligned messages fail and change nothing |
| `ControlChannel.Channel.SendCommand` | client/client.go:403-435 | the wire gains exactly the sealed command with its MAC and the vector moves to its last block |
| `ControlChannel.Channel.SendReply` | server/server.go:1104-1133 | the wire gains exactly the sealed reply; its MAC covers the Server-Start message once, on the first reply of a secured connection |
| `ControlChannel.Channel.ReceiveAndVerify` | client/client.go:320-368 | delivers a reply exactly if its MAC, or its zero bytes, check out, consumes exactly its length and ends the wait for the Server-Start prefix; a wrong MAC ends in ErrHMACVerificationFailed |
| `ControlChannel.Channel.ReadPlainCommand` | server/server.go:895-937 | one byte, fifteen more for Stop-N-Sessions, then the rest: together exactly the next command of the stream, or the error for it |
| `ControlChannel.Channel.ReadEncryptedCommand` | server/server.go:939-990 | one block, then what it announces, then the MAC: a sealed command at the front of the stream is delivered, and no byte more consumed, if and only if it ends in its MAC, and refused with ErrHMACVerificationFailed otherwise; nothing else is ever delivered |
| `ControlChannel.Channel.ReadCommand` | server/server.go:885-893 | the same on secured connections; on others the next plain command, whatever it ends in |
| `Lockstep.RequestArrives` | client/client.go:522-530 | a client's request arrives with all its fields, or is malformed and the parser refuses it |
| `Lockstep.ConfigArrives` | client/client.go:438-520 | what the server reads from a request of the client: both ports, address, IP version, timeout, DSCP and SID of the configuration, and its padding or the 27 or 56 bytes needed at least; exactly when padding and DSCP fit |
| `Lockstep.CommandNumbers` | client/client.go:471-706 | each call sends the command of its number, 2 to 6 |
| `Lockstep.CommandsHandled` | server/server.go:393-430 | what each command but the requests comes to at the server: the Start-Ack says whether every session could be bound, a Stop-Sessions with another count than the connection's closes it, the stop commands have no reply, anything else is unknown |
| `Lockstep.BuiltWellFormed` | client/client.go:471-520 | a built request is well-formed exactly with at most 2048 bytes of padding and a DSCP below 64 |
| `Lockstep.TimeoutReachesServer` | server/server.go:1051 | a configured timeout reaches the session as it is or 1 ns short if and only if it is below 2^32 s |
| `Lockstep.RequestSync` | client/client.go:438-568 | an answered request leaves both ends with the same sessions, and with the same ports unless 0 was granted to a client with a port configured |
| `Lockstep.StartSync` | client/client.go:571-628 | so does Start-Sessions, accepted or not |
| `Lockstep.StopReaction` | server/server.go:1843-1865 | the count a client sends is always the server's own, so the check never rejects |
| `Lockstep.StopSync` | client/client.go:637-689 | Stop-Sessions empties both lists |
| `Lockstep.StopNSync` | client/client.go:692-752 | Stop-N-Sessions takes the same sessions off both lists |
| `Lockstep.RequestCallSync` | client/client.go:755-898 | plain and individual requests: in step, or closed exactly when malformed; the client gains exactly the SID of a request that the server's checks let pass |
| `Lockstep.KeysFromBefore` | client/client.go:571-752 | whatever is replied to it, no call but a request adds to the client's sessions |
| `Lockstep.ExchangeKeepsSync` | client/client.go:320-752 | every exchange keeps the stream vectors, the Server-Start flags, the SIDs and all non-zero ports agreed, whatever timers, reflectors and other connections do meanwhile at lock granularity; ports that agreed cease to exactly when 0 is granted to a client with a port configured; the server's answer closes the connection if and only if the request is malformed; no reply is turned down; the client gains no session but one the server granted |
| `Lockstep.HistoryKeepsSync` | client/client.go:438-898 | SIDs, non-zero ports and cipher state agree over every history of calls |
| `Lockstep.HistoryKeepsPorts` | client/client.go:542-550 | all ports agree over every history in which 0 is never granted to a client with a port configured |
| `Lockstep.PortsAgreeExactly` | client/client.go:542-550 | in step, the ports agree if and only if every session at port 0 is booked at port 0 |
| `Lockstep.ChosenPortExactly` | client/client.go:542-550 | the client books the port granted if and only if it is not 0 or no port is configured |
| `Lockstep.GrantedZeroDiffers` | client/client.go:542-550 | from agreeing ports every exchange that grants 0 to a client with a port configured goes through and leaves the ports different |
| `Lockstep.PortZeroCounterexample` | server/server.go:178-198 | such an exchange: a pool of port 65535 alone, in use; the search finds 0, the server grants it, the client books its own port |
| `Lockstep.EveryCallPossible` | server/server.go:1908-2025 | from every state in step every permitted call makes an exchange the two results above speak of, the handler's own events alone being a run of the machine |
| `Lockstep.StopNPossible` | client/client.go:697-711 | for every number of sessions there is exactly one selection of SIDs, and the call with it is possible |
| `Lockstep.HandleAlone` | server/server.go:393-430 | whatever bytes arrive, what the handler answers with is a run of the machine |
| `Lockstep.SetupInSync` | client/client.go:277-297 | the setup establishes it |
| `Lockstep.FirstMessages` | client/client.go:277-297 | the first messages after the setup: each side encrypts from its own vector, and on a secured connection the server's MAC covers the Server-Start message |
| `Client.ExchangeIsACall` | client/client.go:438-752 | the client's half of an exchange is the client's call, fed with what the server writes |
| `Client.Client.RequestSession` | client/client.go:438-568 | sends exactly the sealed request and consumes exactly the reply; succeeds if and only if the reply is an acceptance, and then books the session and port it names; an error books nothing |
| `Client.Client.RequestSessionIndividual` | client/client.go:755-898 | the same under the caller's SID, for a reply that names it; a SID in use is refused before anything is sent |
| `Client.Client.StartSessions` | client/client.go:571-628 | sends the command unless there is no session, consumes the reply and keeps the sessions whatever it says; succeeds if and only if the reply acknowledges |
| `Client.Client.StopSessions` | client/client.go:637-689 | announces exactly the number of sessions it has and ends without any |
| `Client.Client.StopNSessions` | client/client.go:692-752 | sorts the SIDs, announces exactly the least of them, as many as wanted and available, and drops exactly those |
| `SidOrder.SortedSids` | client/client.go:697-708 | the SIDs of a map, in whatever order it yields them, in strictly ascending order and each once |
| `SidOrder.LessExactly` | client/client.go:700-703 | one SID comes before another exactly when its byte is the smaller one at the first place where they differ |
| `SidOrder.CutSelects` | client/client.go:704-711 | the first n of the sorted SIDs are a selection: n or all of them, ascending, below every SID left out |
| `SidOrder.SelectionExists` | client/client.go:697-711 | for every set of SIDs and every n there is exactly one selection |
| `Reflector.CountSnoc` | server/server.go:1399-1413 | how one more packet changes the number of failures since the last success or the last gap over 30 s |
| `Reflector.TracksTurn` | server/server.go:1386-1468 | the counters keep saying what the whole history of starts and turns says |
| `Reflector.CountBounded` | server/server.go:1436-1447 | from any history on, while a session with a threshold runs its count stays below the threshold, or where it stood if it was started again at the threshold; with less than 2^32 - 1 failures in a streak the 32-bit counter never wraps |
| `Reflector.VerdictMatches` | server/server.go:1360-1447 | after every history, restarts included, the session's decision to stop is the one the history prescribes |
| `Reflector.ClassifyExact` | server/server.go:1345-1468 | what an arrival comes to, told from its bytes: a failed MAC exactly for a packet of at least 48 bytes whose MAC is not that of its first 16 or 32 bytes, a reflection exactly for a readable one whose answer fits 2048 bytes and can be written, an overrun exactly for a readable one whose answer does not fit |
| `Reflector.EndExact` | server/server.go:1342-1447 | how a session with any history ends when an arrival comes in: stopped elsewhere, idle, at the threshold, by an overrun, or not at all, each by its own condition on arrival and history |
| `Reflector.LastActivityExact` | server/server.go:1280-1287 | the idle clock stands at the last start or reflection of the history |
| `Reflector.TestSession.ReflectPackets` | server/server.go:1312-1471 | from any counters that tell a history and for every list of arrivals: the loop ends with the last arrival taken as Idle if and only if that is a read timeout more than REFWAIT after the last start or reflection, as StoppedElsewhere if and only if it is a stop, as TooManyFailures if and only if it is a forged packet that brings the failures since the last success or 30 s gap to the threshold, as Crashed if and only if its answer overruns the buffer; no earlier arrival meets any of these; and it sends exactly the answers to the packets that pass, in order, numbered on from the old number |
| `Reflector.TestSession.Start` | server/server.go:1280-1287 | a start, first or later, sets the idle clock and leaves failure count, time of the last failure and packet number as they are |
| `Reflector.TestSession.constructor` | server/server.go:95-102 | a new session has counted nothing; a configured threshold of 0 means 100 |
| `Reflector.ReflectedAtExact` | server/server.go:1453-1468 | the positions of the reflected packets, each once and in order |
| `Reflector.AnswersNumbered` | server/server.go:1590-1625 | there is one answer for each reflected packet, and the i-th answer answers the i-th of them: the sender reads the first number plus i modulo 2^32, the times of that packet and the stamp it carried |
| `Reflector.NumberIrrelevant` | server/server.go:1474-1822 | what a packet comes to does not depend on the number its answer would carry |
| `Reflector.AnswerParses` | server/server.go:1474-1822 | every answer the reflector makes passes the sender's checks and tells it the reflector's number and times and what the packet had carried |
| `Reflector.TestSession.OnePacket` | server/server.go:1368-1468 | a packet is answered under the current number; its outcome moves the counters and decides on the end as its bytes, keys and mode prescribe |
| `Reflector.TestSession.CountFailure` | server/server.go:1399-1436 | the count restarts at one after a gap over 30 s and grows by one modulo 2^32 otherwise, idle clock and number stay; a stop is asked for exactly at the threshold |
| `Reflector.TestSession.CountReflection` | server/server.go:1453-1468 | advances the number modulo 2^32, clears the failure count and restarts the idle clock |
| `Statistics.StatisticsTrackHistory` | client/test_session.go:482-529 | over every history, duplicates, unknown numbers and wrap included, the counters are the folds of the history and the result keys are the numbers issued |
| `Statistics.PerPacketTotals` | client/test_session.go:574-591 | without duplicates they are totals over the per-packet results, and sent is received plus lost |
| `Statistics.AverageBetween` | client/test_session.go:579-591 | minimum, average and maximum are ordered while sum and count fit their widths |
| `Statistics.LostIsDifference` | client/test_session.go:587 | the loss is the difference if and only if no more replies than packets were counted |
| `Statistics.DuplicateReplyCounterexample` | client/test_session.go:482-529 | one packet answered twice reports 4294967295 lost |
| `Statistics.OrderIrrelevant` | client/test_session.go:611-650 | the order in which the map yields its entries does not change the results |
| `Statistics.SumOrder` | client/test_session.go:611-650 | two listings of the same packets have the same size and latency sum |
| `Statistics.ResultReports` | client/test_session.go:574-673 | the same as a statement about every history, in whatever order the map yields the packets |
| `Statistics.ReceiptExact` | client/test_session.go:482-517 | over every history the result of a packet is that of its last answer: arrival, round-trip time from the packet last sent under the number, reflector latency; a number used again starts without |
| `Statistics.AnswerToExact` | client/test_session.go:482-517 | that answer is the reply after which no other comes for the number and the number is not used again |
| `Statistics.TestSession.SendTestPacket` | client/test_session.go:180-320 | the packet handed out carries the number under which its send time is booked |
| `Statistics.TestSession.ProcessReceivedPacket` | client/test_session.go:395-532 | a reply that fails its checks or names an unknown number changes nothing; any other is one accepted reply of the history, with its round-trip time and latency |
| `Statistics.TestSession.GetResults` | client/test_session.go:574-673 | for a session with any history: packets sent, replies accepted and their difference modulo 2^32; the least and greatest round-trip time; the mean as the wrapped sum cut off by the 32-bit count; and of the packets answered, each once, the least, greatest and mean time the reflector had them by their last answers, or zeros |

## Left out

- Sockets, read deadlines, and the closing of control connections that are idle (SERVWAIT) or open when Server.Stop is called: a history ends there. DSCP and TTL options, interface lookup, allow lists, logging and metrics: input and output.
- AES, HMAC-SHA1, PBKDF2 and random numbers inside; any claim of cryptographic strength or constant time.
- `EncryptBlocks`, `DecryptBlocks` and the client's `sendWithHMAC`: not on the protocol path.
- The square root of the jitter, the delay asymmetry ratio and the one-way delay averages of GetResults: floating point or dependent on synchronised clocks.
- The client's StartSession with its local start of a sender: on the wire it is the StartSessions call, which a history contains. The client's local StopSession tells the server nothing; a history does not contain it.
- `negotiateMode`, `handleClientSetup` and the setup messages as objects: modelled as functions from configuration and message to message and agreed state, so the order in which they assign their fields is not captured.
- The Unmarshal methods of the test packets and of TWAMPTimestamp: modelled as functions from bytes to values; the fields a failing Unmarshal has already assigned are not captured.
- The individual request as an object of its own: it embeds the plain one, whose Marshal and Unmarshal are modelled.
- Reuse of pooled buffers between goroutines; the panic of a slice beyond a buffer's capacity appears as the error BufferOverrun.
- A platform whose int has 32 bits, where controlCommandLength can fail on the length.
- The double close of a session's reflectorDone channel on a restart, and an old reflector loop that is still running then: the loop is modelled alone with its counters.
- The server's TestSession as one object: `Server.TestSession` and `Reflector.TestSession` are its two disjoint groups of fields, the lifecycle under the server's locks and the counters of the reflector goroutine; `conn`, `senderAddr` and the channels are left out.
- Secured test modes without session keys, in which processAndReflect skips decryption and the MAC: the handlers always set the keys.
- Statistics.TestSession.GetResults: states the packet counts and the extremes and averages of round trips and reflector latencies; the jitter and one-way delay fields are left out.
- Lockstep.ExchangeKeepsSync: says nothing about what the server's cleanup does after the connection is closed, which Server.Server.CloseConnection states.
- Statistics.AverageBetween: one direction, because an average can also lie in between by accident after the sum has wrapped.
- Timestamps.NanosExact: assumes the exact floor, as any rounding conversion within one unit may shift single values.
- Timestamps.DurationBetweenReadings: for readings further apart no 32-bit seconds difference can tell the eras apart.
