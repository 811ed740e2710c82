# Verified model of the KNX/IP client's protocol stack

This project models the parts of the client where a mistake would lose, repeat or disclose telegrams, and
proves for all inputs and all runs what those parts are for. Bytes are integers below 256; exceptions are
`Err` results; every block-cipher statement holds for an arbitrary function from key and block to block.

| part | files | main results |
|---|---|---|
| Tunnelling (KNX 03_08_04 Tunnelling, section 2.6) | `TunnelSpec`, `TunnelProtocol`, `TunnelFifo`, `TunnelSender`, `TunnelReceiver`, `TunnelClient`, `SerialQueue` | a sender and a receiver on a network that loses, repeats and reorders: the receiver's log is always a prefix of what was sent, exactly as long as no request is 255 or more telegrams old and no ACK 256 or more; an ordered network keeps that bound; against any ACKs, a telegram is lost exactly after two failed transmissions of one request, and resolved only by an ACK with its counter and status 0x00 |
| Secure session and TCP stream | `Crypto`, `Wrapper`, `Handshake`, `SessionSpec`, `SessionProofs`, `SessionTable`, `SecureSession`, `TcpTransport`, `SecureChannel` | frames sent, sealed, cut into any TCP segments, reassembled, opened and replay-checked come out once each and in order; no endpoint gives the cipher one input twice, and two ends with different serial numbers or tags share none; a session's key always comes from a response that passed its MAC check; the promise of `open` resolves exactly on entering `authenticated`, which only a SESSION_STATUS 0x00 in that phase brings about; every MAC is the end of a CBC chain that every payload byte reaches |
| KNX/IP frames | `Endpoints`, `Frame`, `FrameTable`, `Serializers` | a printed frame parses back, and a parsed one prints back to its bytes, each with its exact condition; the accepted buffers and the place of each field as a table of offsets |
| cEMI, APCI, TPCI (section 2 of KNX 03_03_04) | `Cemi`, `CemiMessage`, `CemiTable`, `Apci`, `Tpci` | print-parse and parse-print round trips, each with its exact condition; the accepted buffers and what printing makes of any frame |
| Data Secure | `DataSecure`, `DataSecureMac`, `DataSecureWriter`, `DataSecureKeys`, `DataSecureOutcomes`, `DataSecureRuns` | decoding is the exact partial inverse of encoding; the whole inbound pipeline; each outcome of the hook from the frame's fields; per-source replay protection over runs |
| DPT 9 (section 3.10 of KNX 03_07_02) | `Dpt9` | least exponent, error bound, monotonicity across exponents and zero, and exactly which values get a nearest encoding |

Code that updates fields or fills buffers is a class or a method with a loop, proved equal to a
specification function; the theorems are about those functions and their runs. `Wrappers`, `Bytes` and
`Runs` hold what the others share. The key store, the clock, random bytes, X25519, SHA-256, PBKDF2 and AES are
parameters; a timeout, a failed send and an arriving datagram are events that may happen at any time.

Where the code and a natural reading of it differ:

- 8-bit counters distinguish an ACK from one 255 telegrams older, but a request only from one 254 telegrams
  older: the receiver may already expect the counter one past the last telegram started, and a request 255
  older than that telegram carries this very counter. `AgeBoundIsExact` states both bounds and that they
  cannot be raised.
- A CONNECT_RESPONSE with an error status announces a longer body than it prints (`LengthAgrees`).
- The transport rejecting the first attempt's send leaves its entry in the ACK slot, and the second attempt
  then finds the slot taken (`BlockedExactly`, with a run that gets there in `BlockedHappens`).
- The DPT 9 encoder normalises by powers of two from 2047, so a value just above 2047 times a power of two is
  rounded up although the finer grid below has a nearer value (`EncodesNearest`; 20.473 in `GapExample`).
- A Data Secure frame that authenticates but holds fewer than two bytes advances the replay tracker and is
  dropped (`ChangesExactly`, and `ShortTextAdvancesTracker` for every such frame).
- The control field of an auth-only Data Secure telegram is not covered by its MAC (`AuthOnlyIgnoresControlField`).

## Model

| member | source | states |
|---|---|---|
| TunnelProtocol.TunnellingSafety | src/io/tunnel.ts:605-735 | over every run of sender, receiver and network with requests under 255 and ACKs under 256 telegrams old, the accepted log is a prefix of the telegrams started, holds every resolved one and misses at most the last |
| TunnelProtocol.AgeBoundIsExact | src/io/tunnel.ts:625-735 | all runs on a network are safe if and only if its request age is below 255 and its ACK age below 256 |
| TunnelProtocol.OldRequestRepeats | src/io/tunnel.ts:709-721 | with requests 255 telegrams old there is a run in which one telegram is accepted twice |
| TunnelProtocol.OldConfirmResolves | src/io/tunnel.ts:667-686 | with ACKs 256 telegrams old there is a run that resolves a send the receiver never saw |
| TunnelProtocol.AckSoundness | src/io/tunnel.ts:667-686 | an ACK that clears the pending entry, in either attempt, was produced for the current telegram after the receiver accepted it |
| TunnelProtocol.RequestRecognised | src/io/tunnel.ts:709-734 | a young request is accepted if and only if it is the next telegram and re-acknowledged if and only if it is the last accepted one |
| TunnelProtocol.ConfirmRecognised | src/io/tunnel.ts:667-686 | a young ACK with the pending counter is for the last telegram started, which the receiver has accepted |
| TunnelProtocol.StepKeeps | src/io/tunnel.ts:393-440 | every event of sender, receiver or network keeps the invariant tying counters, slot, logs and datagrams in flight together |
| TunnelProtocol.RunKeeps | src/io/tunnel.ts:393-440 | so does every run |
| TunnelProtocol.BlockedExactly | src/io/tunnel.ts:812-815 | an attempt finds another ACK pending in exactly one situation: the transport rejected the first attempt's send with its entry still in the slot |
| TunnelProtocol.BlockedHappens | src/io/tunnel.ts:605-621 | on any network, a first send rejected before its ACK is in leaves the second attempt blocked |
| TunnelProtocol.NeverBlocked | src/io/tunnel.ts:812-827 | if the transport rejects nothing, no attempt ever finds another ACK pending, on any network |
| TunnelFifo.OrderedNetworkIsSafe | src/io/tunnel.ts:605-735 | on a network that loses and repeats but keeps order every run is safe |
| TunnelFifo.FifoRefines | src/io/tunnel.ts:605-735 | a run over an ordered network is a run in which nothing is more than one telegram old |
| TunnelFifo.OldestMoves | src/io/tunnel.ts:667-686 | the age bound of ACKs still to come rises only when the current telegram's ACK is taken |
| TunnelSender.LostExactly | src/io/tunnel.ts:393-430 | over every run of the sender, over UDP or TCP: the tunnel is lost if and only if both attempts at the last telegram failed, and then exactly two transmissions with its index, counter and cEMI went out; every telegram before it was resolved by an ACK with its counter and status 0x00 |
| TunnelSender.RetryExactly | src/io/tunnel.ts:407-425 | when an attempt ends, the same request is transmitted once more if and only if it was the first attempt and it failed, by a rejected send, a timeout or a refusing ACK |
| TunnelSender.AckResolvesExactly | src/io/tunnel.ts:667-686 | an ACK counts exactly when its counter is the pending one, and resolves the attempt it belongs to if and only if its status is 0x00; the sender is then idle with the next counter |
| TunnelSender.RunKeeps | src/io/tunnel.ts:393-430 | over every run each telegram has been transmitted as often as it was tried, with the counter of its index, and an acknowledged one has its ACK on record |
| TunnelSender.ProtocolSender | src/io/tunnel.ts:605-686 | the sender of the two-ended protocol is this one, with ACKs of status 0x00 |
| TunnelReceiver.ReceivesExactly | src/io/tunnel.ts:705-735 | whatever requests arrive over UDP, exactly those that carry the number of telegrams passed on, modulo 256, are passed on, in order; the reconnect timer is armed exactly while an out-of-order request is younger than every new one |
| TunnelReceiver.AcknowledgesExactly | src/io/tunnel.ts:697-735 | over UDP new and repeated requests are acknowledged, over TCP all |
| TunnelReceiver.TcpPassesAll | src/io/tunnel.ts:697-704 | over TCP every request is passed on and neither counter nor timer is touched |
| TunnelClient.TunnelClient.constructor | src/io/tunnel.ts:344-345 | an epoch starts with both counters zero and an empty slot |
| TunnelClient.TunnelClient.TunnellingRequestOnce | src/io/tunnel.ts:605-626 | takes the slot or is refused it, sends the request with the current counter (0 over TCP), leaves the receiver alone |
| TunnelClient.TunnelClient.AwaitAck | src/io/tunnel.ts:812-827 | takes the pending slot exactly when it is free |
| TunnelClient.TunnelClient.TransportSent | src/io/tunnel.ts:617-620 | once the transport has taken the request only the ACK is awaited; nothing else changes |
| TunnelClient.TunnelClient.FinishAttempt | src/io/tunnel.ts:393-440 | an acknowledged attempt moves the counter on and sends nothing; a refused first one puts the same request on the wire once more, a refused second one gives up |
| TunnelClient.TunnelClient.SendRejectedByTransport | src/io/tunnel.ts:605-621 | a rejected send fails the attempt and leaves its slot entry behind; after the first the same request goes out again |
| TunnelClient.TunnelClient.Retry | src/io/tunnel.ts:410-425 | the second attempt sends the same counter and cEMI; after it nothing is sent, the counter moves on and the tunnel is lost |
| TunnelClient.TunnelClient.TunnelLost | src/io/tunnel.ts:907-930 | when connected: empties the slot, refusing the attempt waiting on it, and drops the channel without touching the counters; otherwise nothing |
| TunnelClient.TunnelClient.HandleAck | src/io/tunnel.ts:667-686 | only an ACK with the pending counter frees the slot; its status decides how the attempt settles |
| TunnelClient.TunnelClient.AckTimeout | src/io/tunnel.ts:816-826 | a timeout frees the slot and refuses the attempt waiting on it |
| TunnelClient.TunnelClient.SettlePending | src/io/tunnel.ts:678-685 | frees the slot and settles the attempt only if the entry is its own |
| TunnelClient.TunnelClient.BumpSeqOut | src/io/tunnel.ts:628-630 | the outgoing counter wraps at eight bits |
| TunnelClient.TunnelClient.HandleInboundTunnelling | src/io/tunnel.ts:688-735 | accept, acknowledge again or drop, with the ACK echoing channel and counter and nothing sent for a foreign channel |
| TunnelClient.TunnelClient.SendAck | src/io/tunnel.ts:757-767 | one ACK with the request's channel and counter, while there is a transport |
| SerialQueue.OneAtATime | src/io/serialQueue.ts:10-27 | in every run tasks start in submit order and at most one is running |
| SerialQueue.DepthCounts | src/io/serialQueue.ts:10-32 | `depth` is the number of submitted tasks whose outcome the tail has not registered |
| SerialQueue.ResultsAreTheTasks | src/io/serialQueue.ts:10-27 | what `run` returned for a task is settled, one way or the other, if and only if the task itself settled that way |
| SerialQueue.RejectionNeverBlocks | src/io/serialQueue.ts:10-27 | with tasks outstanding one is running or the chain can move on, whatever the earlier outcomes |
| SerialQueue.StepFrontier | src/io/serialQueue.ts:10-27 | every event keeps the line between finished and waiting tasks and moves it only when an outcome is registered |
| SerialQueue.SerialQueue.Submit | src/io/serialQueue.ts:10-27 | one more on the depth and one more link on the chain |
| SerialQueue.SerialQueue.Begin | src/io/serialQueue.ts:10-12 | a task starts once the tail before it is fulfilled |
| SerialQueue.SerialQueue.Finish | src/io/serialQueue.ts:12-26 | a task's own promise settles; the tail has not registered it yet |
| SerialQueue.SerialQueue.OnSettled | src/io/serialQueue.ts:19-26 | the tail handler is the same for both outcomes |
| Crypto.CounterBlockValue | src/secure/crypto.ts:285-290 | counter block i stands for the initial counter plus i modulo 2^128, as in section 6.5 and Appendix B.1 of NIST SP 800-38A |
| Crypto.CtrLaw | src/secure/crypto.ts:285-290 | byte p of the result is byte p of the data against byte p mod 16 of the cipher of the block that stands for the initial counter plus p / 16 modulo 2^128, as in section 6.5 of NIST SP 800-38A |
| Crypto.CtrBlockLaw | src/secure/crypto.ts:285-290 | the same block by block |
| Crypto.CtrInvolution | src/secure/crypto.ts:285-290 | counter mode applied twice gives the data back |
| Crypto.CbcChaining | src/secure/crypto.ts:271-274 | every cipher block is the cipher of its message block and the cipher block before it, as in section 6.2 of NIST SP 800-38A |
| Crypto.MacEndsChain | src/secure/crypto.ts:253-275 | the MAC is the last block of every CBC chain from a zero vector over block_0, the length of the additional data, the additional data, the payload and fewer than sixteen zeroes |
| Crypto.PaddedIsMacBlocks | src/secure/crypto.ts:263-269 | the padded buffer is such an input, for every block_0, additional data and payload |
| Crypto.MacExtends | src/secure/crypto.ts:253-275 | behind whole blocks, a further piece of up to sixteen bytes is one more cipher of the MAC so far against that piece, zero-padded |
| Crypto.MacTellsPayloads | src/secure/crypto.ts:253-275 | for every injective cipher, payloads of one length that differ within one block of the padded input have different MACs |
| Crypto.PadInjective | src/secure/crypto.ts:263-269 | zero padding keeps apart inputs of one length |
| Crypto.BytesXor | src/secure/crypto.ts:300-307 | the loop computes the bytewise exclusive or and refuses unequal lengths |
| Bytes.U48RoundTrip | src/secure/wrapper.ts:24-38 | a 48-bit number written anywhere in a buffer reads back |
| Bytes.U48Print | src/core/bodies/secureWrapper.ts:50-54 | every six bytes are the encoding of the number read from them |
| Bytes.WriteUInt48BE | src/secure/wrapper.ts:24-32 | writes the high and low parts big-endian in place, or refuses a number outside 48 bits and leaves the buffer |
| Bytes.BitXorCancel | src/secure/crypto.ts:300-307 | exclusive or with the same bits twice cancels |
| Wrapper.DecryptInvertsEncrypt | src/secure/wrapper.ts:93-162 | decryption returns a frame if and only if ciphertext and MAC are that frame's encryption in the same context |
| Wrapper.MacInputInjective | src/secure/wrapper.ts:55-74 | the padded MAC input determines session id, sequence id, serial number, tag and payload |
| Wrapper.BlockLayout | src/secure/wrapper.ts:55-74 | where sequence id, serial number, tag, lengths and session id stand in block_0 and in the additional data |
| Wrapper.FrameMacIsChain | src/secure/wrapper.ts:93-117 | a frame's MAC is the end of a CBC chain over its block_0, additional data and bytes |
| Wrapper.FrameMacTells | src/secure/wrapper.ts:93-117 | for every injective cipher, frames of one length that differ within one block of the MAC input have different MACs |
| Wrapper.CipherInputs | src/secure/wrapper.ts:93-117 | block i of encrypted MAC and frame is made with the cipher of the block that stands for sequence id, serial number, tag and 0xff00 + i |
| Wrapper.CounterBlocksDistinct | src/secure/wrapper.ts:62-65 | any two counter blocks of any two wrappers are the same if and only if sequence id, serial number, tag and block number are |
| Handshake.ResponseInputInjective | src/secure/handshake.ts:43-61 | for one client key, the MAC input of a SESSION_RESPONSE determines session id and server key |
| Handshake.AuthenticateInputInjective | src/secure/handshake.ts:72-94 | the same for user id and server key of a SESSION_AUTHENTICATE, whose inputs are never those of a response |
| Handshake.HandshakeMacLaw | src/secure/handshake.ts:43-94 | a handshake MAC is the end of a CBC chain over a zero block and the data, against the cipher of the block that stands for 0xff00 |
| Handshake.DataLayout | src/secure/handshake.ts:43-94 | where the claimed header, session id or user id and the combined keys stand |
| SessionProofs.NoKeystreamReuse | src/io/secureSession.ts:202-230 | over any run of one endpoint every block of every wrapper sent is made, under the one session key, with the cipher of the block its fields prescribe, and two such cipher inputs coincide only for the same block of the same wrapper |
| SessionProofs.DirectionsShareNoKeystream | src/io/secureSession.ts:202-230 | over any two runs, say of the two ends of a session, the cipher inputs of their wrappers coincide if and only if serial number, tag, sequence id and block number do |
| SessionProofs.AdditionalDataOnTheWire | src/secure/wrapper.ts:69-73 | the first eight bytes of a printed wrapper are the additional data of its MAC, the next fourteen the nonce of its key stream |
| SessionProofs.KeyFromCheckedResponse | src/io/secureSession.ts:350-390 | in every run a session with a key took key and session id from one SESSION_RESPONSE that passed its check, and an authenticated session has a key |
| SessionProofs.KeyIsAuthenticated | src/io/secureSession.ts:358-390 | with a device authentication code, that response carried the MAC of its session id and server key under the code |
| SessionProofs.StepKeeps | src/io/secureSession.ts:181-535 | no event lowers the phase, changes an agreed key or session id, or breaks the log of strictly increasing ids; `open` resolves in the step that enters `authenticated` and no other |
| SessionProofs.RunKeeps | src/io/secureSession.ts:181-535 | the same over every run |
| SessionProofs.AuthenticatedOnce | src/io/secureSession.ts:281-297 | no run enters `authenticated` twice |
| SessionProofs.OpenSettles | src/io/secureSession.ts:181-297 | the promise of `open` settles at most once, is pending throughout a handshake, and resolves exactly on entering `authenticated` |
| SessionProofs.AcceptedOrIgnored | src/io/secureSession.ts:441-519 | in any phase a wrapper with a foreign session id, a failing MAC or a stale id changes nothing; an accepted one moves the window to its id, unless it completes the handshake, which clears it |
| SessionProofs.SurfacedIsAuthentic | src/io/secureSession.ts:453-519 | in any phase a surfaced frame is the parse of a plain text whose encryption under the session key and id is the wrapper received |
| SessionProofs.EmittedIdsIncrease | src/io/secureSession.ts:488-519 | over any run after authentication the ids of surfaced frames strictly increase, one id per frame |
| SessionProofs.SendWrappedKeeps | src/io/secureSession.ts:207-230 | each sealing carries the id just used up, so the log of wrappers stays strictly increasing and under one key |
| SessionTable.EntersExactly | src/io/secureSession.ts:425-511 | in every run event n enters `authenticated` if and only if the session was `authenticating` and the event is a SESSION_STATUS 0x00, plain or in a wrapper of this session that is not stale and decrypts under its key; any other status in that phase rejects `open` and closes |
| SessionTable.StepTable | src/io/secureSession.ts:181-535 | for every event in every state: the next phase, how `open` settles, which bytes are sealed and sent under which id, what the application and the listeners see, and every other field |
| SessionTable.RunTable | src/io/secureSession.ts:181-535 | the same for every event of every run |
| SessionTable.AnswersWithPasswordMac | src/io/secureSession.ts:350-422 | a response is answered if and only if it passes the device check and a key can be agreed, and then with SESSION_AUTHENTICATE, the user id and the MAC under the password key over id and both public keys |
| SecureSession.SecureSession.Open | src/io/secureSession.ts:181-199 | from idle only: pending promise, `requesting`, and the SESSION_REQUEST sent |
| SecureSession.SecureSession.Send | src/io/secureSession.ts:202-230 | takes an id before anything can fail, then seals and sends, or throws |
| SecureSession.SecureSession.SendStatus | src/io/secureSession.ts:299-321 | a status is sealed under the next id, if there is a key |
| SecureSession.SecureSession.Close | src/io/secureSession.ts:233-253 | moves to `closing`, stops the keepalive and sends a close status once |
| SecureSession.SecureSession.FinishClose | src/io/secureSession.ts:254-260 | once the inner transport has closed, the session is closed |
| SecureSession.SecureSession.SetState | src/io/secureSession.ts:264-269 | a changed state is announced with its predecessor, an unchanged one is not |
| SecureSession.SecureSession.FailHandshake | src/io/secureSession.ts:271-279 | rejects a pending promise, closes and reports an error |
| SecureSession.SecureSession.CompleteHandshake | src/io/secureSession.ts:281-297 | resolves a pending promise, clears the replay window and arms the keepalive |
| SecureSession.SecureSession.OnSessionResponse | src/io/secureSession.ts:350-422 | checks the MAC, derives the key and sends SESSION_AUTHENTICATE in the first wrapper, or fails the handshake |
| SecureSession.SecureSession.OnPlainSessionStatus | src/io/secureSession.ts:425-439 | a plain status ends the handshake and is ignored otherwise |
| SecureSession.SecureSession.OnSecureWrapper | src/io/secureSession.ts:441-520 | decrypts in the context the wrapper names, checks the window after the MAC, then dispatches the inner frame |
| SecureSession.SecureSession.OnInnerFrame | src/io/secureSession.ts:495-519 | a status completes, fails or closes by phase; anything else is surfaced |
| SecureSession.SecureSession.OnFrame | src/io/secureSession.ts:331-348 | dispatch of an inner frame by its body |
| SecureSession.SecureSession.OnInnerError | src/io/secureSession.ts:522-528 | an error of the inner transport fails a pending handshake and is passed on otherwise |
| SecureSession.SecureSession.OnInnerClose | src/io/secureSession.ts:530-535 | the transport closing stops the keepalive and closes the session |
| TcpTransport.TcpTransport.OnData | src/io/tcpTransport.ts:124-185 | the loop terminates, emits what the accumulated buffer yields and keeps the rest, which is under 65535 bytes |
| TcpTransport.SegmentationIndependence | src/io/tcpTransport.ts:124-185 | any list of chunks gives the events and residue of their concatenation fed once, for every parser |
| TcpTransport.ResidueIsDrained | src/io/tcpTransport.ts:124-185 | what is left in the buffer yields nothing without more bytes |
| TcpTransport.FramesSurviveTheStream | src/io/tcpTransport.ts:124-185 | any list of canonical frames, printed and cut anywhere, comes out as that list with nothing left |
| TcpTransport.NoiseIsSkipped | src/io/tcpTransport.ts:131-172 | bytes in front of frames, none of which begins a header of at least six bytes in length, cost one 'raw' event each and no frame |
| TcpTransport.StreamTable | src/io/tcpTransport.ts:124-185 | what a buffer yields from its first six bytes: nothing, six raw bytes and one skipped, nothing while a frame is incomplete, or one event for the whole frame |
| TcpTransport.RefusedFrameIsRaw | src/io/tcpTransport.ts:155-185 | a complete frame the frame parser refuses is surfaced as raw and passed over in one piece |
| SecureChannel.EndToEnd | src/io/secureSession.ts:202-230 | any sends and keepalives, printed, cut into any chunks and fed to a peer with the same key and session id, surface exactly the transmitted frames in order with nothing left over |
| SecureChannel.DeliveredAsSent | src/io/secureSession.ts:441-520 | the same for whole wrappers delivered in order |
| SecureChannel.PeerOpens | src/io/secureSession.ts:453-495 | the peer finds in a wrapper the very frame that was sealed |
| SecureChannel.SendReachesTheWire | src/io/secureSession.ts:202-230 | a send puts a wrapper on the wire if and only if the session is ready, an id is left and the sealed frame fits its length field |
| SecureChannel.EverythingTransmitted | src/io/secureSession.ts:202-230 | with ids left and frames that fit, every submitted frame is transmitted |
| Endpoints.HpaiParsePrint | src/core/hpai.ts:58-82 | the parser accepts at an offset exactly the printed forms and returns what was printed |
| Endpoints.CriRoundTrip | src/core/cri.ts:41-80 | a printed CRI parses back if and only if a non-tunnel one carries neither layer nor address |
| Endpoints.CrdRoundTrip | src/core/cri.ts:110-140 | a printed CRD parses back if and only if it has an address exactly when it is a tunnel |
| Frame.HeaderParsePrint | src/core/knxipHeader.ts:26-52 | the header parser accepts exactly the printed headers |
| Frame.LengthAgrees | src/core/bodies/connectResponse.ts:34-79 | a body prints as many bytes as it announces, except a CONNECT_RESPONSE with an error status |
| Frame.FrameRoundTrip | src/core/knxipFrame.ts:49-130 | a frame built from a body and printed parses back, all bytes read, if and only if the body is canonical; then the header's length is the printed length |
| Frame.FrameParsePrint | src/core/knxipFrame.ts:61-130 | for a buffer that is one frame read to its end and no error response, printing the parsed body gives the buffer with its reserved byte zero; the very buffer comes back if and only if that byte was zero; the parsed body is canonical exactly when it is no error response |
| Frame.ConnectRequestRoundTrip | src/core/bodies/connectRequest.ts:27-55 | two endpoints and a CRI behind one another parse back if and only if the CRI is canonical |
| Frame.ConnectResponseRoundTrip | src/core/bodies/connectResponse.ts:38-79 | a successful response parses back if and only if its CRD is canonical |
| Frame.SecureWrapperRoundTrip | src/core/bodies/secureWrapper.ts:82-126 | the variable-length wrapper body parses back with its four integers, frame and MAC |
| Frame.SessionBodiesRoundTrip | src/core/bodies/sessionResponse.ts:46-71 | session request, response and authenticate bodies parse back |
| Frame.BodyRoundTrip | src/core/knxipFrame.ts:83-130 | dispatch by service type parses each printed body as itself |
| FrameTable.FrameAccepted | src/core/knxipFrame.ts:61-130 | which buffers are accepted, by length, header bytes and the form of each body, which service types are unsupported, and what header is returned |
| FrameTable.BodyAccepted | src/core/knxipFrame.ts:83-130 | the same for each body by service type |
| FrameTable.FieldsRead | src/core/knxipFrame.ts:83-130 | the byte each channel, counter, status, session field and payload is read from |
| FrameTable.NestedRead | src/core/bodies/connectRequest.ts:31-47 | where endpoints, CRI and CRD are read, and what a connection of another type gets instead |
| FrameTable.ResponseParsed | src/core/bodies/connectResponse.ts:38-68 | a response of any status printed in full parses to itself, and the short form gets a route-back endpoint and an empty CRD |
| FrameTable.ErrorResponsePrinted | src/core/bodies/connectResponse.ts:34-79 | an error response is eight bytes behind a header that announces more |
| FrameTable.HeaderBytes | src/core/knxipHeader.ts:45-52 | the six bytes in front of every body |
| FrameTable.HpaiBytes | src/core/hpai.ts:75-82 | the eight bytes of an endpoint |
| FrameTable.CriBytes | src/core/cri.ts:69-80 | the bytes of every CRI, those that do not survive a round trip included |
| FrameTable.CrdBytes | src/core/cri.ts:133-140 | the same for every CRD |
| Serializers.HeaderToKnx | src/core/knxipHeader.ts:45-52 | the buffer filled in place is the specified header |
| Serializers.HpaiToKnx | src/core/hpai.ts:75-82 | the same for an endpoint |
| Serializers.CriToKnx | src/core/cri.ts:69-80 | the same for a CRI, whose length depends on type and address |
| Serializers.CrdToKnx | src/core/cri.ts:133-140 | the same for a CRD, zeroes where a tunnel has no address |
| Serializers.TunnellingRequestToKnx | src/core/bodies/tunnellingRequest.ts:61-69 | the same for a TUNNELLING_REQUEST |
| Serializers.SecureWrapperToKnx | src/core/bodies/secureWrapper.ts:117-126 | the same for a SECURE_WRAPPER |
| Serializers.EncodeCmdAndPayload | src/core/apci.ts:110-130 | the buffer holds the service with a small value in its low bits, or the bytes behind it |
| Serializers.CriFromKnx | src/core/cri.ts:46-67 | a CRI built with defaults and then assigned is what the specification parses |
| Serializers.ConnectRequestFromKnx | src/core/bodies/connectRequest.ts:31-47 | the advancing position gives the specified parse, errors included |
| Serializers.ConnectResponseFromKnx | src/core/bodies/connectResponse.ts:38-68 | the same, with the two-byte error form |
| Tpci.EncodeResolve | src/core/tpci.ts:62-124 | an encoded TPCI with APCI bits below it resolves to itself if and only if it fits the destination |
| Tpci.ResolveEncode | src/core/tpci.ts:62-124 | whatever resolves is canonical for its destination and re-encodes to the byte without APCI bits |
| Tpci.Bits | src/core/tpci.ts:62-124 | which bits say control, numbered, the sequence number and the kind of control, for every TPCI |
| Apci.EncodeDecode | src/core/apci.ts:97-163 | a service decodes from its encoding if and only if it is canonical |
| Apci.DecodeEncode | src/core/apci.ts:97-163 | every APDU of two bytes or more decodes, and encoding gives it back without TPCI bits, bits beside a value and bytes behind a read; so the very bytes come back if and only if none of these were there |
| Apci.DecodesAs | src/core/apci.ts:132-163 | which of the four services each ten-bit code is, and where its value stands |
| Apci.EncodesAs | src/core/apci.ts:97-130 | the bytes of every service, values outside six bits included |
| Apci.EncodedLength | src/core/apci.ts:77-88 | the NPDU length of a canonical service is its encoding's length less one |
| Cemi.LDataRoundTrip | src/core/cemi.ts:108-189 | printed L_Data parses back if and only if flag, address, TPCI and payload fit together |
| Cemi.ParsedIsCanonical | src/core/cemi.ts:144-189 | whatever the parser accepts is canonical |
| Cemi.ParsePrintParse | src/core/cemi.ts:123-189 | every accepted buffer's frame prints and parses to the same frame |
| Cemi.FrameRoundTrip | src/core/cemi.ts:214-247 | a cEMI frame survives printing and parsing if and only if its code is known, its info fits one byte and its data is canonical |
| CemiTable.LDataAccepted | src/core/cemi.ts:144-189 | L_Data is accepted if and only if eight bytes are there, the TPCI fits the destination, a control TPDU is empty and a data TPDU has one byte more and all it announces; which error otherwise |
| CemiTable.LDataRead | src/core/cemi.ts:144-189 | where each field of an accepted L_Data is read |
| CemiTable.FrameAccepted | src/core/cemi.ts:224-247 | a cEMI frame is accepted if and only if its code is one of three and information and data are there |
| CemiTable.PrintFails | src/core/cemi.ts:108-121 | printing fails exactly where a control TPDU has a payload or a data TPDU has none |
| CemiTable.DataPrinted | src/core/cemi.ts:123-142 | every data TPDU in print, those that do not come back included: the length cut to one byte, the APDU padded to two bytes, the TPCI OR-ed in |
| CemiTable.ControlPrinted | src/core/cemi.ts:123-134 | every control TPDU in print |
| CemiTable.ParsedPrints | src/core/cemi.ts:123-189 | printing any accepted data TPDU gives its fields and its APDU tidied under the TPCI bits it came with |
| CemiMessage.ParsePrint | src/core/cemi.ts:123-189 | printing a parsed frame restores its very bytes if and only if decoding its APDU dropped nothing |
| CemiMessage.FrameParsePrintParse | src/core/cemi.ts:214-247 | every accepted cEMI buffer's frame prints and parses to the same frame |
| CemiMessage.HopsChangeNothingElse | src/core/cemi.ts:100-106 | a hop count set is read back and no other flag bit, the address flag included, changes |
| CemiMessage.CEMILData.SetHops | src/core/cemi.ts:104-106 | replaces the hop bits of the flags field only |
| CemiMessage.CEMILData.CalculatedLength | src/core/cemi.ts:108-121 | the announced length is the printed length, and it throws exactly where printing does |
| CemiMessage.CEMILData.ToKnx | src/core/cemi.ts:123-142 | the buffer filled in place, TPCI bits OR-ed in, is the specified print |
| DataSecure.DecodeInvertsEncode | src/secure/dataSecure.ts:119-242 | a telegram is the encoding of a request if and only if it decodes to that request's fields and its first and control bytes are ones the encoder writes |
| DataSecure.DecodeDataExact | src/secure/dataSecure.ts:144-160 | a DATA telegram is accepted if and only if it is the securing of at most 254 bytes under its own control field, and those bytes are returned |
| DataSecure.DecodeSyncExact | src/secure/dataSecure.ts:132-142 | a SYNC_REQ is accepted if and only if cipher and MAC are the encryption of the six bytes returned, with control field and serial authenticated |
| DataSecure.AuthConfInverse | src/secure/dataSecure.ts:166-253 | authenticated decryption returns a text if and only if the input is its encryption |
| DataSecure.AuthOnlyExact | src/secure/dataSecure.ts:183-263 | an auth-only MAC verifies if and only if it is the one the sender computes |
| DataSecure.AuthOnlyIgnoresControlField | src/secure/dataSecure.ts:144-160 | another auth-only DATA control field in a telegram leaves acceptance as it was and changes only the flags returned |
| DataSecureMac.MacInputInjective | src/secure/dataSecure.ts:60-74 | the padded MAC input determines, and depends only on, sequence, both addresses, address type, TPCI, additional data and payload |
| DataSecureMac.BlockLayout | src/secure/dataSecure.ts:60-89 | where each field stands in block_0 and in the initial counter |
| DataSecureMac.TagIsChain | src/secure/dataSecure.ts:166-263 | the tag is the first four bytes of the end of a CBC chain over block_0, additional data and payload |
| DataSecureMac.FullMacTells | src/secure/dataSecure.ts:166-263 | before the cut, for every injective cipher, payloads of one length that differ within one block of the MAC input have different MACs |
| DataSecureMac.CipherInputs | src/secure/dataSecure.ts:166-242 | block i of a telegram's encrypted part, the tag first, is made with the cipher of the block that stands for sequence, both addresses and 0x100 + i; without confidentiality the text is in the clear |
| DataSecureMac.CipherInputsDistinct | src/secure/dataSecure.ts:77-89 | those cipher inputs of any two telegrams coincide if and only if sequence, both addresses and block number do |
| DataSecureMac.CounterBlocksDistinct | src/secure/dataSecure.ts:77-89 | two counter blocks coincide if and only if sequence, both addresses and block number do |
| DataSecureWriter.ReadU48BE | src/secure/dataSecure.ts:40-44 | six weighted terms are the big-endian number |
| DataSecureWriter.WriteU48BE | src/secure/dataSecure.ts:46-57 | divisions and 32-bit shifts write the big-endian number in place, or a range error leaves the buffer |
| DataSecureWriter.MakeBlock0 | src/secure/dataSecure.ts:60-74 | the buffer filled in place is the specified block |
| DataSecureWriter.MakeCtr0 | src/secure/dataSecure.ts:77-89 | the same for the initial counter block |
| DataSecureWriter.EncodeDataSecure | src/secure/dataSecure.ts:212-242 | the buffer filled front to back is the specified telegram, each error in its place |
| DataSecureKeys.InMemoryDataSecureKeys.SetGroupKey | src/secure/dataSecureKeys.ts:44-47 | replaces one group key, the address masked to 16 bits |
| DataSecureKeys.InMemoryDataSecureKeys.SetP2pKey | src/secure/dataSecureKeys.ts:48-51 | replaces one point-to-point key, the address masked to 16 bits |
| DataSecureKeys.InMemoryDataSecureKeys.SetToolKey | src/secure/dataSecureKeys.ts:52-55 | replaces the tool key and nothing else |
| DataSecureKeys.InMemoryDataSecureKeys.SetBackboneKey | src/secure/dataSecureKeys.ts:56-59 | replaces the backbone key and nothing else |
| DataSecureKeys.InMemoryDataSecureKeys.ResolveKey | src/secure/dataSecureKeys.ts:61-66 | backbone for system broadcast, the tool key or the source's for tool access, the group's or the source's otherwise |
| DataSecureKeys.EachKeyServes | src/secure/dataSecureKeys.ts:44-66 | storing a key changes the answer for exactly the telegrams that key is for |
| DataSecureKeys.DataSecureAntiReplay.CheckAndUpdate | src/secure/dataSecureKeys.ts:84-89 | true exactly for a sequence above the source's last, which then becomes the last |
| DataSecureKeys.DataSecureAntiReplay.Reset | src/secure/dataSecureKeys.ts:91-94 | forgets one source or all |
| DataSecureKeys.HandleSecuredCemi | src/secure/dataSecureKeys.ts:111-170 | outcome, tracker and frame after the call are those of the specified hook; nothing but payload and tracker is written |
| DataSecureOutcomes.PassesExactly | src/secure/dataSecureKeys.ts:111-122 | a telegram passes through, frame and tracker untouched, if and only if its payload is not a raw APDU with service 0x3f1 or there is no key store |
| DataSecureOutcomes.DroppedUnkeyed | src/secure/dataSecureKeys.ts:124-141 | too short if and only if under three bytes, no key if and only if none is stored for this sender, destination and control field; neither changes anything |
| DataSecureOutcomes.KeyedOutcome | src/secure/dataSecureKeys.ts:143-170 | with a stored key: when decoding fails, when the service is not DATA, when it is a replay, when the text is no service, and when it is decrypted |
| DataSecureOutcomes.ResolvesStored | src/secure/dataSecureKeys.ts:61-66 | the key stored for a telegram by broadcast, tool access, group or source, and exactly when there is none |
| DataSecureOutcomes.DecodesExactly | src/secure/dataSecure.ts:119-163 | a telegram decodes if and only if the key has sixteen bytes, its form is right and it protects some text; the fields returned are those of its bytes |
| DataSecureOutcomes.RefusedBecause | src/secure/dataSecure.ts:119-163 | the reason of every refusal, in the order of the checks |
| DataSecureOutcomes.EncodesExactly | src/secure/dataSecure.ts:212-242 | what the encoder refuses and why, and the head and control field it writes otherwise |
| DataSecureRuns.Pipeline | src/secure/dataSecureKeys.ts:111-170 | a canonical service, secured in either mode and handled with the matching key, comes out as itself if its sequence is fresh and is dropped as a replay otherwise; the frame survives cEMI if and only if the service encodes to at most 243 bytes |
| DataSecureRuns.SequencesIncrease | src/secure/dataSecureKeys.ts:80-95 | over any run on one tracker the decrypted sequences of each source strictly increase |
| DataSecureRuns.SourcesAreIsolated | src/secure/dataSecureKeys.ts:80-89 | what a source gets in a mixed run is what it gets alone |
| DataSecureRuns.ChangesExactly | src/secure/dataSecureKeys.ts:131-169 | the tracker moves if and only if a telegram authenticates and is fresh, the payload changes if and only if it also holds a service; a missing key, failed MAC or replay changes neither |
| DataSecureRuns.ShortTextAdvancesTracker | src/secure/dataSecureKeys.ts:155-169 | every genuine fresh telegram with a one-byte text is dropped and still uses up its sequence number |
| DataSecureRuns.DecryptedIsGenuine | src/secure/dataSecureKeys.ts:135-169 | a secured frame is decrypted if and only if it is, byte for byte, a fresh securing of a service under the resolved key for its own addresses; that service becomes the payload |
| DataSecureRuns.SecuredIsCanonical | src/secure/dataSecure.ts:212-242 | a secured frame is canonical cEMI if and only if its plain text has at most 243 bytes |
| Dpt9.Encode2ByteFloat | src/dpt/dpt9.ts:46-66 | the normalising loop terminates and yields the specified bytes; out of range is an error |
| Dpt9.Decode2ByteFloat | src/dpt/dpt9.ts:32-44 | exponent, sign and significand taken apart as the layout says; a wrong payload is an error |
| Dpt9.EveryPairInRange | src/dpt/dpt9.ts:14-44 | every pair of bytes decodes within the limits, so the decoder rejects none |
| Dpt9.ExponentLeast | src/dpt/dpt9.ts:53-58 | the loop stops at the least number of halvings that fits twelve bits |
| Dpt9.EncodingError | src/dpt/dpt9.ts:46-66 | every value in range decodes, once encoded, to within 2^exponent/200 of itself |
| Dpt9.EncodingShape | src/dpt/dpt9.ts:46-66 | the exponent written is at most 15 and the least that fits, the mantissa has twelve bits |
| Dpt9.RoundsHalvesUp | src/dpt/dpt9.ts:59-66 | rounding gives the nearest integer, of two equally near ones the larger |
| Dpt9.PackUnpack | src/dpt/dpt9.ts:59-65 | sign, exponent and mantissa unpack to what was packed |
| Dpt9.RoundTripMonotone | src/dpt/dpt9.ts:32-66 | encoding then decoding is monotone over all values in range |
| Dpt9.DecodeEncode | src/dpt/dpt9.ts:32-66 | re-encoding a decoded value decodes to the same value, and gives the same bytes if and only if they use the least exponent |
| Dpt9.EncodesNearest | src/dpt/dpt9.ts:46-66 | no pair of bytes is nearer than the encoder's choice if and only if the value is not just above the top of an exponent's range |
| Dpt9.GapExample | src/dpt/dpt9.ts:46-66 | 20.473 encodes to 20.48 although a pair for 20.47 exists |

## Left out

- Sockets, timers, event listeners and promise scheduling as such; re-entrant listeners and an 'error' event without a listener.
- AES, X25519, PBKDF2 and SHA-256, which are parameters; AES-CMAC and the AES-CCM helpers, which no modelled path uses.
- What makes the handshake's keys secret or the MACs unforgeable: nothing is proved about an adversary's chances.
- Service types other than the thirteen modelled bodies (search, description, routing, timer notification): the frame parser treats them as unsupported.
- The tunnel's lifecycle across epochs: `connect`, heartbeat, reconnection and the third send after it, `disconnect` racing a send, and ACKs that outlive their connection. The tunnelling theorems hold within one epoch in state `connected`.
- The tunnel over TCP in the network theorems: its receiver checks no counter; each end by itself is covered.
- Addresses as strings; they are 16-bit numbers here, and an endpoint's IPv4 address is its four bytes.
- IEEE rounding in DPT 9: values are exact reals, so a result that depends on the last bit of a double is not covered. NaN and infinities, which the encoder rejects, do not exist in the model.
- The other DPT codecs, the group-address matcher, routing and discovery clients, the bus monitor, ETS import, scheduling and the command line and web examples.
- Data Secure telegrams with TPCI bits through cEMI: the cEMI parser clears those bits, so the pipeline is stated for a zero TPCI byte.
- Tunnel statistics, logging texts and the wording of error reasons.
- DataSecure.DecodeSyncExact: bytes between cipher and MAC of a SYNC_REQ longer than 25 bytes do not enter the decoder's decision, and the statement says nothing about them.
- SessionProofs.EmittedIdsIncrease: starts after authentication, because completing the handshake clears the replay window.
