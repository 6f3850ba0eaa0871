# A verified model of the noise tunnel

This project models the secure-session stack of noise-tunnel-rs in Dafny and proves what it
does over all inputs, all runs and all interleavings: the anti-replay window, the wire codec,
the nonce-counting cipher, the handshake, the server's and the client's transport loops, and
the admission counter of the accept loop. `dafny verify dfyconfig.toml` checks everything.

| file | models |
|---|---|
| `Words.dfy` | bytes, 64-bit words, big-endian and little-endian fields |
| `Bitmap.dfy` | the 128-bit word of the replay window (`bv128`), as a set of bit positions |
| `Replay.dfy` | `ReplayFilter`: a class, the step it performs, and the simple filter it stands for |
| `Codec.dfy` | `WireFrame`: one printer, two parsers, the output buffer and the chunked stream |
| `Primitives.dfy` | the cryptographic library and the lossy text conversion, as parameters with laws |
| `Cipher.dfy` | `CipherState`: a class, capacity of one key, a sender paired with a receiver |
| `Session.dfy` | traffic counters, one step of each peer, and the two loops as functions |
| `Live.dfy` | what holds in a server session whatever frames arrive |
| `Hostile.dfy` | both peers on a network that drops, repeats, reorders, alters or invents frames |
| `HostileBytes.dfy` | both loops on arbitrary byte streams |
| `Echo.dfy` | an honest session: each loop fed with the other's bytes |
| `Channel.dfy` | the peers joined by two byte queues, in any interleaving; the exact size limit |
| `Handshake.dfy` | agreement, binding of both messages to their transcript, what an accepted answer proves |
| `FreeTerms.dfy` | the same handshake over free terms: exact acceptance, exact sharing of keys |
| `Secrecy.dfy` | what a network without the private keys can make, and whom the first reply authenticates |
| `Peers.dfy` | handshake and transport together, as functions of the bytes received |
| `Programs.dfy` | the server and the client as written: objects updated in place, loops over streams |
| `Admission.dfy` | the accept loop and its handlers as interleaved atomic steps |

How the pieces fit: `Programs` holds methods in the form of the original (mutable ciphers,
filter, metrics, streams) and each is proved equal to a function of `Replay`, `Codec`,
`Cipher`, `Session`, `Handshake` or `Peers`; the theorems are about those functions.
`Session.LoopIsFold` and `Session.ClientLoopIsFold` carry statements about lists of frames over
to arbitrary bytes. The handshake is written once, over strings of any alphabet: with bytes it
is the program's, with the symbols of `FreeTerms` it is the symbolic protocol.

## Conventions

- Library calls are fields of `Library`; `Lawful` states what is assumed of them: sealing adds
  a 16-byte tag and opening undoes sealing and nothing else (section 2.8 of RFC 8439), and both
  sides of a Diffie-Hellman exchange agree (section 6.1 of RFC 7748). `Primitives.LawsHaveModel`
  shows the laws consistent over bytes, where SHA-256 and HKDF are arbitrary functions and
  nothing is injective on fixed-length outputs. There `Handshake.InitBinding` and
  `Handshake.AckBinding` are reductions: they name a SHA-256 collision, or a second context in
  which the acceptance took place. `FreeTerms.FREE` is a lawful library over another alphabet
  in which neither exists (`FreeTerms.FreeIsLawful`, `FreeTerms.NoCollision`,
  `FreeTerms.OpensOnlyWhereSealed`), and for it the same statements are equivalences without a
  side condition.
- The hostile runs over bytes assume that a ciphertext which opens under a peer's write key, for
  some nonce and associated data, was returned by that peer's `encrypt` for that nonce and that
  associated data, whatever type byte the frame around it bears (`Hostile.Unforged`, `HostileBytes.UnforgedBytes`, `Cipher.Genuine`).
  Over free terms `Secrecy.TransportKeysStaySecret` and `Secrecy.SealWasShown` prove that a
  network with neither the client's ephemeral nor the server's static key has no such
  ciphertext but those it was shown.
- `u64` fields are bounded integers. The length cast to 32 bits and the unchecked increment of
  `decrypt` are written out; the increment wraps, as in a release build, and
  `Cipher.PairedPeers`, `Hostile.HostileDelivery` and `Live.LiveSessionCoupling` show where it
  never gets that far.
- `bitmap << d` is written as d one-bit shifts of a `bv128` (`Bitmap.Shl`) and proved equal to the
  machine's shift (`Bitmap.ShlMachine`); `|`, `&` and the one-bit shift are the machine's own.
- Randomness is a parameter: ephemeral key pairs are given. A socket is a queue of chunks with
  the semantics of `read_exact`; a short read at end of stream loses the bytes it had taken.
- "Well-formed UTF-8" is "left alone by the lossy conversion", and a line typed at the client
  is assumed to be so, as a Rust `&str` is.

## Where the code and its documentation disagree

The model follows the code.

- README.md:36 promises that out-of-order frames are let through. The window alone does so
  (`Replay.ArrivalOrderIrrelevant`), but in a session `decrypt` insists on the exact next
  counter, so such a frame ends the session (`Live.OnlyTheNextFrameSurvives`) and the window
  never changes what a session does (`Live.FilterTransparency`).
- README.md:167 calls the Close frame authenticated. src/client.rs:287-288 sends it with an empty,
  unsealed payload and src/server.rs:291-294 acts on any Close frame: `Hostile.CloseNeedsNoKey` is
  a run that ends cleanly with a message undelivered and nothing forged, and a session ends
  cleanly exactly when some frame of that type reaches the running server
  (`Hostile.ClosesExactly`). Over honest channels a clean end is the client's own, after
  everything was delivered (`Channel.TrafficConservation`).
- README.md:317 says nonce overflow raises an error. `encrypt` does that; `decrypt` increments
  unchecked (src/crypto/mod.rs:269). `Cipher.LastCounterOverflows` is the input, and
  `Cipher.OverflowsExactly` the condition: more ciphertexts opened than counters were left.
- README.md:15 and README.md:301 say the server is authenticated by the handshake, which only it can
  complete. The key of the answer depends on the ephemeral exchange and public values alone
  (src/server.rs:232, src/client.rs:148), so accepting an answer proves nothing about who made it
  (`Handshake.AnswerNeedsNoStaticKey`, `Secrecy.NetworkCanAnswer`). What is true: a client shares
  keys with a server run exactly when their transcripts are the same
  (`FreeTerms.KeysSharedExactly`), and the first reply that opens was sealed by such a run
  (`Secrecy.FirstReplyAuthenticates`).

README.md:91 gives one 64 KB limit for frames. What follows from it, and is not said there, is
that the longest line a user can send is 65496 bytes: the echo of a longer one is a frame the
client refuses (`Channel.EchoLimit`).

## Model

| member | source | states |
|---|---|---|
| Replay.BitmapRefinesSet | src/protocol/mod.rs:380-440 | after any history of offers and resets on a filter of any requested size, the bitmap has decided every offer, and decides the next, exactly as a filter that remembers the whole set of accepted numbers; `has_seen` is true exactly of the numbers the next call would refuse |
| Replay.ValidateStep | src/protocol/mod.rs:394-440 | one call accepts a number exactly when it was never accepted and no accepted number is a window size or more ahead; the invariant over all 128 bits is kept (every set bit is true, bits below the window size are complete), through shift drop-off, far jumps and stale high bits |
| Replay.NeverAcceptedTwice | src/protocol/mod.rs:393-440 | in any run without reset no sequence number is accepted at two different steps |
| Replay.QueriesDescribeSet | src/protocol/mod.rs:457-491 | `has_seen` holds exactly of accepted numbers and those below `min_valid_seq`; a number is admissible exactly when it is new and at least `min_valid_seq` |
| Replay.WiderWindowAcceptsMore | src/protocol/mod.rs:380-445 | two filters of sizes narrow <= wide on one history: wherever the narrow one accepts so does the wide one, and both report the same highest number |
| Replay.ArrivalOrderIrrelevant | src/protocol/mod.rs:405-439 | distinct numbers lying within one window are all accepted in any order, and any two orders end in the same state: last number, bitmap and counters |
| Replay.ReplayFilter.WithWindowSize | src/protocol/mod.rs:380-391 | a new filter is empty, with the requested size clamped to 1..128 |
| Replay.ReplayFilter.ValidateAndRecord | src/protocol/mod.rs:394-440 | the in-place update: accepts exactly the admissible numbers, records exactly the accepted ones, keeps the invariant, and equals the step function in state and verdict |
| Replay.ReplayFilter.Seen | src/protocol/mod.rs:458-471 | answers without change whether a number was accepted or is too old |
| Replay.ReplayFilter.Reset | src/protocol/mod.rs:518-525 | back to an empty filter of the same size |
| Replay.ClampIsNearest | src/protocol/mod.rs:380-391 | the size is the requested one when it lies in 1..128, and always the admissible size nearest to it |
| Replay.RefusalsExplained | src/protocol/mod.rs:419-437 | a refusal names its reason: below the window, or in it and accepted before |
| Replay.EveryOfferCounted | src/protocol/mod.rs:394-440 | between resets every offer is counted once as seen and once as accepted or rejected |
| Replay.ResetForgets | src/protocol/mod.rs:518-525 | after a reset a history runs as on a new filter |
| Bitmap.BitsShl | src/protocol/mod.rs:407-409 | a left shift by any amount moves every set position up and drops those past 127 |
| Bitmap.ShlMachine | src/protocol/mod.rs:407-409 | for every amount below 128 the iterated one-bit shift is the machine's shift by that variable amount |
| Bitmap.BitsOr | src/protocol/mod.rs:427-436 | setting bit d adds position d and nothing else |
| Bitmap.BitsInjective | src/protocol/mod.rs:361 | a 128-bit word is determined by its set of positions |
| Codec.WireLayout | src/protocol/mod.rs:251-260 | every byte of a printed frame: length and nonce as quotients, most significant first, the number of the type, the payload |
| Codec.TypeNumbers | src/protocol/mod.rs:81-97 | the five type numbers, both ways, and no others |
| Codec.FromBytesInvertsSerialize | src/protocol/mod.rs:193-200 | parsing a printed buffer gives the frame back exactly when the payload is at most `max_payload_size`, at every length including those where the 32-bit cast truncates, and is refused otherwise |
| Codec.SerializeInvertsFromBytes | src/protocol/mod.rs:278-315 | whatever buffer parses, printing the result is that buffer |
| Codec.ReadInvertsSerialize | src/protocol/mod.rs:318-345 | reading a printed frame from a stream gives that frame and leaves exactly what follows it, exactly when the payload is within the limit |
| Codec.ParsersAgree | src/protocol/mod.rs:278-345 | the stream reader yields f after n bytes exactly when the buffer parser yields f on the first n, and then n is 4 plus the length field |
| Codec.BufferOutcomes | src/protocol/mod.rs:278-315 | for every length field and body: which of the four errors, or success, exactly when |
| Codec.LengthsRefused | src/protocol/mod.rs:318-345 | the stream reader refuses a length, consuming nothing after it, exactly below 9 and above 65536 |
| Codec.StreamOutcomes | src/protocol/mod.rs:318-345 | within those bounds only an unknown type can fail, and the body is consumed either way |
| Codec.ReadIsIncremental | src/protocol/mod.rs:318-345 | a read that had enough bytes does not depend on what follows; one that ran out is decided by some continuation |
| Codec.StreamRoundTrip | src/protocol/mod.rs:251-260 | printing any list of frames and reading to the end gives that list and consumes every byte, exactly when all payloads are within the limit |
| Codec.SerializeInvertsReadAll | src/protocol/mod.rs:318-345 | the frames read from any bytes, printed again, are the bytes consumed |
| Codec.UniquelyDecodable | src/protocol/mod.rs:251-260 | lists of frames within the limit with the same bytes are equal |
| Codec.PrefixFree | src/protocol/mod.rs:251-260 | no frame within the limit is a proper prefix of another |
| Codec.CastHidesExtension | src/protocol/mod.rs:252-256 | without the limit prefix-freedom fails: a frame is a prefix of its extension exactly when the extension is a multiple of 2^32 bytes |
| Codec.SerializeInto | src/protocol/mod.rs:251-260 | the buffer keeps what it held and gains the serialised frame |
| Codec.ByteStream.ReadExact | src/protocol/mod.rs:320 | fills a buffer from chunks of any size; what it returns and leaves depends only on the concatenation |
| Codec.ReadFrom | src/protocol/mod.rs:318-345 | result and remaining bytes are those of the reader function, however the bytes were chunked |
| Primitives.LawsHaveModel | src/crypto/mod.rs:218-271 | the laws assumed of the library are consistent over bytes |
| Cipher.NonceBytes | src/crypto/mod.rs:211-215 | every byte of the nonce: eight of the counter, least significant first, as quotients, then four zeros |
| Cipher.FailuresExplained | src/crypto/mod.rs:218-271 | which error of `encrypt` and `decrypt`, exactly when, and in which order the conditions are tested |
| Cipher.EncryptRunUsesCounters | src/crypto/mod.rs:218-239 | from any start, a run of `encrypt` returns one ciphertext per sealable request until `remaining_nonces` is used up, the i-th sealed under counter start + i |
| Cipher.NonceCapacity | src/crypto/mod.rs:184-191 | one key seals at most 2^64-1-start messages, all under pairwise distinct 12-byte nonces; once exhausted every call fails and changes nothing |
| Cipher.NonceInjective | src/crypto/mod.rs:211-215 | different counters give different 12-byte nonces |
| Cipher.PairedPeers | src/crypto/mod.rs:233-269 | a sender and a receiver from nonce 0, any interleaving and any deliveries, no forgeries: the receiver opens, in order, a prefix of what was sealed, its counter never passes the sender's, the unchecked increment never overflows |
| Cipher.OverflowsExactly | src/crypto/mod.rs:248-269 | whatever a receiver is handed, its counter is start plus the number opened modulo 2^64, and the unchecked increment overflowed if and only if more were opened than counters were left |
| Cipher.LastCounterOverflows | src/crypto/mod.rs:233-269 | at counter 2^64-1 a matching ciphertext opens without error and leaves counter 0, while `encrypt` refuses to make one |
| Cipher.DecryptMoves | src/crypto/mod.rs:269 | a successful decryption moves the counter up by one exactly when it was below 2^64-1 |
| Cipher.CipherState.Encrypt | src/crypto/mod.rs:218-239 | succeeds exactly when a nonce is left and the text can be sealed; seals under the old counter and moves it by one, else changes nothing |
| Cipher.CipherState.Decrypt | src/crypto/mod.rs:242-271 | opens only at the exact counter; a failed call leaves the cipher as it was; equals the step function |
| Cipher.CipherState.Rekey | src/crypto/mod.rs:199-203 | new key, counter 0 |
| Session.LoopIsFold | src/server.rs:252-259 | on any bytes at all the server loop does what the frame-by-frame loop does on the frames they decode to, and ends with a disconnect if none of them ended it |
| Session.ClientLoopIsFold | src/client.rs:294-329 | on any bytes at all the client's loop ends as the loop over the frames they decode to, broken off where they run out |
| Session.OneFrameForEachRequest | src/client.rs:294-329 | on any bytes the client's loop reads one frame per request and breaks off at a request left without one, only where the frames ran out |
| Session.Literals | src/server.rs:264-290 | the two labels and PING, as bytes |
| Session.ReplyBytes | src/server.rs:269-287 | the two replies, as bytes |
| Live.LiveSessionCoupling | src/server.rs:246-299 | for any frames, at every loop head and after a clean end with n messages: both nonces, `total_accepted`, `frames_sent` and the replies number n, none was refused, exactly 0..n-1 were accepted, the bitmap is min(n,128) low ones, and while running n counts the data and heartbeat frames read |
| Live.FilterTransparency | src/server.rs:264-284 | for any frames, the loop with the filter and the loop with only the strict counter deliver the same plaintexts, send the same replies, count the same traffic and stop at the same frame |
| Live.OnlyTheNextFrameSurvives | src/server.rs:264-290 | a frame keeps a running session running exactly when it carries the next number, opens, and leaves a counter and room for the answer |
| Live.EveryFrameDecided | src/server.rs:252-299 | after any frames that left it running, what a server makes of any next frame: counted, delivered, answered, ended, failed or ignored, each exactly when |
| Live.FailuresNamed | src/server.rs:264-284 | a passed number fails as seen or too old, a number ahead fails in the cipher naming the one expected, the right number with a ciphertext that does not open fails decryption |
| Live.MetricsCountWireBytes | src/server.rs:261-288 | for any frames, bytes and frames sent are those of the replies as serialised, bytes received those of the frames taken in: payload length + 13 is the wire length |
| Hostile.HostileDelivery | src/server.rs:252-299 | any interleaving of peers and network, type bytes changed at will, no ciphertext forged: the server has decrypted a prefix of the client's messages, kinds included; the client has shown the right replies to its first messages, in order; receiving counters never pass sending ones |
| Hostile.RelabelledFrameRefused | src/server.rs:264-284 | after any unforged run, a frame of the client handed over under the other message type fails the session and delivers nothing |
| Hostile.ShownReplyAnswers | src/client.rs:301-328 | a reply shown answers the request as many places before the awaited one as frames of another type were taken earlier; so the awaited one exactly when none was |
| Hostile.CloseNeedsNoKey | src/server.rs:291-294 | for every nonce field and payload, a Close frame after the first request ends the session cleanly with that request undelivered, and nothing was forged |
| Hostile.ClosesExactly | src/server.rs:291-294 | on any network, forgeries included, the server ends cleanly if and only if a Close-typed frame was handed to it while it ran |
| Hostile.ClientEndsExactly | src/client.rs:282-329 | on any network, forgeries included: the client ended if and only if its user left or a Close was taken in place of data; it broke off if and only if a request could not be sealed or a reply of the awaited type did not open |
| Hostile.OtherTypesPassOver | src/client.rs:301-329 | every frame taken is counted; one of another type, Close in place of data apart, changes nothing else and returns to the prompt |
| HostileBytes.HostileByteDelivery | src/server.rs:252-299 | client loop and server loop on arbitrary byte streams, no forgeries among the frames they decode to: prefix delivery, right replies in order, receiving counters bounded by sending ones |
| Echo.EchoEndToEnd | src/client.rs:246-330 | for every script within the size limit, each loop fed with the other's bytes: every read, replay check and decryption succeeds, the replies shown are exactly the echoes and PONGs in order, nothing is left unread, all four nonces equal the number of exchanges, and both sides end as the script ends |
| Echo.OnlyTheseStreams | src/client.rs:246-330 | from paired states, the honest streams are the only pair of byte streams that the two loops make of each other |
| Channel.TrafficConservation | src/client.rs:289-321 | at every point of every interleaving over FIFO channels, in both directions: bytes and frames counted by the sender are those counted by the receiver plus what the channel holds; no session breaks off except by an exhausted counter; when the server has ended cleanly the client left, and every request was delivered and its reply shown |
| Channel.ServeIsALoopTurn | src/server.rs:252-299 | whatever bytes are in the channel, an act of the server is one turn of its loop |
| Channel.ExchangeIsALoopTurn | src/client.rs:312-329 | whatever bytes have arrived, a line entered and the reply taken are one turn of the client's loop |
| Channel.EchoLimit | src/protocol/mod.rs:193-195 | after any honest session that left the client at its prompt, an exchange of text comes off (both peers ready, channels empty, the echo shown) exactly when the text is at most 65496 bytes |
| Handshake.HandshakeAgreement | src/client.rs:98-168 | untampered, same prologue, right server key: both sides accept, on frames numbered 0 that fit the wire, and hold the same pair of transport keys, through Diffie-Hellman for both secrets |
| Handshake.TranscriptInjective | src/protocol/mod.rs:543-557 | for each form of the optional last field the unframed concatenation determines all fields |
| Handshake.TranscriptFormsOverlap | src/protocol/mod.rs:553-555 | across the two forms it does not: a four-field transcript is also a three-field one exactly when the latter's prologue is the former's with the client key appended and the two other keys move up one place |
| Handshake.InitBinding | src/server.rs:195-210 | over any lawful library: the client's ciphertext behind any claimed key is accepted when prologue, client key and server key agree; accepted otherwise, it exhibits a collision or opens in a second context |
| Handshake.AckBinding | src/client.rs:127-161 | over any lawful library: an honest server's ciphertext behind any claimed key is accepted when both transcripts agree, and then the transport keys are equal; accepted otherwise, it exhibits a collision or opens in a second context |
| Handshake.AcceptedAnswers | src/client.rs:118-154 | which frames a client accepts as an answer, exactly: an ephemeral key and the acknowledgement sealed under the key of the ephemeral exchange; a wrong type and a short payload are told apart |
| Handshake.AcceptedHellos | src/server.rs:186-210 | which frames a server accepts first, exactly, and which error each other frame gets |
| Handshake.KeysOfContext | src/crypto/mod.rs:368-385 | every key the server derives, from which secret, salt and label, and what the two hashes are of |
| Handshake.AnswerNeedsNoStaticKey | src/server.rs:232-238 | every client accepts an answer made with any key pair and no static private key; the transport keys it then holds still depend on its static exchange |
| FreeTerms.FreeIsLawful | src/crypto/mod.rs:218-271 | the free-term library obeys the same laws, with real lengths |
| FreeTerms.InitAcceptedExactly | src/server.rs:195-210 | the client's ciphertext behind any claimed key is accepted if and only if prologue, client key and server key agree |
| FreeTerms.AckAcceptedExactly | src/client.rs:127-161 | an honest server's ciphertext behind any claimed key is accepted if and only if both transcripts agree, and then the transport keys are equal |
| FreeTerms.ReflectionRefused | src/client.rs:148-154 | the client's own first ciphertext, sent back as an answer behind any key, is refused |
| FreeTerms.KeysSharedExactly | src/client.rs:156-161 | whatever answer was accepted: client and server run hold the same keys if and only if their transcripts agree, else they share neither key |
| FreeTerms.FirstMessageAuthenticates | src/client.rs:301-311 | whatever answer was accepted: what one side seals opens at the other, in each direction, if and only if their transcripts agree |
| Secrecy.NetworkIsClosed | src/crypto/mod.rs:218-271 | what the network can make is closed under every library call and under joining and cutting strings |
| Secrecy.NetworkCanAnswer | src/client.rs:146-154 | without either private key the network can make an answer that the client accepts |
| Secrecy.TransportKeysStaySecret | src/client.rs:156-161 | without either private key it can make neither transport key, whatever answer was accepted |
| Secrecy.FirstReplyAuthenticates | src/client.rs:301-326 | whatever answer was accepted: if a ciphertext the network can make opens as a reply, a server run with the same transcript, the right static key and the same keys exists, and that very ciphertext was sealed under its key |
| Peers.WholeSession | src/client.rs:222-333 | handshake and script together: there is exactly one pair of byte streams that each program makes from the other, so they cannot get stuck, and in it both accept, keys pair, replies are exact, counters equal the number of messages and both sides end as the script ends |
| Peers.SessionOnSharedTranscript | src/client.rs:93-169 | any accepted answer, any server run with the same transcript: equal keys, and any unforging network afterwards only delivers in order |
| Peers.SessionOnServersAnswer | src/client.rs:127-161 | an accepted answer whose ciphertext came from a server run, behind any key: the transcript is shared, up to an exhibited collision or second context, and delivery follows |
| Programs.AdmitFrame | src/server.rs:264-290 | the branch for data and heartbeat frames on the mutable objects equals the step function and writes exactly the new replies |
| Programs.HandleFrame | src/server.rs:261-298 | the loop body on the mutable objects equals the step function |
| Programs.ServeTransport | src/server.rs:245-306 | the transport loop over a chunked stream equals the loop function on its bytes and writes exactly the replies |
| Programs.Respond | src/server.rs:186-241 | the responder's handshake step by step equals the handshake function, errors included |
| Programs.HandleClient | src/server.rs:180-307 | one connection from first byte to end: outcome and bytes sent are those of the session function |
| Programs.PerformHandshake | src/client.rs:93-169 | the initiator's handshake step by step equals the handshake functions, errors included |
| Programs.Request | src/client.rs:294-329 | one request and the wait for its reply, all reply types and failures |
| Programs.Converse | src/client.rs:246-330 | the interactive loop on the mutable objects equals the loop function in their final state, bytes sent and bytes left, Close frame included |
| Programs.InteractiveSession | src/client.rs:222-333 | handshake and loop together |
| Programs.SessionMetrics.RecordTx | src/stats.rs:38-42 | adds the bytes and one frame to the sent side only |
| Programs.SessionMetrics.RecordRx | src/stats.rs:45-49 | adds the bytes and one frame to the received side only |
| Admission.AdmissionSafety | src/server.rs:128-161 | in every interleaving, load, test and add separate and the load possibly stale: the counter is the number of live handlers, never above the limit, never underflowing, and both capacity queries report exactly the room left |
| Admission.RefusalJustified | src/server.rs:131-140 | a connection is refused only if exactly the limit of handlers were live at a moment since the loop's own last add |
| Admission.RefusesExactly | src/server.rs:131-145 | in every run, with or without a limit: the loop refuses if and only if there is a limit and the value loaded has reached it, and admits otherwise |
| Admission.LoadSeesExactly | src/server.rs:131 | a load finds any value the counter has had since the loop's own last add, and no other |
| Admission.EveryConnectionAccounted | src/server.rs:128-161 | in every run: connections taken are those refused, added and in hand; those added are the handlers live and returned |
| Admission.NoLimitNoRefusal | src/server.rs:84-97 | without a limit nothing is refused and the capacity queries answer false and none |
| Admission.QueriesAgree | src/server.rs:84-97 | in every state, wrapped counters included: no room exactly at capacity, else counter and room add up to the limit |
| Admission.ExactUnlessReset | src/server.rs:100-102 | with a limit, the counter is exact throughout a run if and only if no reset happens while a handler is live |
| Admission.ResetThenFinishWraps | src/server.rs:100-102 | the excluded run: one handler, a reset, its return, and the counter is 2^64-1 |

## Left out

- Replay.ReplayFilter.ValidateAndRecord: the three statistics counters do not wrap at 2^64, because the theorems are about runs shorter than that.
- Programs.SessionMetrics.RecordTx: the byte and frame counters do not wrap at 2^64, for the same reason.
- Channel.EchoLimit: stated with a counter to spare on both sides; an exhausted counter fails every exchange (`Cipher.NonceCapacity`).
- Admission.AdmissionSafety: a handler that panics never decrements the counter; handlers here always return.
- The inside of X25519, ChaCha20-Poly1305, HKDF and SHA-256, key generation and erasure of secrets.
- Sockets, failing writes, timeouts, flushing, logging, the prompt, and the parsing of a typed line into a command.
- `send_secure_message` (src/client.rs:172-219): a session of one text line and a Close; its stricter reply-type check and UTF-8 check are not modelled.
- `reset_nonce` (src/crypto/mod.rs:206-208): a deliberate restart outside the runs above.
- Rates, elapsed time and `SessionMetrics::reset`: wall-clock and floating point, or one-line facts.
- Builders, accessors, hex parsing, display, message-type predicates and error texts.
- FreeTerms.FREE: X25519 equivalences beyond commutativity (keys of low order, private keys with the same public key) have no counterpart among the free terms.
