# Verification of dr.dsh

A Dafny 4.11 model of the parts of dr.dsh whose correctness is hard to see by reading: the Ed25519
arithmetic and the SPAKE2 exchange the browser runs, the sealed channel and its handover, the pairing
exchange, the driver that owns the DSH process, and the calendar, throttle, audit log, pairing code,
escaping and wire formats around them. `dafny verify dfyconfig.toml` checks everything.

Code that updates state is modelled by classes and loops, each method proved against a function of its
arguments and the old state; code made of expressions is modelled by functions. The results are lemmas about
those functions, over every input or every run.

**Curve and PAKE.** `NumberTheory` and `PrimeField` build from divisibility to Fermat's theorem and
square roots; `EdwardsCurve` and `EdwardsGroup` show that the affine addition law is complete, closed and
associative; `ExtendedPoints`, `Decompression`, `FieldArithmetic`, `CurveConstants` and `Ed25519` carry that over
to the code's extended coordinates, loops and byte codecs, and `Spake2` to the bytes of an exchange. The one
hypothesis is `Prime(P)`, that 2^255 - 19 is prime. That -1 is a square and d is not is proved. SHA-256 and
HKDF are function parameters.

**Channel and pairing.** `SealedChannel` (session.rs) lets a relay do anything except make a body under a
connection key. `Tunnel` is the browser's end, one method per stretch between two awaits, with its subscribers in
`Streams`. `Handover` runs it against the daemon's handshake over a relay that keeps order, and shows that nonces
are never reused within a connection whatever the relay does; `HostileHandover` has a relay that makes up what it
can from the first byte on, with other connections and other daemon sessions to replay from, and `ReplayedSessions`
says exactly what such replays do. `PairingExchange` and `PairingAgreement` have
several browsers, one daemon run and a relay that knows the transport key and rewrites everything; `Registry` is
the daemon's state. AEAD, MAC, PAKE and key derivation are ideal: terms that open only under their own inputs.
The relay does not know the daemon's code, and results about a client assume it does not know that client's code.

**Lifecycle.** `Lifecycle` and `LifecycleDriver`. The environment is a script of happenings, one consumed at each
await; every await and everything that happens there is recorded, and the promises are about all traces.

**The rest.** `Calendar` and `Decimal`, `Throttle`, `AuditLog`, `PairingCode`, `Escaping`, `XmlReading`,
`CommandQuoting`, `CarrierCodec`, `Utf8`, `ProxyCodec`, `ProxyReader`,
`DaemonMessages`, `DaemonDecoder` and `ProxyService`, over `LittleEndian`, `BigEndian` and `Buffers`.

Where the code and its own words differ, the model follows the code:

- `scalarMult` says most significant bit first (apps/pwa/src/ed25519.ts:178); the loop goes least significant first.
- `on` promises arrival order (apps/pwa/src/tunnel.ts:640); the loop hands over newest first. `Streams.ArrivalOrderIff`
  says when the two agree.
- The throttle's 2 s and 300 s are kept only up to the whole-second file format; `Throttle.FullSpacingIff` and
  `Throttle.FullLockoutIff` give the exact conditions on every guard, `Throttle.NextAttemptIff` the exact time and
  `Throttle.RateBound` what always holds.
- Text that starts with U+FEFF does not survive the proxy codec, because `TextDecoder` drops it
  (`ProxyReader.WsDataSurvivesIff`, `DaemonMessages.MessageSurvivesIff`), and the daemon's closing message has a
  type the browser does not know.
- A replay is promised to be a protocol error (crates/dr-dsh-crypto/src/session.rs:14-23) and a connection's keys
  not to be those of the one before (crates/dr-dsh-daemon/src/transport.rs:17-19). Within a connection both hold. But
  a daemon that waits for a salt takes any salt frame of its root, also an old one
  (`HostileHandover.DaemonTakesIff`). It then opens that client's session again and uses its keys and nonces again:
  `ReplayedSessions.SessionOpensAgain`, `ReplayedSessions.SharedPairsIff`, `ReplayedSessions.PrefixSafetyIff` and
  `ReplayedSessions.OldSaltIsTaken` say exactly when and how, `HostileHandover.ReplayShutsOut` what it means for the client.
- The browser writes the number of an upgrade's headers in four bytes (apps/pwa/src/proxy.ts:125-126) and the daemon
  reads two (crates/dr-dsh-daemon/src/proxy/message.rs:512-513), so below 65536 headers every one of them is lost
  (`DaemonDecoder.UpgradeLosesHeaders`, `DaemonDecoder.UpgradeArrivesIff`). The callers in the repository pass none. Texts and bodies over 65472 bytes are
  encoded by the browser and refused by the daemon (`DaemonDecoder.RequestArrivesIff`, `DaemonDecoder.WsDataArrivesIff`).
- A target the daemon refuses is meant to be refused by the browser already (apps/pwa/src/proxy.ts:65-67), but the
  browser lets backslashes, line breaks and spaces pass; `ProxyService.PerformedIff` has the exact condition.
- `xml` leaves carriage returns and illegal characters alone, so an XML reader does not always get the text
  back (`XmlReading.XmlReadsBackIff`).
- A Stop during a back-off is answered ok while `Recovering` stays published with no retry due; a Start or
  Restart there is answered ok although nothing has started yet (`Lifecycle.AnswerOk`).
- A Start after a failed Stop is answered ok because the process is running, but leaves it unwanted, so that its next
  crash is not healed: `Lifecycle.StartsAreKept` and `Lifecycle.CrashesHeal` have the exact condition,
  `LifecycleDriver.StartAfterFailedStop` the run.
- The audit log keeps unreadable lines because they are evidence, but a full file can push one out that the policy
  over the whole history would still have. `AuditLog.IncrementalIsBatchIff` says exactly when the two agree.

## Model

| member | source | states |
|---|---|---|
| `FieldArithmetic.JsRem` | apps/pwa/src/ed25519.ts:116-119 | the truncating remainder stays below the modulus in size and has the sign of the dividend |
| `FieldArithmetic.Mod` | apps/pwa/src/ed25519.ts:116-119 | the normalised value lies in [0, p) and is congruent to its argument |
| `FieldArithmetic.Power` | apps/pwa/src/ed25519.ts:122-132 | square-and-multiply returns base^exponent mod p for every exponent (1 for a negative one) |
| `FieldArithmetic.Inverse` | apps/pwa/src/ed25519.ts:135-137 | the value returned is base^(p-2) and, for a value that is not zero mod p, its inverse |
| `FieldArithmetic.InverseIsTrue` | apps/pwa/src/ed25519.ts:134-137 | for a value not divisible by the prime p, value * inverse(value) = 1 mod p, from Fermat's theorem |
| `NumberTheory.Fermat` | apps/pwa/src/ed25519.ts:134-137 | Fermat's little theorem for every prime and every number it does not divide |
| `CurveConstants.SquareRootOfMinusOne` | apps/pwa/src/ed25519.ts:73-74 | power(2, (p-1)/4) squares to -1 |
| `CurveConstants.CurveIsGood` | apps/pwa/src/ed25519.ts:59-77 | -1 is a square, d is nonzero and 2 d is a square, so d is not a square: the hypotheses of complete addition, from p being prime alone |
| `EdwardsCurve.ConstantNotSquare` | apps/pwa/src/ed25519.ts:71 | d times a nonzero square is never a square |
| `EdwardsCurve.Complete` | apps/pwa/src/ed25519.ts:51-54 | no two curve points make a denominator of the sum zero |
| `EdwardsCurve.SumClosed` | apps/pwa/src/ed25519.ts:139-148 | the affine sum of two curve points is a curve point in canonical coordinates |
| `EdwardsGroup.Associative` | apps/pwa/src/ed25519.ts:149-164 | the affine sum is associative on all curve points |
| `ExtendedPoints.UnifiedAddition` | apps/pwa/src/ed25519.ts:149-164 | whatever representatives the four products take, the unified formula gives a valid extended point for the affine sum |
| `Ed25519.AddPointsIsSum` | apps/pwa/src/ed25519.ts:149-164 | addPoints is closed and complete: valid inputs, equal, opposite or neutral ones included, give a valid point that stands for the affine sum |
| `Ed25519.NegatePointIsOpposite` | apps/pwa/src/ed25519.ts:171-173 | negatePoint gives a valid point that stands for the opposite point |
| `EdwardsCurve.SumOpposite` | apps/pwa/src/ed25519.ts:171-173 | a point plus its opposite is the neutral element |
| `Ed25519.ScalarMult` | apps/pwa/src/ed25519.ts:184-194 | on any four numbers the result of the doubling ladder; on a valid point the n-fold sum, least significant bit first, for every n (none for a negative scalar) |
| `Ed25519.LadderIsMultiple` | apps/pwa/src/ed25519.ts:184-194 | whenever result + remaining * addend is the goal, the rest of the ladder ends with a valid point for the goal |
| `Ed25519.BytesToBigIntLE` | apps/pwa/src/ed25519.ts:295-303 | the value of the bytes as a little-endian number |
| `Ed25519.BigIntToBytesLE` | apps/pwa/src/ed25519.ts:311-323 | succeeds exactly for 0 <= value < 256^length, and then the bytes read back as the value; which error otherwise |
| `Ed25519.ReduceWideScalar` | apps/pwa/src/ed25519.ts:265-270 | 64 bytes give their value modulo the group order, any other length is refused |
| `Ed25519.ScalarFromBigEndian` | apps/pwa/src/ed25519.ts:281-285 | the big-endian value modulo the group order, below the order |
| `Ed25519.CompressPoint` | apps/pwa/src/ed25519.ts:202-211 | on any four numbers, the encoding of the affine point that X / Z and Y / Z give, whatever Z is |
| `Decompression.CandidateRoot` | apps/pwa/src/ed25519.ts:236-238 | if a is a square, a^((p+3)/8) or that times a root of -1 squares to a |
| `Ed25519.RootIsFound` | apps/pwa/src/ed25519.ts:236-241 | whenever a root exists, the check after the two tries passes |
| `Ed25519.DecompressPoint` | apps/pwa/src/ed25519.ts:223-254 | accepts exactly the canonical encodings of curve points and returns the point that is encoded; each refusal has the reason the code gives |
| `Ed25519.EncodedInjective` | apps/pwa/src/ed25519.ts:202-211 | two curve points with the same encoding are the same point |
| `Ed25519.DecodedIsInverse` | apps/pwa/src/ed25519.ts:202-254 | bytes decode to a curve point exactly when they are its encoding, so decompress and compress undo each other |
| `Ed25519.FixedPointsDecode` | apps/pwa/src/spake2.ts:42-55 | the base point and the blinding points M and N decode to points of the curve, so loading the modules does not throw |
| `Spake2.HashToScalar` | apps/pwa/src/spake2.ts:109-124 | the 48 HKDF bytes of the password as a big-endian number modulo the order |
| `Spake2.Start` | apps/pwa/src/spake2.ts:169-184 | the message is the side byte, 0x41 or 0x42, and an encoding that decodes to scalar * B + w * M for the client and + w * N for the daemon, w being the HKDF bytes of the password modulo the order |
| `Spake2.StartedMessage` | apps/pwa/src/spake2.ts:169-184 | the same of every state that Start can leave, with the fixed points and the HKDF bytes written out |
| `Spake2.Finish` | apps/pwa/src/spake2.ts:202-242 | succeeds exactly for 33 bytes with the other side's byte and a point; then the key is the hash over the hashed password and identities, both points as sent and scalar * (peer - w * the peer's blinding point); the refusals in the code's order |
| `Spake2.MessageDecodes` | apps/pwa/src/spake2.ts:169-184 | the bytes after the side byte decode to exactly the point the sender blinded |
| `Spake2.SharedPointIsProduct` | apps/pwa/src/spake2.ts:228-231 | for the same password scalar, unblinding with the other side's point leaves x y B on both sides |
| `Spake2.Agreement` | apps/pwa/src/spake2.ts:169-242 | for all ephemeral scalars and any password held by both ends, both finish with one key: the hash over the two sent points and x y B |
| `Spake2.ReflectionRefused` | apps/pwa/src/spake2.ts:208-211 | an end that gets its own message back refuses it |
| `Spake2.TranscriptPins` | apps/pwa/src/spake2.ts:233-241 | equal transcripts have equal password hashes, points and shared points |
| `SealedChannel.OpensExactlySealed` | crates/dr-dsh-crypto/src/session.rs:175-236 | open succeeds with a plaintext on exactly the frame that seal makes of it at that counter on that stream |
| `SealedChannel.SessionCipher.Seal` | crates/dr-dsh-crypto/src/session.rs:175-194 | the frame for the current counter and the counter advanced, or exhaustion at the last counter with nothing changed |
| `SealedChannel.SessionCipher.Open` | crates/dr-dsh-crypto/src/session.rs:203-236 | accepts exactly what the peer's seal makes at the expected counter; a refused frame changes nothing; which error otherwise |
| `SealedChannel.Session.Derive` | crates/dr-dsh-crypto/src/session.rs:290-310 | the role decides which direction's key seals and which opens, and both counters start at zero |
| `SealedChannel.Session.SetSealedCount` | crates/dr-dsh-crypto/src/session.rs:364-366 | sets the sealing counter and leaves the opening one alone |
| `SealedChannel.Session.SetOpenedCount` | crates/dr-dsh-crypto/src/session.rs:374-376 | sets the opening counter and leaves the sealing one alone |
| `SealedChannel.AdditionalDataInjective` | crates/dr-dsh-crypto/src/session.rs:268-274 | the additional data determines the stream and the counter |
| `SealedChannel.NonceInjective` | crates/dr-dsh-crypto/src/session.rs:161-165 | different counters give different nonces |
| `SealedChannel.ChannelSafety` | crates/dr-dsh-crypto/src/session.rs:14-23 | whatever a relay drops, repeats, reorders, reflects, injects or moves to another stream, what one end has opened is a prefix of what the other has sealed |
| `SealedChannel.NoNonceReuse` | crates/dr-dsh-crypto/src/session.rs:167-194 | no two different bodies under a connection key share a nonce |
| `SealedChannel.OrderedDelivery` | crates/dr-dsh-crypto/src/session.rs:175-236 | after any hostile history, delivering what is outstanding in order opens everything that was sealed |
| `Tunnel.Tunnel.BeginSend` | apps/pwa/src/tunnel.ts:331-336 | the counter is taken before the encryption is awaited, and the frame is fixed by the key and counter of the call |
| `Tunnel.Tunnel.BeginHandshake` | apps/pwa/src/tunnel.ts:361-367 | the provisional keys are installed and the salt takes the next counter under them |
| `Tunnel.Tunnel.InstallOpenKey` | apps/pwa/src/tunnel.ts:375-382 | the real open key, the carried count, readiness, and the held frames queued in arrival order behind what is queued |
| `Tunnel.Tunnel.Absorb` | apps/pwa/src/tunnel.ts:437-443 | a frame is held before the session exists and queued afterwards |
| `Tunnel.Tunnel.OpenNext` | apps/pwa/src/tunnel.ts:454-530 | one link of the chain: the next frame is opened and handed on, or the failure goes to everybody who waits, and the link after it goes on |
| `Tunnel.Tunnel.Fail` | apps/pwa/src/tunnel.ts:664-683 | close handlers told, the handshake and an open device step refused, and an empty payload for every stream with subscribers, in that order |
| `Tunnel.FailureIsToldOnce` | apps/pwa/src/tunnel.ts:664-683 | after any number of failures the close handlers have heard of the first one only, handshake and device step keep the first outcome they got, and each subscriber was woken once per failure |
| `Tunnel.BadFramesAreSkipped` | apps/pwa/src/tunnel.ts:454-467 | any number of bad frames queued first do what as many failures do, and every later frame opens or is refused as if they had never come |
| `Tunnel.Tunnel.OnClosed` | apps/pwa/src/tunnel.ts:304-309 | a close handler is registered once |
| `Tunnel.Tunnel.Dispatch` | apps/pwa/src/tunnel.ts:598-608 | every subscriber of the stream gets the payload once, in subscription order; without one it is kept at the end of the buffer |
| `Tunnel.Tunnel.On` | apps/pwa/src/tunnel.ts:636-650 | the handler has seen what it had and then the stream's buffered payloads from last to first, nobody else has seen anything more, nothing of the stream stays buffered and the other streams' buffers are as they were |
| `Tunnel.Tunnel.Off` | apps/pwa/src/tunnel.ts:651-661 | only this handler is removed, and the stream goes with its last one |
| `Streams.FirstSubscriberSeesAll` | apps/pwa/src/tunnel.ts:598-650 | over any use of the tunnel: the first handler of a stream, while it stays, has seen everything that arrived before it came, newest first, then everything that arrived since in order, and nothing of the stream is left in the buffer |
| `Streams.UnsubscribedSilent` | apps/pwa/src/tunnel.ts:651-661 | after unsubscribing, a handler sees nothing that arrives on the stream, and everybody sees whatever else they would have seen |
| `Streams.UsesStayTidy` | apps/pwa/src/tunnel.ts:636-661 | however handlers come and go and payloads arrive, no handler is registered twice on a stream and exactly the streams with handlers are kept |
| `Streams.WokenOnce` | apps/pwa/src/tunnel.ts:680-682 | waking gives each subscriber of a woken stream one empty payload and buffers nothing |
| `Tunnel.SubscriberSeesStream` | apps/pwa/src/tunnel.ts:598-608 | once subscribed, a handler is given exactly the opened payloads of its stream, each once, in the order they were opened |
| `Tunnel.DeviceStepOwnsControl` | apps/pwa/src/tunnel.ts:514-527 | while the device step is open, whatever streams the payloads are of, it gets every control payload in order, and the subscribers and the buffer get what they would get if there were none |
| `Tunnel.AcknowledgedIff` | apps/pwa/src/tunnel.ts:500-527 | whatever is opened, the handshake ends exactly with the one-byte acknowledgement on the control stream, which opens the device step or skips it |
| `Streams.ArrivalOrderIff` | apps/pwa/src/tunnel.ts:640-649 | the order a new subscriber gets buffered payloads in is arrival order, whatever was buffered, exactly for at most one payload |
| `Streams.DistinctOrderIff` | apps/pwa/src/tunnel.ts:640-649 | for payloads that all differ it is arrival order exactly when there is at most one |
| `Handover.SameChecks` | apps/pwa/src/tunnel.ts:470-496 | the browser opens exactly the frames the session of the daemon's language opens, so channel safety holds for it |
| `Handover.NothingIsLost` | apps/pwa/src/tunnel.ts:360-387 | for every interleaving of arrival, key derivation, sends and replies nothing fails and each side has opened, in order, the first items of the other |
| `Handover.CountersMeet` | crates/dr-dsh-crypto/src/session.rs:352-376 | when nothing is under way each sender's next counter is the one its peer expects and everything has been opened |
| `Handover.Progress` | apps/pwa/src/tunnel.ts:437-467 | while anything is under way some step is enabled that brings the end nearer |
| `Handover.EverythingIsDelivered` | apps/pwa/src/tunnel.ts:360-467 | a relay that keeps order gets everything delivered, from every point of every run |
| `Handover.NoPairTwice` | apps/pwa/src/tunnel.ts:331-378 | whatever the relay delivers to either end and in whatever order encryptions finish, no two frames of one connection share a key and nonce, even if the salt were all zero |
| `HostileHandover.HandoverSafety` | crates/dr-dsh-daemon/src/transport.rs:28-41 | whatever the relay does from the first byte on, with frames of other connections and of other daemon sessions that took this salt: the daemon has opened a prefix of what the client sealed whose salt it took; the i-th item the client has opened is the i-th reply of a session with its salt, and with no reply of another one seen they are a prefix of this daemon's |
| `HostileHandover.LoneConnectionSafety` | crates/dr-dsh-daemon/src/transport.rs:28-41 | without other connections to replay from, each end has opened a prefix of what the other sealed |
| `HostileHandover.DaemonTakesIff` | crates/dr-dsh-daemon/src/transport.rs:394-437 | a waiting daemon takes a salt exactly from the salt frame of this client or of an earlier one |
| `HostileHandover.ReplayShutsOut` | crates/dr-dsh-daemon/src/transport.rs:28-41 | after another connection's salt frame was replayed, the daemon opens only what that other client sealed and none of its replies is opened here; with no other session of this salt seen the client opens nothing and is never acknowledged |
| `ReplayedSessions.PrefixSafetyIff` | crates/dr-dsh-crypto/src/session.rs:14-23 | over all hostile runs: what the client opened is always a prefix of this daemon's replies exactly when no reply that another session sealed under this salt has been seen |
| `ReplayedSessions.OwnPrefixIff` | crates/dr-dsh-crypto/src/session.rs:14-23 | in each hostile run: it is a prefix exactly when every frame the client opened is one this daemon sealed |
| `ReplayedSessions.SessionOpensAgain` | crates/dr-dsh-crypto/src/session.rs:14-23 | a waiting daemon opens whatever part of a client's session it is given from the start, however often it was opened before, so the bound of HandoverSafety is reached |
| `ReplayedSessions.SharedPairsIff` | crates/dr-dsh-daemon/src/transport.rs:17-19 | frames of two daemon sessions share key and nonce exactly when root, salt and counter are the same, and are then the same frame exactly when the replies are |
| `ReplayedSessions.OldSaltIsTaken` | crates/dr-dsh-daemon/src/transport.rs:66-73 | for any two salts of a root: the salt frame of one connection joins the daemon of the other to that salt, and its acknowledgement and first reply use the keys and nonces of the former session; a different reply makes a different frame of the same pair |
| `Handover.OvertakenFrameBreaks` | apps/pwa/src/tunnel.ts:331-347 | with several encryptions pending, the next frame written is accepted exactly when it is the one started first |
| `Registry.DeviceRegistry.Enrol` | crates/dr-dsh-crypto/src/registry.rs:89-92 | the entry of the key's id is replaced and no other entry changes |
| `Registry.DeviceRegistry.Revoke` | crates/dr-dsh-crypto/src/registry.rs:125-127 | the id is gone, nothing else is, and the answer says whether it was there |
| `Registry.DeviceRegistry.ChallengeKey` | crates/dr-dsh-crypto/src/registry.rs:114-116 | a key exactly for enrolled ids, and the enrolled one |
| `Registry.DeviceRegistry.Load` | crates/dr-dsh-crypto/src/registry.rs:156-187 | a missing file is empty, a file that cannot be understood is an error, and one unusable key fails the whole load |
| `Registry.DeviceRegistry.Save` | crates/dr-dsh-crypto/src/registry.rs:198-227 | a successful save lists the devices and nothing else; a failed one leaves the previous file |
| `Registry.SaveThenLoad` | crates/dr-dsh-crypto/src/registry.rs:156-227 | loading what was saved gives the same devices |
| `Registry.ReadingFailsIff` | crates/dr-dsh-crypto/src/registry.rs:174-185 | reading fails exactly when some key in the list is unusable |
| `Registry.ReadingMeans` | crates/dr-dsh-crypto/src/registry.rs:174-187 | exactly the listed keys are enrolled, each as its last entry says |
| `Registry.PolicyMeans` | crates/dr-dsh-daemon/src/lib.rs:639-666 | the room key alone admits exactly while there is no registry file; a file that cannot be read or understood is never a policy; any other admits exactly the keys it lists |
| `Registry.EnrolTouchesOneDevice` | crates/dr-dsh-crypto/src/registry.rs:89-92 | after enrolling, exactly the enrolled key's id is added and every other device is as before |
| `Registry.RevocationSticks` | crates/dr-dsh-daemon/src/lib.rs:639-666 | after a saved revocation the device is out and the rest are in; revoking the last device admits nobody |
| `PairingExchange.PairingDaemon.TakeFinish` | crates/dr-dsh-daemon/src/pairing.rs:312-378 | the daemon's last step: refusal, enrolment and save, acceptance, in that order, with registry and file afterwards |
| `PairingExchange.PairingDaemon.FinishPake` | crates/dr-dsh-crypto/src/pairing.rs:339-368 | a key is released exactly for a usable client message, a valid device key and a MAC of that key under the daemon's own PAKE key |
| `PairingExchange.FinishIff` | crates/dr-dsh-daemon/src/pairing.rs:312-378 | done, with exactly this device enrolled, saved and answered, exactly for a usable client message and key, a MAC of that key under the daemon's own PAKE key and a file that can be written; otherwise at most a refusal is sent, the same for a wrong code and a wrong MAC |
| `PairingExchange.PairingSession.TakeDaemonMessage` | apps/pwa/src/pair.ts:289-318 | the first control message must be the daemon's PAKE message; then the client sends its own and the proof for its own key |
| `PairingExchange.PairingSession.TakeAcceptance` | apps/pwa/src/pair.ts:320-336 | paired exactly after the receipt opens, names the announced room and the id is the one the key derives; the reason otherwise |
| `PairingExchange.AcceptanceIff` | apps/pwa/src/pair.ts:320-336 | paired exactly with a receipt under the own PAKE key for the own device key, the room of the root in it and the own device id; which check failed otherwise |
| `PairingExchange.PairingClient.Finish` | apps/pwa/src/pairing.ts:396-418 | the exchange can be finished once, with a usable message of the daemon's side |
| `PairingExchange.PendingCode.Consume` | crates/dr-dsh-crypto/src/pairing.rs:285-297 | any attempt burns the code; it succeeds only unused and within its lifetime |
| `PairingExchange.CodeWorksOnce` | crates/dr-dsh-crypto/src/pairing.rs:285-297 | in any series of attempts only the very first can succeed, and only within the lifetime |
| `PairingAgreement.Agreement` | crates/dr-dsh-daemon/src/pairing.rs:312-378 | under any relay, a client that ends paired had typed the daemon's code, the saved registry is the old one plus exactly its key, and its room key and room are those served |
| `PairingAgreement.OnlyConfirmedKeysAreEnrolled` | crates/dr-dsh-crypto/src/pairing.rs:339-368 | the daemon completes a run, changes its file or releases a receipt only for the key of a client that typed its code and shares its PAKE key |
| `PairingAgreement.AtMostOnePaired` | apps/pwa/src/pair.ts:289-346 | one daemon run pairs at most one client |
| `PairingAgreement.FailedRunPairsNobody` | crates/dr-dsh-daemon/src/pairing.rs:325-354 | a daemon run that fails, also in saving, sends no receipt, leaves the file and pairs nobody |
| `PairingAgreement.HonestRunPairs` | apps/pwa/src/pair.ts:289-346 | forwarding everything pairs a client with the right code, even if the label is changed on the way: the label is not authenticated |
| `PairingAgreement.WrongCodeIsRefused` | crates/dr-dsh-crypto/src/pairing.rs:346-368 | a client with another code never ends paired and never shares the daemon's key |
| `Lifecycle.DelayFormula` | crates/dr-dsh-daemon/src/lifecycle.rs:147-153 | the delay before attempt n is min(base * 2^min(n-1, 16), max) |
| `Lifecycle.DelayMonotone` | crates/dr-dsh-daemon/src/lifecycle.rs:147-153 | delays never decrease with the attempt |
| `Lifecycle.Controller.StartFailed` | crates/dr-dsh-daemon/src/lifecycle.rs:269-292 | stopped, given up or recovering as wish and attempts say; recovering has 1 <= attempt < max_attempts and that attempt's delay |
| `Lifecycle.Controller.Exited` | crates/dr-dsh-daemon/src/lifecycle.rs:299-322 | a crash is counted like a failed start; an exit that was asked for is a stop |
| `Lifecycle.Controller.CurrentDelay` | crates/dr-dsh-daemon/src/lifecycle.rs:325-331 | the delay shown while recovering, otherwise that of the current attempt |
| `LifecycleDriver.Driver.Adopt` | crates/dr-dsh-daemon/src/lifecycle.rs:552-562 | an adopted process is held, wanted and published as running |
| `LifecycleDriver.Driver.Run` | crates/dr-dsh-daemon/src/lifecycle.rs:569-606 | whatever the environment does, over the whole record of every run: spawns only with nothing held or alive and while wanted; published states true and recoveries bounded at every await; a process held exactly when Running at every loop head; no spawn after a Stop answered ok without a Start or Restart between; delays that never shrink; true answers; a Start answered ok leaves the process wanted, and an exit is healed as a crash, exactly when no Stop has been tried since the process was started; and it only ends waiting: a sleep that ended and a completed stop of a Restart are followed by a spawn, every command by what it asks for, and a failure by a back-off or giving up as the policy says |
| `LifecycleDriver.StartAfterFailedStop` | crates/dr-dsh-daemon/src/lifecycle.rs:672-676 | the run that breaks a Start answered ok: a Stop fails, the Start finds the process running, the next crash is taken for a stop |
| `LifecycleDriver.Driver.Backoff` | crates/dr-dsh-daemon/src/lifecycle.rs:620-636 | the state stays Recovering; true means the sleep ended with the process still wanted; a Stop ends it with false |
| `LifecycleDriver.Driver.ServeCommandOnly` | crates/dr-dsh-daemon/src/lifecycle.rs:705-716 | during a back-off only the wish changes, and only for Stop |
| `LifecycleDriver.Driver.StartProcess` | crates/dr-dsh-daemon/src/lifecycle.rs:639-663 | a start call spawns at most max(1, max_attempts - attempts) times and leaves the state settled |
| `LifecycleDriver.Driver.Serve` | crates/dr-dsh-daemon/src/lifecycle.rs:666-702 | a served command leaves the state settled and its answer means what it says |
| `LifecycleDriver.Driver.StopProcess` | crates/dr-dsh-daemon/src/lifecycle.rs:719-743 | ok exactly when no process is held afterwards; a stop that fails leaves the process held |
| `LifecycleDriver.Driver.Publish` | crates/dr-dsh-daemon/src/lifecycle.rs:746-750 | the published state is the controller's |
| `Lifecycle.RecordKeepsPromises` | crates/dr-dsh-daemon/src/lifecycle.rs:569-750 | the step by step record adds up to the promises about whole runs |
| `Lifecycle.RecordProceeds` | crates/dr-dsh-daemon/src/lifecycle.rs:569-716 | nothing the driver owes is left undone: the record ends in an await, sleeps end in spawns, commands are served and answered, and Restarts spawn after their stop |
| `Lifecycle.RetriesHappen` | crates/dr-dsh-daemon/src/lifecycle.rs:269-322 | after a failed start, or a crash nobody asked for, comes a back-off exactly while there were fewer failures than max_attempts since the last success or completed stop, and Failed otherwise |
| `Lifecycle.StopIsFinal` | crates/dr-dsh-daemon/src/lifecycle.rs:620-743 | between a Stop answered ok, wherever it was served, and the next spawn there is a Start or a Restart |
| `Lifecycle.DelaysNeverDecrease` | crates/dr-dsh-daemon/src/lifecycle.rs:269-322 | back-offs without a success or completed stop between them have non-decreasing attempts and delays |
| `Calendar.CivilIsInverted` | crates/dr-dsh-daemon/src/lib.rs:1178-1194 | every day count gives a real Gregorian date whose day number is that count |
| `Calendar.EveryDateIsReached` | crates/dr-dsh-daemon/src/lib.rs:1178-1194 | every real date is the date of its day number |
| `Calendar.DaysFollowTheCalendar` | crates/dr-dsh-daemon/src/lib.rs:1178-1194 | day 0 is 1970-01-01 and day n+1 is the date after day n |
| `Calendar.DescriptionReadsBack` | crates/dr-dsh-daemon/src/lib.rs:1161-1172 | the second can be read back from the text |
| `Calendar.DescriptionIsTheTime` | crates/dr-dsh-daemon/src/lib.rs:1161-1172 | every description has the shape YYYY-MM-DDTHH:MM:SSZ, and the date and clock it says are the second the timestamp falls in |
| `Calendar.SameDescriptionIffSameSecond` | crates/dr-dsh-daemon/src/lib.rs:1161-1172 | two timestamps have the same text exactly when they fall in the same second |
| `Throttle.PairingGuard.RecordFailure` | crates/dr-dsh-crypto/src/throttle.rs:135-150 | counted, timed, and on the fifth locked for 300 seconds with the count reset |
| `Throttle.RefusedIff` | crates/dr-dsh-crypto/src/throttle.rs:107-126 | refused exactly during a lockout or less than 2 s after the last attempt, the lockout first; the wait announced is at least 1 s, at most the time left unless that is below 1 s, and short of it by less than a second |
| `Throttle.PairingGuard.Load` | crates/dr-dsh-crypto/src/throttle.rs:177-197 | no file is no history, a malformed one an error |
| `Throttle.FileTruncates` | crates/dr-dsh-crypto/src/throttle.rs:205-256 | the file keeps the count and loses less than a second of each time; nothing changes exactly when the times are whole seconds on or after the epoch |
| `Throttle.PairCommand` | crates/dr-dsh-daemon/src/lib.rs:711-797 | the throttle is asked before a code is minted; a refused run mints none and leaves the file; outcome and file of every run |
| `Throttle.RateBound` | crates/dr-dsh-daemon/src/lib.rs:711-797 | over any series of runs: failures since the last success are more than 1 s apart and any six in a row span more than 299 s |
| `Throttle.NextAttemptIff` | crates/dr-dsh-crypto/src/throttle.rs:107-150 | for every guard that let a run start: after it fails, the next attempt is allowed exactly from 2 s, or 300 s if the failure locks, after the second it fell in |
| `Throttle.FullSpacingIff` | crates/dr-dsh-crypto/src/throttle.rs:107-126 | on every guard, the nominal 2 s are kept after a failure that does not lock exactly when it fell on a whole second |
| `Throttle.FullLockoutIff` | crates/dr-dsh-crypto/src/throttle.rs:135-150 | on every guard, the nominal 300 s are kept after a failure that locks exactly when it fell on a whole second |
| `AuditLog.AuditLog.AppendAndPrune` | crates/dr-dsh-daemon/src/audit.rs:211-240 | the file afterwards is the policy applied to the old file plus the line |
| `AuditLog.AuditLog.Prune` | crates/dr-dsh-daemon/src/audit.rs:295-356 | the policy's lines, and a rewrite exactly when something had to go |
| `AuditLog.PrunedMeans` | crates/dr-dsh-daemon/src/audit.rs:295-356 | of the lines that are not blank, pruning leaves the newest ten thousand of those that are not entries more than thirty days old, in order |
| `AuditLog.AuditLog.Read` | crates/dr-dsh-daemon/src/audit.rs:392-408 | the entries within the window, the number of older ones, and the unreadable lines |
| `AuditLog.ReadMeans` | crates/dr-dsh-daemon/src/audit.rs:392-408 | reading gives, in order, the entries that are at most thirty days old, the number of the older ones, and every unreadable line |
| `AuditLog.IncrementalIsBatchIff` | crates/dr-dsh-daemon/src/audit.rs:211-356 | with a clock that never goes back and no blank lines, unreadable ones included: the file after any run of records is the newest MAX_LINES of the history filtered once at the last cutoff, exactly when no cap on the way pushed out a line that the last cutoff and cap would keep |
| `AuditLog.IncrementalIsBatch` | crates/dr-dsh-daemon/src/audit.rs:211-356 | with readable lines it always is |
| `AuditLog.UncappedIsBatch` | crates/dr-dsh-daemon/src/audit.rs:295-356 | and with any lines while no record finds more survivors than the cap |
| `AuditLog.LogIsSound` | crates/dr-dsh-daemon/src/audit.rs:211-408 | with unreadable lines too, the file is ordered and within the cap, reading it then hides no entry, and it ends with the line just written exactly when that is not itself too old |
| `AuditLog.UnreadableLineIsLost` | crates/dr-dsh-daemon/src/audit.rs:312-323 | a history where it is not: a full file pushes an unreadable line out although it is never too old |
| `AuditLog.Sanitize` | crates/dr-dsh-daemon/src/audit.rs:149-168 | every control character becomes a space, and the result is the longest run of whole characters that takes at most 200 bytes of UTF-8 |
| `PairingCode.PairingDisplay` | crates/dr-dsh-crypto/src/lib.rs:71-82 | the grouped display of the bytes |
| `PairingCode.DisplayedShape` | crates/dr-dsh-crypto/src/lib.rs:71-82 | where every byte's two symbols stand, low five bits first, and a dash before every second byte but the first |
| `PairingCode.ParseInvertsDisplay` | crates/dr-dsh-daemon/src/pairing.rs:108-134 | parsing the display of any secret gives the secret |
| `PairingCode.SeparatorsDoNotMatter` | apps/pwa/src/pairing.ts:81-85 | a dash or space anywhere changes nothing |
| `PairingCode.SpellingDoesNotMatter` | crates/dr-dsh-daemon/src/pairing.rs:136-150 | a character may be replaced by one that differs in case or looks alike |
| `PairingCode.SpellingsOfAByte` | crates/dr-dsh-daemon/src/pairing.rs:122-124 | two symbol pairs spell the same byte exactly when the first symbols agree and the second ones agree modulo 8 |
| `PairingCode.ParseDisplayedCode` | crates/dr-dsh-daemon/src/pairing.rs:108-134 | the daemon accepts exactly the texts that say five bytes; odd symbol counts are its first refusal |
| `PairingCode.ParsePairingCode` | apps/pwa/src/pairing.ts:81-114 | the browser accepts exactly the same texts; unknown symbols are its first refusal |
| `PairingCode.SymbolsAreTheAlphabet` | crates/dr-dsh-crypto/src/lib.rs:73 | the symbol numbers used are the positions in the alphabet |
| `PairingCode.LookAlikesRead` | crates/dr-dsh-daemon/src/pairing.rs:139-144 | anywhere in a text, I and L read as 1, O as 0 and U as V, in either case |
| `PairingCode.AnySpellingOfADisplay` | crates/dr-dsh-daemon/src/pairing.rs:108-134 | every text with the symbols of a displayed code means that code |
| `PairingCode.BothParse` | crates/dr-dsh-daemon/src/pairing.rs:108-150 | on every ASCII text both parsers accept or refuse together and read the same secret |
| `PairingCode.ClassifierAgreesWithParser` | apps/pwa/src/credential.ts:49-84 | the classifier says code exactly when the parser succeeds, and hands on a text with the same secret |
| `Escaping.XmlIsOnePass` | crates/dr-dsh-cli/src/service.rs:128-134 | the five replaces equal a per-character map |
| `XmlReading.XmlReadsBackIff` | crates/dr-dsh-cli/src/service.rs:128-134 | an XML 1.0 reader gets the text back exactly when it has only legal characters and no carriage return |
| `XmlReading.ArrayReadsBackIff` | crates/dr-dsh-cli/src/service.rs:164-173 | the argument array reads back whole exactly under the same condition on every argument |
| `CommandQuoting.SystemdIsOnePass` | crates/dr-dsh-cli/src/service.rs:136-146 | the six replaces equal a per-character map |
| `CommandQuoting.CommandReadsBack` | crates/dr-dsh-cli/src/service.rs:181-195 | systemd's unquoting and specifier expansion recover every argument list from the ExecStart line |
| `CommandQuoting.AssignmentReadsBack` | crates/dr-dsh-cli/src/service.rs:192-195 | an Environment assignment reads back as one word, unchanged |
| `CommandQuoting.LineStaysWhole` | crates/dr-dsh-cli/src/service.rs:136-146 | no quoted argument breaks its line |
| `CommandQuoting.ShellReadsBack` | crates/dr-dsh-cli/src/files.rs:164-166 | a POSIX shell reads the quoted text as one word, exactly the text |
| `CarrierCodec.Carrier` | apps/pwa/src/tunnel.ts:751-766 | refused above 65536 bytes, otherwise the eighteen byte header and the body |
| `CarrierCodec.ParseInvertsFraming` | apps/pwa/src/tunnel.ts:751-791 | parsing inverts framing for every stream and body within the limits |
| `CarrierCodec.AcceptedIsFramed` | apps/pwa/src/tunnel.ts:775-791 | what is accepted is a framing, up to the minor version and flags nobody reads |
| `Utf8.TextSurvivesIff` | apps/pwa/src/proxy.ts:370-372 | text survives TextEncoder and TextDecoder exactly when it does not start with U+FEFF |
| `ProxyCodec.EncodeRequest` | apps/pwa/src/proxy.ts:76-104 | refused exactly for a target that does not start with one slash or has two dots in a row; otherwise the bytes of the request, with a length header added where `Normalized` says |
| `ProxyCodec.EncodeWsOpen` | apps/pwa/src/proxy.ts:117-135 | refused exactly for such a target, otherwise the bytes of the upgrade |
| `ProxyCodec.EncodeWsData` | apps/pwa/src/proxy.ts:143-153 | the bytes of a text or close message |
| `ProxyCodec.Concat` | apps/pwa/src/proxy.ts:406-415 | one buffer with all parts in order |
| `ProxyCodec.SameNameIff` | apps/pwa/src/proxy.ts:94 | header names are one name exactly when they differ at most in the case of ASCII letters |
| `ProxyCodec.RequestEncodingInjective` | apps/pwa/src/proxy.ts:76-104 | within the widths, two requests are encoded alike exactly when they are alike after the length header is added |
| `ProxyCodec.WsOpenEncodingInjective` | apps/pwa/src/proxy.ts:117-135 | within the widths, two upgrades are encoded alike exactly when id, target and headers are |
| `ProxyReader.DecodeMessage` | apps/pwa/src/proxy.ts:162-201 | what every payload decodes to: nothing, a message or which error |
| `ProxyReader.WsDataSurvivesIff` | apps/pwa/src/proxy.ts:143-201 | decoding an encoded WebSocket message returns id and frame exactly when it is not a text that starts with U+FEFF |
| `ProxyReader.NumberSurvivesIff` | apps/pwa/src/proxy.ts:351-357 | a 64-bit id survives exactly when it is a multiple of the distance of JavaScript numbers at its size, and never moves by more than half that distance |
| `DaemonDecoder.DecodeProxy` | crates/dr-dsh-daemon/src/proxy/message.rs:333-398 | what the daemon makes of every payload: the message its tag announces, with two-byte header counts, the limits and strict UTF-8, or which error |
| `DaemonDecoder.RequestArrivesIff` | crates/dr-dsh-daemon/src/proxy/message.rs:348-354 | a request arrives as the browser encoded it exactly when its id is a 64-bit number, method, target, body and every header text are at most 65472 bytes, and the headers fewer than 65536 with at most 65536 bytes of text |
| `DaemonDecoder.WsDataArrivesIff` | crates/dr-dsh-daemon/src/proxy/message.rs:379-389 | a WebSocket message of the browser arrives exactly when its id is a 64-bit number and its text at most 65472 bytes |
| `DaemonDecoder.LongTextRefused` | crates/dr-dsh-daemon/src/proxy/message.rs:497-506 | a longer text is encoded and refused as too large |
| `DaemonDecoder.UpgradeArrivesIff` | crates/dr-dsh-daemon/src/proxy/message.rs:370-374 | an upgrade arrives as the browser encoded it exactly when it has no headers, a 64-bit id and a target of at most 65472 bytes |
| `DaemonDecoder.UpgradeLosesHeaders` | crates/dr-dsh-daemon/src/proxy/message.rs:512-527 | with fewer than 65536 headers it arrives without any of them: the browser writes their number in four bytes and the daemon reads two |
| `DaemonDecoder.OneHeaderIsLost` | apps/pwa/src/proxy.ts:125-126 | the smallest upgrade that loses a header |
| `DaemonDecoder.EncodedReadsBack` | crates/dr-dsh-daemon/src/proxy/message.rs:262-398 | everything the daemon can encode its own decoder reads back unchanged |
| `ProxyService.SentHeaders` | apps/pwa/src/proxy.ts:92-96 | what the daemon decodes is the caller's request, with one more header behind the caller's exactly when there is a body and no header names a length: a `content-length` whose digits say the size of the body |
| `ProxyService.SentBodyIsTaken` | crates/dr-dsh-daemon/src/proxy/service.rs:418-435 | a caller that names no length has its body taken whole by the daemon's length check |
| `ProxyService.PerformedIff` | crates/dr-dsh-daemon/src/proxy/service.rs:209-221 | from end to end: the daemon performs a request exactly when its target is plain (no backslash, line break or space either) and a length that the caller named last is the size of the body, and it then performs what was asked for |
| `ProxyService.DeclaredIff` | crates/dr-dsh-daemon/src/proxy/service.rs:423 | the daemon reads exactly the 64-bit numbers written in digits, perhaps behind a plus sign and between white space |
| `ProxyService.LengthRefused` | crates/dr-dsh-daemon/src/proxy/service.rs:423-431 | which of the two refusals a declared length gets, and that the last declaration is the one that counts |
| `DaemonMessages.EncodeMessage` | crates/dr-dsh-daemon/src/proxy/message.rs:262-325 | the message appended, or which limit refuses it |
| `DaemonMessages.EncodesIff` | crates/dr-dsh-daemon/src/proxy/message.rs:412-443 | what the limits let through: chunks and texts up to 65472 bytes, header blocks up to 65536 |
| `DaemonMessages.MessageArrives` | crates/dr-dsh-daemon/src/proxy/message.rs:262-325 | what the browser reads of everything the daemon can encode: the id rounded, a leading U+FEFF of each text dropped, the headers as the daemon's own lookup of them; binary frames and the closing message are refused |
| `DaemonMessages.HeadersSurviveIff` | apps/pwa/src/proxy.ts:374-383 | the browser's header lookup is the daemon's exactly when no name and no last value of a name starts with U+FEFF |
| `DaemonMessages.MessageSurvivesIff` | apps/pwa/src/proxy.ts:162-201 | a response start, body or end, failure, upgrade or WebSocket message arrives as meant exactly when it is not binary, its id is a JavaScript number and no text that counts starts with U+FEFF |

## Left out

- The code of AES-GCM, SHA-256, HKDF, HMAC, Ed25519 signatures and the Rust SPAKE2 crate; the browser's SPAKE2 is modelled, the daemon's is not.
- Primality of 2^255 - 19 is a hypothesis, not a theorem of this project.
- `hexToBytes` and `bytesToHex`; the fixed points are given as byte lists.
- Spake2.Agreement: that different passwords give different keys is not claimed, because it rests on the hash.
- Counters of the browser beyond 2^53, where JavaScript numbers are no longer exact; `Handover` counts below that.
- Handover.NothingIsLost: delivery assumes that encryptions finish in the order they were started and that the relay keeps order; `Handover.OvertakenFrameBreaks` shows what happens otherwise, and nonces and prefixes do not depend on it.
- Handover.NoPairTwice: one connection; `ReplayedSessions.SharedPairsIff` has the daemon's frames of several, and the salt frames of all clients of a root share the provisional key and counter 0.
- HostileHandover.HandoverSafety: assumes that the client's salt is new among the clients.
- Handlers that subscribe or unsubscribe while they are being called.
- The device challenge and its signature; its messages are only collected.
- Registry.DeviceRegistry.Save: the order of devices in the file.
- Timeouts in the pairing exchange are events without a clock. PairingExchange.PendingCode.Consume is modelled on its own; `pair_command` creates a pending code and never calls it.
- Attach mode, how `Handle::command` reports a lost or silent driver, and the bound of the command queue; the driver is the managed one.
- Calendar.CivilIsInverted: 64-bit overflow of the day count, which no timestamp of the log reaches.
- Throttle.RateBound: a clock before 1970 has no stored form and would lose the history, so the clock is past the epoch, and every save succeeds; the largest representable time is not modelled.
- AuditLog.AuditLog.Prune: the JSON of a line; a line is an entry with a time, unreadable or blank. Failing writes.
- PairingCode.ParseDisplayedCode: text beyond ASCII, where the two languages change case and read white space differently; the index of an unknown symbol is reported by its character.
- CommandQuoting.CommandReadsBack: systemd words that are not quoted and specifiers other than the doubled percent sign, which `render` never writes.
- XmlReading.ArrayReadsBackIff: the plist around the array.
- ProxyReader.DecodeMessage: ill-formed UTF-8 is kept as bytes rather than as text with replacement characters, and header names are lowered in ASCII only.
- DaemonMessages.EncodeMessage: the part of a refused message that is already in the buffer, and the requests, which the daemon encodes only in its own tests.
- ProxyCodec.EncodeRequest: a request with 65536 or more headers wraps its count; injectivity is stated within the field widths.
- ProxyService.PerformedIff: requests within the daemon's limits, and a daemon whose `usize` has 64 bits; the forwarding itself and its answer.
- `ResponseCollector`, the relay, the uplink, the user interface, the installer and the doctor.
