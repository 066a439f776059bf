# A verified model of teetls

teetls is a custom protocol shaped like TLS 1.3 with SM2, SM3 and SM4 and with remote
attestation of one or both ends. This project models its four layers in Dafny and proves what
they are for. `dafny verify dfyconfig.toml` checks everything.

| layer | modules |
|---|---|
| bytes, numbers, exclusive or, text | `Bytes`, `Text` |
| record layer | `Record` |
| handshake framing | `Codec`, `TranscriptBuffer`, `Net`, `Framing` |
| two-party handshake | `Handshake` (both step machines), `Agreement` (safety), `Completion` (when a session completes), `Keys` (the key schedule), `Liveness` (messages), `Carriage` (the same on bytes) |
| byte stream and concurrency | `Connection`, `Reading` (what a read returns), `Writers`, `Once`, `Cache`, `Dial` |
| attestation | `Hygon`, `Report`, `Chain`, `Verifier`, `Acceptance` (from the caller's fields), `Authority` |
| all of it together | `Sessions` |

What the objects of the source update in place is a class with those fields (`RecordCipher`,
`EncryptedHandshakeReader`, `Transcript`, `Conn`, `VerificationResult`, `CertChainDetails`,
`MockAttestationAuthority`); its loops are loops; each such method is proved equal to a function
of the old state and its inputs, and the properties are proved of that function. Protocols under
concurrency are step machines, and their theorems hold for every schedule.

How the primitives are treated:

- SM4-GCM is an ideal functionality with a log: a ciphertext is 16 bytes longer than its
  plaintext, and opening succeeds on logged inputs only. Nonces, headers, padding, sequence
  numbers and lengths are concrete.
- SM2 key agreement is a commutative operation, HKDF one byte stream per (secret, salt, info)
  read in consecutive slices, SM3 and HMAC arbitrary functions.
- In `Agreement` a signature under a key of one of the sessions is accepted only over a
  transcript that was signed with it, and a Finished tag, when the peer's share belongs to one
  of the sessions, only if one of them computed it. Nothing else restricts the network, and
  record encryption is not relied on.
- In `Sessions` the transcript hash and the key derivation are free constructors as far as the
  completed sessions go: one hash for one transcript, one traffic key for one input and one
  place in its stream.
- In `Chain`, `Verifier` and `Authority` SM2 verification is a parameter; the builder's one
  assumption is that what is signed verifies. The file system is a partial map from paths to
  contents.

Where the code and its documentation differ, the model follows the code:

- The mutual-attestation flag of the ClientHello is inside the transcript (handshake.go:396,
  645), despite the comment at handshake_test.go:492-493.
- Signatures and Finished tags are over the raw transcript, not its hash as in sections 4.4.3
  and 4.4.4 of RFC 8446.
- The bound on the inner plaintext of a record is 16624 bytes, looser than section 5.4 of
  RFC 8446.
- README.md:247 of the repository says explicit certificate paths come first. They are followed
  if and only if no HRK anchor is held in memory, configured or taken from the provider
  (`Verifier.PathsNeedNoAnchor`); with one they make every verification fail
  (`Verifier.AnchorAndPathsRejectAll`; `Authority.AnchorBreaksPaths` is such a peer). It fails
  closed.
- README.md:242 says a peer's HRK must match the trusted one. That holds if and only if an
  anchor is held in memory (`Verifier.PeerRootExactly`; `Authority.OtherRootAccepted` is a peer
  accepted with another HRK). The peer's HRK is never used (`Verifier.LocalAnchor`).
- Nothing bounds a configured certificate, and a reader refuses messages over 2 MiB: such a
  handshake cannot complete (`Liveness.LongCertificateFails`).

Functions that only compute have no row below; the lemmas about them do. They are, with what
they transcribe: `Record.SealRefusal` (record.go:121-140), `Record.UnsealAt` and `Record.Strip`
(record.go:175-243), `Framing.ReadNext` (handshake.go:845-898), `Framing.ReadPlain`
(handshake.go:131-178), `Connection.ReadOnce` (conn.go:115-197), `Writers.Step`
(conn.go:200-254), `Once.Step` (conn.go:69-112), `Cache.Step` (config.go:76-141), `Dial.Step`
(transport.go:81-124), `Handshake.Outgoing`, `Handshake.Receive` and `Handshake.Step`
(handshake.go:356-826), `Hygon.ParsePubKey` and `Hygon.ParseSignature`
(pkg/csvattest/verify.go:436-514), `Report.ParseReport` (pkg/csvattest/verify.go:131-190),
`Chain.CheckChain`, `Chain.LoadChain` and `Chain.CheckReport` (pkg/csvattest/verify.go:245-428),
`Verifier.Verdict` (verifier.go:90-208), and the byte layouts of `Authority`
(pkg/csvattest/mock.go:61-148).

## Model

| member | source | states |
|---|---|---|
| Record.NonceIsXor96 | record.go:246-259 | The nonce, read as a 96-bit number, is the exclusive or of the IV and the sequence number, as section 5.3 of RFC 8446 asks |
| Record.NonceInjective | record.go:246-259 | Under one IV, different 64-bit sequence numbers give different nonces |
| Record.NonceDiscipline | record.go:110-169 | Over any sequence of seals, unseals and resets, as calls on values: no two successful seals share a nonce, at most 2^64-1 less the starting number succeed, and after that all are refused |
| Record.MakeCalls | record.go:108-243 | The same of the cipher object itself: whatever calls are made on it in whatever order, the log entries added are under its key with pairwise different nonces, no more than there were sequence numbers left, and no other entry changes |
| Record.StripOfInner | record.go:142-146 | The backward zero scan finds the content type behind any plaintext, also one ending in zeros, and returns that plaintext |
| Record.StripExactly | record.go:219-241 | Stripping gives a type and a plaintext exactly when the bytes are some padding of them, the type is known and the plaintext is at most 16384 bytes; it finds no type exactly in zeros alone |
| Record.SealExtends | record.go:121-169 | A seal under the next nonce extends a sealing history and overwrites no earlier entry |
| Record.SealingStarts | record.go:76-99 | A cipher under a key nobody has used starts with the empty sealing history |
| Record.SealElsewhere | record.go:121-169 | A seal under another key leaves a sealing history as it is |
| Record.FrameFields | record.go:148-153 | The 16-bit length field never truncates: header and ciphertext can be read back from a frame |
| Record.SealsWhatFits | record.go:121-140 | A seal is refused exactly when the padding is negative, no record within the limits could carry it, or the sequence numbers are used up; a plaintext of up to 16384 bytes without padding only for the last |
| Record.UnsealExactly | record.go:175-243 | Whatever bytes arrive, a receiver at sequence number j accepts exactly the j-th sealed record, and sees what was sealed in it |
| Record.UnsealMeans | record.go:175-243 | The same whoever sealed what: a record opens to this content exactly when it is the frame of a ciphertext of legal length that was sealed under this key, this number's nonce and that header, around a padding of the content |
| Record.RoundTrip | record.go:121-243 | With matching key, IV and sequence number, a sealed record opens to its own type and plaintext if and only if its type is 21, 22 or 23 |
| Record.RecordCipher.New | record.go:76-99 | The two size checks in order; otherwise a cipher at sequence number 0 with exactly this key and IV |
| Record.RecordCipher.Reset | record.go:108-111 | Changes nothing |
| Record.RecordCipher.DeriveNonce | record.go:246-259 | The XOR loop computes the specified nonce |
| Record.RecordCipher.SealWithPadding | record.go:121-169 | Refuses in the stated order without any effect; otherwise the record is the frame of one new log entry under the old sequence number, which advances by one |
| Record.RecordCipher.Seal | record.go:116-118 | SealWithPadding without padding |
| Record.RecordCipher.Unseal | record.go:175-243 | Returns what the log says about this record at this sequence number; every failure, also one after decryption, leaves the state unchanged, success advances by one |
| Record.Aead.Seal | record.go:158-163 | The idealised primitive: a ciphertext 16 bytes longer than its plaintext, logged with key, nonce and header |
| Record.Aead.Open | record.go:211-215 | Opens logged inputs and nothing else |
| Codec.EncodedLength | handshake.go:95-104 | Type, length and body can be read back from an encoding of a body under 2^24 bytes, whatever follows |
| Codec.EncodePrefixFree | handshake.go:95-104 | No encoding is a proper prefix of another |
| Codec.TranscriptDecodes | handshake.go:314-328 | Equal transcripts are transcripts of equal message lists, for bodies under 2^24 bytes |
| Codec.LongBodiesCollide | handshake.go:95-104 | At 2^24 bytes that fails: two different message lists with one transcript |
| Codec.MinBytesPadded | handshake.go:184-187 | A big integer's bytes, padded on the left, are its fixed-width big-endian form |
| Codec.DecodeOfEncodePoint | handshake.go:181-207 | For all coordinates below 2^256, decoding an encoded point gives it back, or refuses it when it is off the curve |
| Codec.EncodeOfDecodePoint | handshake.go:181-207 | Encoding what was decoded gives the 65 bytes back |
| TranscriptBuffer.Transcript.Write | handshake.go:319-321 | Appends one encoding; the bytes an earlier view looks at are untouched, whether the buffer grows in place or moves |
| TranscriptBuffer.Transcript.Bytes | handshake.go:323-328 | The view is the current transcript, without a copy |
| TranscriptBuffer.Transcript.Hash | handshake.go:331-334 | The digest of exactly the messages written |
| TranscriptBuffer.VerifyThenWrite | handshake.go:490-506 | The view passed to signature verification is the transcript before the message that is then written |
| Net.NextRecordOfWire | conn.go:135-162 | The record reader takes a sealed record off the front of a stream whole and leaves the rest |
| Net.NextRecordExactly | conn.go:135-162 | Exactly a front of the stream with this type and a length of 1 to 16640 is taken, all of it and nothing behind it |
| Net.Source.ReadRecord | conn.go:135-162 | Reading a header, checking type and length and reading the payload is the specified parse of the incoming bytes, with its five errors |
| Net.Sink.WriteFull | handshake.go:83-92 | No error means every byte went out; a short count without an error is an error of its own |
| Framing.EncryptedHandshakeReader.ReadMsg | handshake.go:845-898 | The loop returns what the specification says of buffer, sequence number and incoming bytes, and terminates on every finite stream |
| Framing.EncryptedHandshakeReader.HasRemaining | handshake.go:901-903 | True exactly when the buffer is not empty |
| Framing.ReadMsgConserves | handshake.go:845-898 | Against any incoming bytes: encodings returned followed by the buffer are all plaintext unsealed so far, unless the call failed on a record whose plaintext it drops |
| Framing.HandshakeRecordsAlone | handshake.go:876-889 | Only handshake records make up messages: a call that takes in a record of another type fails on it, naming the type, and takes in nothing after it |
| Framing.PullConserves | handshake.go:865-896 | One turn of the loop loses no unsealed plaintext |
| Framing.FragmentationInvariance | handshake.go:845-903 | Any cutting of the encodings into handshake records of 0 to 16384 bytes is read back as exactly those messages in order, and nothing remains; each message up to 2080769 bytes, or all together up to 2 MiB |
| Framing.MessageLimitIsExact | handshake.go:892-894 | One byte more, and a legal cutting makes the reader give up |
| Framing.WriteEncryptedMsg | handshake.go:913-930 | The chunk loop puts exactly the wire forms of the sealed chunks on the connection, in order; it fails only when the sequence numbers are used up or the last raw write failed, and then those before it are there |
| Framing.ReturnedIsSmall | handshake.go:853-855 | No message longer than 2 MiB is ever returned |
| Framing.WriterReaderRoundTrip | handshake.go:845-930 | Whatever was read before and whatever follows, the records of one message give it back with the same type and body, sequence numbers equal afterwards and nothing behind it read, if and only if it is at most 2 MiB with its header; a longer one is refused for its length |
| Framing.RefusesRecords | handshake.go:853-855 | A message over 2 MiB with its header, however it was sealed, is refused for its length |
| Framing.ReadPlaintextMsg | handshake.go:131-178 | The assembling loop returns what the specification says of the incoming bytes and consumes exactly that |
| Framing.ReadPlainRecord | handshake.go:137-154 | One plaintext record off the connection, with its errors |
| Framing.NextPlainRecordExactly | handshake.go:137-154 | Exactly a record of handshake type with 1 to 16384 bytes is taken off a stream, whatever its version bytes |
| Framing.PlaintextReassembly | handshake.go:131-178 | Success if and only if the payloads of some first group of valid records concatenate to exactly one encoded message within 2 MiB; then type, body and wire form are that message's and no byte past the group is consumed |
| Framing.WritePlaintextMsg | handshake.go:107-124 | Refuses over 16384 bytes and touches nothing; otherwise one record with the right length field goes out whole, or the raw write failed |
| Framing.PlaintextRoundTrip | handshake.go:107-178 | A written plaintext message is read back, and what follows it is left |
| Connection.StreamSafety | conn.go:115-197 | For arbitrary incoming bytes and any run of reads, failed ones included: bytes returned followed by the carry-over are the application data of the peer's first `sequence` records, so delivery is a prefix of what was written |
| Connection.ReadSafe | conn.go:115-197 | One read keeps that, and reports an end of stream only on an authenticated close_notify unless one was already received |
| Connection.FirstEndIsCloseNotify | conn.go:126-179 | The first end of stream comes from a close_notify the peer sealed, with the carry-over empty and everything sealed before it delivered (section 6.1 of RFC 8446) |
| Connection.DataFits | conn.go:115-197 | No read returns more than the buffer holds |
| Reading.ReadExactly | conn.go:115-197 | What a read with room and no carry-over returns, exactly, for every honest history and every stream: it skips empty data records, then answers the next record if that comes whole (data as much as fits with the rest kept, close_notify the end of stream, every other record the error that names it), and if not it gives up, with the end of stream at the end of the connection after a close_notify and with an error otherwise |
| Reading.ReadTakes | conn.go:169-193 | Data comes from data records alone; the first end of stream comes from a close_notify behind empty data records; a read that takes in any other record fails |
| Reading.EndStays | conn.go:135-142 | After a close_notify every further read at the end of the connection is the end of stream, with the state unchanged |
| Reading.ReadFills | conn.go:119-197 | A read hands out as much as there is and fits: a carry-over is left only when the buffer is full, is handed out first, and without touching the connection |
| Connection.AppDataOfWrite | conn.go:208-229 | A Write's records carry its argument, an interrupted one's a prefix of it |
| Connection.EverythingArrives | conn.go:115-254 | Over an honest network, with any sequence of positive buffer sizes and the stream arriving in any pieces, reads that wait for more when they run out hand out exactly what was written and then the end of stream, once there are enough of them |
| Connection.ReadAhead | conn.go:115-197 | A read that does not run out of bytes gives the same result and state however much more arrives behind them |
| Connection.Conn.EnsureHandshake | conn.go:69-112 | One handshake at most; failure is sticky and repeated; success means that both ciphers are set, and from then on nothing changes |
| Connection.Conn.FetchData | conn.go:133-196 | The record loop of Read is the specified function of state and incoming bytes, of which Reading.ReadExactly says what it returns |
| Connection.Conn.ReadEstablished | conn.go:119-197 | Read after the handshake refines the specified read, state and incoming bytes included |
| Connection.Conn.Read | conn.go:115-197 | Read with its handshake: an error before it, the specified read after it |
| Connection.Conn.WriteEstablished | conn.go:208-229 | The records put on the wire are the seals of the argument's chunks in order, the count returned is what they carry; it fails only when the sequence numbers are used up or the last raw write failed |
| Connection.Conn.Close | conn.go:233-254 | Once: what Close does with the raw connection is a close_notify under a deadline if the handshake is done and the record can be sealed, and then in every case the raw close; it reports a failure exactly if one of these failed; a second call does nothing and repeats the result |
| Connection.Conn.SendCloseNotify | conn.go:236-251 | The part under writeMu: one sealed close_notify, written only after its deadline was set, and every failure reported |
| Writers.ConcurrentWriters | conn.go:205-254 | In every interleaving of Write and Close: until a raw write fails the j-th record on the wire is the one sealed with number j, each call's records are contiguous and in order, and at most one close_notify is sealed |
| Writers.WriteArrivesWhole | conn.go:205-229 | A Write that returned without error has its whole argument in one stretch of the sealed order and every record of it on the wire |
| Writers.NothingAfterRawClose | conn.go:251 | Once the raw connection is closed nothing more reaches the wire |
| Writers.CloseReturnsClosed | conn.go:233-254 | In every interleaving a Close, also one that lost the race to another, returns only once the raw connection is closed |
| Writers.SealsDataOrNotify | conn.go:208-251 | Nothing but application data and the alert [1, 0] is ever sealed by Write and Close |
| Writers.WritesSucceed | conn.go:205-229 | Without a Close and without a failing raw write, a Write fails only when the sequence numbers are used up |
| Writers.NeverStuck | conn.go:205-254 | In every reachable state some call can go on, as long as one is not over |
| Writers.StepKeeps | conn.go:205-254 | The invariant behind this survives every lock operation, seal and raw write |
| Once.OneHandshake | conn.go:69-112 | Over every interleaving of callers: at most one handshake runs, all callers are told the same, failure if and only if it failed, and success finds both ciphers set |
| Once.NobodyFails | conn.go:84-97 | A handshake that does not fail is never reported to have failed |
| Once.NeverStuck | conn.go:77-84 | In every reachable state some caller can go on, as long as one has not returned |
| Once.StepKeeps | conn.go:69-112 | The invariant behind it; failed and done never reset |
| Cache.CacheDiscipline | config.go:76-141 | Over every interleaving under a monotone clock: a returned certificate and key come from one generation, one caller generates at a time, and only while the stored one is past its TTL or within a minute of expiry; configured material is what every caller gets, without it and without a provider every caller fails, and then nothing is generated |
| Cache.HitsAreFresh | config.go:130-142 | Over every interleaving: what a call returns from the cache was stored and, on the clock readings of that very call, was within its TTL (an hour if none is configured) and more than a minute from expiry; a generation starts only when the one stored last is not |
| Cache.StaleIsNotServed | config.go:94-127 | From every reachable state in which nobody is storing and the stored certificate is past its TTL or within a minute of expiry: a call that starts then and returns gives a newer generation |
| Cache.NobodyFails | config.go:112-121 | With a provider and nothing configured, calls fail only when generating or parsing back does |
| Cache.NeverStuck | config.go:94-127 | In every reachable state some caller can go on, as long as one is not done |
| Cache.StepKeepsFresh | config.go:94-141 | The invariant behind it: a caller on its way to a cached certificate has checked the one stored last |
| Cache.StepKeeps | config.go:76-141 | The invariant behind it survives every lock operation, clock reading and field access |
| Dial.NoDeadlineAfterDial | transport.go:81-124 | However a cancellation races: a connection returned without error has completed its handshake, is open and has no deadline, then or later; an error means a failed handshake and a closed connection, and blames only a cancellation that happened; the watcher is gone in both cases |
| Dial.CancelExpires | transport.go:99-106 | A cancellation during the handshake expires the deadline, by at most two actions of the watcher |
| Dial.DialReturns | transport.go:108-124 | A dial is never stuck: from every reachable state a bounded number of actions ends it, with a connection exactly if the handshake succeeds |
| Agreement.ClientAgreement | handshake.go:356-586 | In every run of any number of sessions on a network that chooses every byte: a client that accepted an honest server's Finished shares its first five messages with exactly one server session, the key's owner; when both complete, transcripts and messages are equal, the mutual flag included, and the ciphers mirror each other at sequence 0 |
| Agreement.ServerAgreement | handshake.go:598-826 | The same from a server that negotiated mutual attestation: the client key's owner has the same transcript up to its Finished, and mirrored ciphers once it completed |
| Agreement.NoDowngrade | handshake.go:452-462 | Whatever the network does to the plaintext flag, an end that asked for mutual attestation and completes has exchanged the client's Certificate and CertificateVerify; the server holds an attested client key |
| Agreement.RunKeeps | handshake.go:356-826 | The session and world invariants hold after every run |
| Agreement.StepKeepsSession | handshake.go:356-826 | What every step of either machine keeps: message types by position, own messages, Finished tags, accepted keys, progress |
| Completion.CompletesExactly | handshake.go:356-826 | In every run a session is done if and only if the inputs at its turn are those of a faultless session: types by position, everything sent written in full with its own hello, flag, certificate, signature and tag, everything received short enough, with a share on the curve and a shared secret, an agreeable flag, an attested certificate, a verified signature, the right tag and nothing behind a Finished |
| Completion.FailedWriteIsFinal | handshake.go:557-559 | After a failed write the session is failed in every later state of the run, and its transcript has not grown |
| Completion.TrailingDataIsFinal | handshake.go:526-528 | After a Finished with handshake bytes behind it, the server's or the client's, the session is failed in every later state of the run |
| Completion.FailureIsFinal | handshake.go:356-826 | Any input that makes a session fail leaves it in that state for good |
| Completion.MutualErrors | handshake.go:452-462 | The two mutual-attestation errors are returned exactly when the flag is refused where it was asked for, and granted where the client has nothing to attest itself with |
| Agreement.SameSecret | handshake.go:209-273 | A client and a server that hold the same two hellos, each its own, derive one secret and one key stream |
| Keys.HandshakeKeys | handshake.go:209-273 | The six handshake values in order, client key and IV, server key and IV, server and client Finished key, are the first 120 bytes of one stream, salted with the client's random and then the server's, from the x coordinate in 32 bytes; both ends read that stream |
| Keys.ApplicationKeys | handshake.go:276-300 | Over one transcript the client's outgoing key and IV and then the server's are the first 56 bytes of one stream bound to its hash; each end reads what the other writes, from sequence number 0 |
| Keys.AgreedKeys | handshake.go:562-584 | In every run a client under an honest key and the server session it agreed with, both completed, write under those bytes |
| Agreement.ShareOfHello | handshake.go:379-388 | The ephemeral point read from a hello is the one its sender put there |
| Agreement.BothDone | handshake.go:562-825 | Two completed sessions that agree on five messages agree on everything and hold mirrored ciphers |
| Agreement.LawsAreConsistent | handshake.go:209-308 | The assumptions on the primitives can be met by a client and a server with different shares |
| Sessions.ClientReachesAttestedServer | handshake.go:464-525 | A client with verification on that accepted a server's Finished talks to a server session that holds the accepted key, was shown that session's own certificate, and the evidence in it is trusted for that key |
| Sessions.AttestedIsVouched | handshake.go:478-491 | A key accepted from a certificate is the key in it, with trusted evidence |
| Sessions.OneWriter | handshake.go:276-300 | No two completed sessions, and no two directions, write application data under one key |
| Sessions.ReadsWhatWasWritten | conn.go:115-254 | What a completed session is handed, with its carry-over, is the data of a first part of what its peer wrote, whatever other sessions seal and whatever bytes arrive |
| Sessions.SessionIntegrity | handshake.go:356-826 | From the first byte to the last: in every run of any number of sessions, a client that completed under an honest key and the server session it agreed with are each handed, in all traffic that follows, a prefix of what the other wrote |
| Authority.LawsAreConsistent | pkg/csvattest/mock.go:168-176 | The assumption on the signature scheme can be met with signing that never fails |
| Liveness.HonestHandshake | handshake.go:356-826 | Over an honest network, for all settings of the mutual flags and every order of moves: never both waiting on empty channels, both settle on the same answer about client authentication, and when nothing can move both are done if and only if it was not negotiated or the client has credentials, and every message is within the readers' 2 MiB; done means one transcript and mirrored ciphers |
| Liveness.AlwaysFinishes | handshake.go:356-826 | From every reachable state a bounded number of moves ends the run |
| Liveness.MoveKeeps | handshake.go:356-826 | Every effective move keeps both transcripts prefixes of one script with the difference in the channels, ends an end that meets a message over 2 MiB, and decreases the measure |
| Liveness.StuckMeans | handshake.go:452-560 | What a state without moves looks like: without client credentials where they are needed, with every message short enough, and with one that is too long |
| Liveness.DerivedValues | handshake.go:390-438 | Both ends derive the same flag, secret and key stream from any shared prefix |
| Liveness.LongCertificateFails | handshake.go:853-855 | A server certificate of three million bytes is never accepted, and makes the client's read fail |
| Liveness.LongCertificateExists | config.go:86-88 | There is such a server: nothing in its configuration bounds the certificate |
| Carriage.WriteKeeps | handshake.go:107-124 | Writing a message appends its records, plaintext for a hello and sealed under the next sequence numbers otherwise, to what the direction holds |
| Carriage.ReadKeeps | handshake.go:131-178 | Reading takes exactly the next message off the direction's bytes, or fails if it is over 2 MiB |
| Carriage.RunAlike | handshake.go:356-930 | Every byte-level run, sessions, records, sequence numbers and buffers included, goes through the sessions of the message-level run with the same schedule |
| Carriage.HandshakeOverBytes | handshake.go:356-930 | The honest handshake over bytes, for any ciphertexts: never both waiting for bytes, and when nothing can move both are done, with one transcript and mirrored ciphers, if and only if mutual attestation was not negotiated or the client has credentials, and no certificate or signature sent is over what a reader takes |
| Carriage.BytesAlwaysFinish | handshake.go:356-930 | At most twenty moves lead there |
| Hygon.ReverseCopy | pkg/csvattest/verify.go:540-546 | The loop returns the bytes back to front |
| Hygon.PubKeyRoundTrip | pkg/csvattest/verify.go:436-465 | A key written by putMockHygonPubKey reads back, point and user id, if and only if the id fits its 16-bit length and the buffer |
| Hygon.PutHygonPubKey | pkg/csvattest/mock.go:160-166 | The in-place writes are the specified ones; a user id too long for the buffer is cut |
| Hygon.PubKeyMisses | pkg/csvattest/mock.go:160-166 | Writing a key changes nothing outside it |
| Hygon.SignatureRoundTrip | pkg/csvattest/verify.go:507-514 | Written halves r and s below 2^256 read back from any window that starts at them |
| Hygon.PutHygonSignature | pkg/csvattest/mock.go:168-176 | The two in-place writes of a signature |
| Hygon.SignatureMisses | pkg/csvattest/mock.go:168-176 | Writing a signature changes nothing outside it, in particular not what was signed |
| Hygon.NumberRoundTrip | pkg/csvattest/mock.go:178-182 | Padding and reversing a number, then reversing and reading it, gives it back |
| Report.UnmaskWords | pkg/csvattest/report.go:20-29 | The word loop on little-endian numbers equals bytewise exclusive or with the repeated nonce, a partial last word copied |
| Report.UnmaskedTwice | pkg/csvattest/report.go:20-29 | Masking is its own inverse |
| Report.NonceOfWord | pkg/csvattest/report.go:20-29 | One unmasked word determines the nonce |
| Report.ParsedFields | pkg/csvattest/verify.go:131-174 | Which bytes of the report each parsed field is, unmasked or not |
| Report.UnsignedFields | pkg/csvattest/verify.go:131-190 | The same for the fields outside the signed region, and what the chip and PEK details are parsed from |
| Report.ANoncePinned | pkg/csvattest/verify.go:217-232 | Two reports with equal signed bytes, both bound to one public-key digest, have the same A nonce and so equal user data, M nonce, measurement and policy, although the A nonce is not signed |
| Chain.VerifyCertChain | pkg/csvattest/verify.go:349-428 | Returns the first failing check in order; each verified flag is set exactly when its own signature and all before it verified |
| Chain.VerifySignatures | pkg/csvattest/verify.go:411-426 | The four signature checks and their flags |
| Chain.ParseIsKeyAt | pkg/csvattest/verify.go:436-465 | Parsing gives a key if and only if the bytes spell it: curve id, little-endian coordinates, length-prefixed user id |
| Chain.VerifiesIsSignedAt | pkg/csvattest/verify.go:494-497 | Verification is of little-endian r and s at their fixed offsets |
| Chain.ChainExactly | pkg/csvattest/verify.go:349-428 | The checks pass if and only if there is a complete HRK, HSK, CEK, PEK chain with the right usages and signatures over the exact ranges; the PEK's sig1 usage plays no part |
| Chain.VerifyReportPEKSignature | pkg/csvattest/verify.go:193-240 | Every short field is an error, the report is marked verified only on success, and nothing else changes |
| Chain.HeaderExactly | pkg/csvattest/verify.go:193-240 | For a parsed report it succeeds if and only if the first 0xb4 bytes, masked as they are, are signed by the key in the unmasked PEK |
| Chain.PekSignatureExactly | pkg/csvattest/verify.go:193-240 | On any result, parsed or built by a caller: the check passes if and only if the fields are long enough, the PEK spells a key, and that key signed the first 0xb4 bytes of the report |
| Chain.ReportExactly | pkg/csvattest/verify.go:245-276 | A report is accepted if and only if it parses, its header is signed and, when asked for, its PEK chains to the loaded root |
| Chain.VerifyReportWithOptions | pkg/csvattest/verify.go:245-276 | The whole verification with its result object: both flags mean what they say |
| Chain.VerifyMaterial | pkg/csvattest/verify.go:258-275 | The chain half of it: material loaded, chain checked, details recorded |
| Chain.MaterialIsWhole | pkg/csvattest/verify.go:287-325 | Chain material is never mixed: two byte strings in memory, or with none the files under two explicit paths, or with no path either those of the certificate directory |
| Chain.AliasesStandIn | pkg/csvattest/verify.go:288-295 | The deprecated aliases count exactly when what they stand for is empty or blank |
| Chain.FilesExactly | pkg/csvattest/verify.go:328-338 | Two files are read to their fixed sizes whatever follows; a missing or short one is an error |
| Verifier.ValidateExpectedMeasurements | config.go:180-192 | Finds the first entry that is not 64 hexadecimal digits |
| Verifier.NormalizeVerifyConfig | verifier.go:45-85 | Defaults and provider anchor filled in, or the first configuration error |
| Verifier.BuildOptions | verifier.go:135-170 | The options assembled by assignment, branch by branch, or the reason to refuse |
| Verifier.FindExtension | verifier.go:111-117 | The first extension with the evidence identifier |
| Verifier.MeasurementAllowed | verifier.go:183-205 | The search loop with its flag decides the policy |
| Verifier.CheckPeerEvidence | verifier.go:135-207 | The checks from decoded evidence on, in order |
| Verifier.VerifyPeerCertificateAndEvidence | verifier.go:90-208 | The method computes the specified verdict on every input |
| Acceptance.AcceptedExactly | verifier.go:90-208 | Who is accepted, from the caller's own fields: the configuration is well-formed, the certificate in date, its first evidence extension of version 1 and the right sizes, the report signed by a PEK that chains to the caller's anchor (the provider's if that is empty), bound to the key, and unless the mode is permissive its measurement on the caller's list |
| Acceptance.RefusedExactly | verifier.go:98-205 | The errors a caller can tell apart, each if and only if: not yet valid, expired, no evidence, another key, another measurement |
| Acceptance.SkippedExactly | verifier.go:111-131 | With verification switched off, evidence of the right form or none at all is accepted, and nothing else |
| Acceptance.UnsetIsStrict | verifier.go:45-66 | An unset mode gives the verdicts of the strict one, no configuration those of the empty strict one |
| Acceptance.IllFormedAcceptsNobody | verifier.go:67-79 | An unknown mode, one path without the other, or an entry that is not 64 hexadecimal digits refuses everybody with a configuration error, and nothing else does |
| Acceptance.ProviderStandsIn | verifier.go:80-84 | The provider's anchor counts exactly when the configured one is empty |
| Verifier.MaterialExactly | verifier.go:140-170 | The chain material used is the local anchor and the intermediates as two separate functions give them, of which the first does not see the peer's evidence |
| Verifier.PolicyExactly | verifier.go:183-205 | Caseless comparison with the encoded digest is equality of the decoded entry with the digest |
| Verifier.AcceptanceExactly | verifier.go:90-208 | With verification on, a peer is accepted if and only if it presents evidence with a complete chain from the local anchor, bound to its key, with a listed measurement in strict mode; never without evidence |
| Verifier.PeerMaterialNeverHelps | verifier.go:146-170 | Dropping the peer's HRK never turns acceptance into refusal, with local chain material neither does any change of its HSK and CEK, and without local material there must be an in-memory anchor |
| Verifier.PeerRootExactly | verifier.go:140-149 | The rule of README.md:242, exactly: an accepted peer stays accepted with another HRK in its evidence if and only if no anchor is held in memory, or it sends none, or it sends that anchor |
| Verifier.PathsNeedNoAnchor | verifier.go:140-157 | Explicit paths are followed, as README.md:247 says, if and only if no anchor is held in memory; otherwise the chain is always reported missing |
| Verifier.AnchorAndPathsRejectAll | pkg/csvattest/verify.go:298-301 | An in-memory anchor with both paths set accepts nobody |
| Verifier.SameHeaderSameMeasurement | verifier.go:177-205 | Verifiers that accept one key on equal signed headers accept the same measurement |
| Authority.IssuedChainVerifies | pkg/csvattest/mock.go:61-100 | Every chain the authority issues is a complete chain: no write disturbs a signed range or an earlier field |
| Authority.ReportFields | pkg/csvattest/mock.go:117-148 | Every field of a generated report unmasks to what was put in, for every A nonce |
| Authority.GeneratedReportVerifies | pkg/csvattest/mock.go:117-148 | For every user data, measurement string and A nonce, the generated report parses, is signed by its PEK, chains to the issued root, and yields the user data (first 64 bytes, zero-filled) and measurement asked for |
| Authority.IssuedPeerExactly | provider.go:63-82 | A peer with the authority's report is accepted, by every route that resolves to its chain, if and only if the report was made for its key and the measurement is allowed |
| Authority.IssuedPeerAccepted | provider.go:63-82 | Every strict configuration that lists the measurement and resolves to the issued chain accepts the issued peer, from the certificate on |
| Authority.OtherRootAccepted | verifier.go:140-160 | An input on which README.md:242 fails: with a certificate directory alone, an issued peer that carries any other HRK is accepted |
| Authority.AnchorBreaksPaths | verifier.go:140-157 | An input on which README.md:247 fails: the issued peer is accepted through explicit paths, and refused once the very same HRK is put in memory |
| Authority.RootVerifies | pkg/csvattest/mock.go:62-75 | Usage, key and signature of a root certificate read back and verify |
| Authority.CsvVerifies | pkg/csvattest/mock.go:77-95 | Usages, key and signature of a CEK or PEK certificate read back and verify |
| Authority.SignHygonData | pkg/csvattest/mock.go:168-176 | Signs the first n bytes of a buffer and writes the signature into it; a failed signature changes nothing |
| Authority.BuildRoot | pkg/csvattest/mock.go:62-75 | The writes into a fresh buffer make the specified certificate |
| Authority.BuildCsv | pkg/csvattest/mock.go:77-95 | The writes into a fresh buffer make the specified certificate |
| Authority.MockAttestationAuthority.GenerateCertificates | pkg/csvattest/mock.go:61-100 | Succeeds exactly when all four signatures can be made, and then the fields hold the issued chain |
| Authority.MockAttestationAuthority.Generate | pkg/csvattest/mock.go:117-148 | The buffer filled field by field is the specified signed report, returned with the two certificate files; the authority does not change |
| Text.EqualFoldIsDecoding | verifier.go:189-193 | Comparing hexadecimal text caselessly compares the bytes it stands for |
| Text.HexDecodeExactly | config.go:180-192 | A string stands for given bytes exactly when it is their hexadecimal encoding but for case |
| Text.TrimSpaceMeans | pkg/csvattest/verify.go:292-297 | Trimming takes off white space at both ends, and all of it |

## Left out

- Record.RecordCipher.SealWithPadding: padding lengths so near the largest integer that the sum at record.go:129 wraps are not modelled; integers are unbounded.
- Framing.WriteEncryptedMsg: what a partly written record leaves on the connection is any prefix of it.
- Reading.ReadExactly: why a record that is not the next one does not open is left open.
- Connection.Conn.Close: the write deadline of 500 ms only succeeds or fails; joined error values are one flag.
- Connection.Conn.EnsureHandshake: the outcome of the handshake is an argument; Agreement and Liveness say what it can be. The order of its assignments is in Once.OneHandshake alone.
- Writers.ConcurrentWriters: Write calls are modelled from after their handshake; a Write between the end of Close's locked part and the raw close can still put records behind the close_notify, so nothing is claimed there.
- Cache.CacheDiscipline: generating and parsing back what was generated are one action with one failure.
- Agreement.ClientAgreement: both handshake functions are step machines on values, one step per message; their local steps that only fail (random numbers, key generation, key parsing) are one error each; certificates and signatures sent are under 2^24 bytes.
- Carriage.HandshakeOverBytes: writes do not block or fail, a message is written in one move, so that no reader meets half of one, and certificates and signatures sent are under 2^24 bytes, from where on the length field wraps (Codec.LongBodiesCollide).
- Sessions.ClientReachesAttestedServer: the two certificate parsers, of verification and of the key, are taken to read one key from one certificate.
- TranscriptBuffer.VerifyThenWrite: the read of the message between taking the view and using it is an argument.
- Chain.VerifyReportWithOptions: the partly filled result that accompanies a parse error, the hexadecimal copies of key fields and the published URLs are not modelled.
- Verifier.VerifyPeerCertificateAndEvidence: X.509 and ASN.1 decoding, the clock and path joining are parameters; the evidence size and version checks are kept.
- Authority.MockAttestationAuthority.Generate: the A nonce, zero in the source, and the randomness of signing are arguments; the lock is left out.
- Internals of SM2, SM3, SM4, GCM, HKDF, X.509, PEM and ASN.1, which are libraries; with the last, the encoding side of evidence.go.
- Device access, ioctl and memory mapping, sealing keys, the session MAC and M nonce checks of the attestation client.
- HTTP transport, listeners, address and deadline pass-throughs, copying of peer certificates.
- Real time: timeouts and deadlines appear only as the order of operations in Dial.
- Config.Validate and the remaining one-branch checks, error texts and logging.
