/**
 The two ends of the handshake as step machines over whole messages. A session's transcript is
 the list of messages it has written to it; how far it has got is the length of that list.
 Primitives are parameters; what is assumed of them is in `Laws` and, for signatures and
 message authentication, in the steps of module Agreement.
 */
module Handshake {
  import opened Bytes
  import opened Codec

  const CLIENT_HELLO: byte := 1
  const SERVER_HELLO: byte := 2
  const ENCRYPTED_EXTENSIONS: byte := 8
  const CERTIFICATE: byte := 11
  const CERTIFICATE_VERIFY: byte := 15
  const FINISHED: byte := 20

  const RANDOM_LEN := 32
  const SHARE_END := RANDOM_LEN + POINT_LEN
  const TAG_LEN := 32

  /**
   Curve, x coordinate of the Diffie-Hellman point, HKDF as one byte stream per (secret, salt,
   info), HMAC and hash.
   */
  datatype Suite = Suite(
    publicPoint: nat -> Point,
    onCurve: Point -> bool,
    shared: (nat, Point) -> Option<nat>,
    hkdf: (bytes, bytes, bytes) -> (nat -> byte),
    hmac: (bytes, bytes) -> bytes,
    hash: bytes -> bytes
  )

  ghost predicate Laws(suite: Suite) {
    && (forall d :: Coordinate(suite.publicPoint(d).x) && Coordinate(suite.publicPoint(d).y))
    && (forall d :: suite.onCurve(suite.publicPoint(d)))
    && (forall a, b :: suite.shared(a, suite.publicPoint(b)) == suite.shared(b, suite.publicPoint(a)))
    && (forall a, b :: suite.shared(a, suite.publicPoint(b)).Some? ==>
          Coordinate(suite.shared(a, suite.publicPoint(b)).value))
    && (forall k, m :: |suite.hmac(k, m)| == TAG_LEN)
  }

  datatype Credential = Credential(certPem: bytes, publicKey: bytes)

  /**
   One session's configuration and local randomness. The credential is prepareCertificate's
   result; `attest` is the key that certificate and evidence verification accept a certificate for.
   */
  datatype Party = Party(
    isServer: bool,
    ephemeral: nat,
    random: bytes,
    verifyMutual: bool,
    hasProvider: bool,
    hasPem: bool,
    credential: Option<Credential>,
    attest: bytes -> Option<bytes>
  )

  predicate ValidParty(p: Party) {
    && |p.random| == RANDOM_LEN
    && (p.credential.Some? ==> |p.credential.value.certPem| < BODY_LIMIT)
  }

  datatype Error =
    | ReadFailed | WriteFailed | WrongType | TooShort | BadShare | NoSharedSecret
    | MutualNotConfirmed | MutualRequired | NotAttested | BadSignature | BadFinished
    | TrailingData | NoCredential

  datatype Status = Running | Failed(error: Error) | Done

  datatype Session = Session(msgs: seq<Message>, status: Status, peerKey: Option<bytes>)

  const FRESH := Session([], Running, None)

  /**
   What happens at a step: a message arrives, with the verdict of signature verification and
   whether bytes are left over behind it; a read fails; or a message goes out, with the
   signature produced for it if it needs one, and whether the write succeeds.
   */
  datatype Input =
    | Arrives(m: Message, verified: bool, trailing: bool)
    | ReadFails
    | Goes(signature: bytes, written: bool)

  // Derived values ---------------------------------------------------------------

  function Transcript(msgs: seq<Message>): bytes {
    EncodeAll(msgs)
  }

  function Share(body: bytes): bytes
    requires |body| >= SHARE_END
  {
    body[RANDOM_LEN..SHARE_END]
  }

  /** The peer's ephemeral point in a hello message. */
  function PeerPoint(suite: Suite, hello: Message): Option<Point> {
    if |hello.body| < SHARE_END then None else DecodePoint(Share(hello.body), suite.onCurve)
  }

  function PeerHello(p: Party): nat {
    if p.isServer then 0 else 1
  }

  function Secret(suite: Suite, p: Party, msgs: seq<Message>): Option<bytes> {
    if |msgs| <= PeerHello(p) then None
    else
      var point := PeerPoint(suite, msgs[PeerHello(p)]);
      if point.None? then None else SharedSecret(suite, p.ephemeral, point.value)
  }

  /** computeECDHESharedSecret: the x coordinate in 32 bytes, zeros on the left. */
  function SharedSecret(suite: Suite, d: nat, point: Point): Option<bytes> {
    match suite.shared(d, point)
    case None => None
    case Some(x) => Some(if Coordinate(x) then Padded32(x) else [])
  }

  function Padded32(x: nat): (z: bytes)
    requires Coordinate(x)
    ensures |z| == 32
  {
    MinBytesPadded(x, 32);
    PadLeft32(MinBytes(x))
  }


  function OrEmpty(o: Option<bytes>): bytes {
    if o.Some? then o.value else []
  }

  function Slice(stream: nat -> byte, from: nat, n: nat): (s: bytes)
    ensures |s| == n
  {
    seq(n, i requires 0 <= i < n => stream(from + i))
  }

  function Ascii(s: string): bytes {
    seq(|s|, i requires 0 <= i < |s| => if s[i] < 256 as char then s[i] as int else 0)
  }

  function RandomOf(msgs: seq<Message>, hello: nat): bytes {
    if hello < |msgs| && |msgs[hello].body| >= RANDOM_LEN then msgs[hello].body[..RANDOM_LEN] else []
  }

  /** deriveHandshakeTrafficKeys: the stream the six keys are read from, in order. */
  function HandshakeStream(suite: Suite, p: Party, msgs: seq<Message>): nat -> byte {
    suite.hkdf(OrEmpty(Secret(suite, p, msgs)), RandomOf(msgs, 0) + RandomOf(msgs, 1),
               Ascii("tls13-rfc8998-sm4-gcm-sm3-handshake"))
  }

  /** The record key of one direction of the handshake. */
  function KeyOf(stream: nat -> byte, ofServer: bool): bytes {
    Slice(stream, if ofServer then 28 else 0, 16)
  }

  function IVOf(stream: nat -> byte, ofServer: bool): (iv: bytes)
    ensures |iv| == 12
  {
    Slice(stream, if ofServer then 44 else 16, 12)
  }

  function ServerFinishedKey(suite: Suite, p: Party, msgs: seq<Message>): bytes {
    Slice(HandshakeStream(suite, p, msgs), 56, 32)
  }

  function ClientFinishedKey(suite: Suite, p: Party, msgs: seq<Message>): bytes {
    Slice(HandshakeStream(suite, p, msgs), 88, 32)
  }

  /** A record cipher as NewRecordCipher makes it. */
  datatype Cipher = Cipher(key: bytes, iv: bytes, sequence: nat)

  datatype Ciphers = Ciphers(incoming: Cipher, outgoing: Cipher)

  /** deriveApplicationTrafficKeys and the two ciphers made from it. */
  function TrafficCiphers(suite: Suite, p: Party, msgs: seq<Message>): Ciphers {
    var stream := suite.hkdf(OrEmpty(Secret(suite, p, msgs)), suite.hash(Transcript(msgs)),
                             Ascii("tls13-rfc8998-sm4-gcm-sm3-application"));
    var client := Cipher(Slice(stream, 0, 16), Slice(stream, 16, 12), 0);
    var server := Cipher(Slice(stream, 28, 16), Slice(stream, 44, 12), 0);
    if p.isServer then Ciphers(client, server) else Ciphers(server, client)
  }

  /** Whether this session takes mutual attestation to be negotiated. */
  function Mutual(p: Party, msgs: seq<Message>): bool {
    if p.isServer then
      p.verifyMutual || (|msgs| > 0 && |msgs[0].body| > SHARE_END && msgs[0].body[SHARE_END] == 1)
    else
      |msgs| > 2 && |msgs[2].body| > 0 && msgs[2].body[0] == 1
  }

  // Outgoing messages ---------------------------------------------------------------

  function ClientHello(suite: Suite, p: Party): Message
    requires Laws(suite)
  {
    Message(CLIENT_HELLO, p.random + EncodePoint(suite.publicPoint(p.ephemeral)) + [if p.verifyMutual then 1 else 0])
  }

  function ServerHello(suite: Suite, p: Party): Message
    requires Laws(suite)
  {
    Message(SERVER_HELLO, p.random + EncodePoint(suite.publicPoint(p.ephemeral)))
  }

  /** Which end writes the message after these. */
  predicate Sends(p: Party, msgs: seq<Message>) {
    if p.isServer then 1 <= |msgs| < 6 else |msgs| == 0 || |msgs| >= 6
  }

  function Outgoing(suite: Suite, p: Party, msgs: seq<Message>, signature: bytes): Result<Message, Error>
    requires Laws(suite) && Sends(p, msgs)
  {
    if p.isServer then
      match |msgs|
      case 1 => Ok(ServerHello(suite, p))
      case 2 =>
        if Secret(suite, p, msgs).None? then Err(NoSharedSecret)
        else Ok(Message(ENCRYPTED_EXTENSIONS, [if Mutual(p, msgs) then 1 else 0]))
      case 3 => CertificateMessage(p)
      case 4 => Ok(Message(CERTIFICATE_VERIFY, signature))
      case _ => Ok(Message(FINISHED, suite.hmac(ServerFinishedKey(suite, p, msgs), Transcript(msgs))))
    else if |msgs| == 0 then Ok(ClientHello(suite, p))
    else if Mutual(p, msgs) && |msgs| == 6 then CertificateMessage(p)
    else if Mutual(p, msgs) && |msgs| == 7 then Ok(Message(CERTIFICATE_VERIFY, signature))
    else Ok(Message(FINISHED, suite.hmac(ClientFinishedKey(suite, p, msgs), Transcript(msgs))))
  }

  function CertificateMessage(p: Party): Result<Message, Error> {
    if p.credential.None? then Err(NoCredential) else Ok(Message(CERTIFICATE, p.credential.value.certPem))
  }

  function Fail(s: Session, e: Error): Session {
    s.(status := Failed(e))
  }

  function Append(s: Session, m: Message): Session {
    s.(msgs := s.msgs + [m])
  }

  function Send(suite: Suite, p: Party, s: Session, signature: bytes, written: bool): Session
    requires Laws(suite) && Sends(p, s.msgs)
  {
    match Outgoing(suite, p, s.msgs, signature)
    case Err(e) => Fail(s, e)
    case Ok(m) =>
      if !written then Fail(s, WriteFailed)
      else
        var s' := Append(s, m);
        if !p.isServer && m.msgType == FINISHED then s'.(status := Done) else s'
  }

  // Incoming messages -----------------------------------------------------------------

  /** The type each side insists on next. */
  function Expected(p: Party, msgs: seq<Message>): byte {
    if p.isServer then
      if |msgs| == 0 then CLIENT_HELLO
      else if Mutual(p, msgs) && |msgs| == 6 then CERTIFICATE
      else if Mutual(p, msgs) && |msgs| == 7 then CERTIFICATE_VERIFY
      else FINISHED
    else
      match |msgs|
      case 1 => SERVER_HELLO
      case 2 => ENCRYPTED_EXTENSIONS
      case 3 => CERTIFICATE
      case 4 => CERTIFICATE_VERIFY
      case _ => FINISHED
  }

  function PeerFinished(suite: Suite, p: Party, msgs: seq<Message>): bytes {
    suite.hmac(if p.isServer then ClientFinishedKey(suite, p, msgs) else ServerFinishedKey(suite, p, msgs),
               Transcript(msgs))
  }

  /** The readers refuse anything longer than their buffer limit. */
  predicate Readable(m: Message) {
    |Encode(m)| <= BUFFER_LIMIT
  }

  function Receive(suite: Suite, p: Party, s: Session, m: Message, verified: bool, trailing: bool): Session {
    if p.isServer && p.credential.None? then Fail(s, NoCredential)
    else if !Readable(m) then Fail(s, ReadFailed)
    else if m.msgType != Expected(p, s.msgs) then Fail(s, WrongType)
    else
      var s' := Append(s, m);
      if m.msgType == CLIENT_HELLO || m.msgType == SERVER_HELLO then
        if |m.body| < SHARE_END then Fail(s, TooShort)
        else if PeerPoint(suite, m).None? then Fail(s, BadShare)
        else if m.msgType == SERVER_HELLO && Secret(suite, p, s'.msgs).None? then Fail(s', NoSharedSecret)
        else s'
      else if m.msgType == ENCRYPTED_EXTENSIONS then
        if p.verifyMutual && !Mutual(p, s'.msgs) then Fail(s', MutualNotConfirmed)
        else if Mutual(p, s'.msgs) && !p.verifyMutual && !p.hasProvider && !p.hasPem then Fail(s', MutualRequired)
        else s'
      else if m.msgType == CERTIFICATE then
        var key := p.attest(m.body);
        if key.None? then Fail(s', NotAttested) else s'.(peerKey := key)
      else if m.msgType == CERTIFICATE_VERIFY then
        if !verified then Fail(s, BadSignature) else s'
      else
        if m.body != PeerFinished(suite, p, s.msgs) then Fail(s, BadFinished)
        else if trailing then Fail(s', TrailingData)
        else if p.isServer then s'.(status := Done)
        else s'
  }

  function Step(suite: Suite, p: Party, s: Session, input: Input): Session
    requires Laws(suite)
  {
    if s.status != Running then s
    else
      match input
      case Goes(signature, written) => if Sends(p, s.msgs) then Send(suite, p, s, signature, written) else s
      case ReadFails => if Sends(p, s.msgs) then s else Fail(s, ReadFailed)
      case Arrives(m, verified, trailing) =>
        if Sends(p, s.msgs) then s else Receive(suite, p, s, m, verified, trailing)
  }
}
