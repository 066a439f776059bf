/**
 Any number of handshake sessions, clients and servers, on a network that chooses every byte
 they receive. Two idealisations only: a signature under a key that belongs to one of these
 sessions is accepted only for a transcript that was signed with it, and a Finished tag is
 accepted, when the peer's ephemeral share is one of these sessions', only if one of them
 computed it to send. Record encryption is not relied on at all.
 */
module Agreement {
  import opened Bytes
  import opened Codec
  import opened Handshake

  datatype World = World(
    sessions: seq<Session>,
    signed: set<(bytes, bytes)>,     // (public key, transcript)
    tagged: set<(bytes, bytes)>      // (Finished key, transcript)
  )

  ghost predicate Setting(suite: Suite, parties: seq<Party>) {
    && Laws(suite)
    && (forall i :: 0 <= i < |parties| ==> ValidParty(parties[i]))
    && (forall i, j :: 0 <= i < j < |parties| ==>
          suite.publicPoint(parties[i].ephemeral) != suite.publicPoint(parties[j].ephemeral))
  }

  predicate Owns(p: Party, key: bytes) {
    p.credential.Some? && p.credential.value.publicKey == key
  }

  predicate HonestKey(parties: seq<Party>, key: bytes) {
    exists x :: 0 <= x < |parties| && Owns(parties[x], key)
  }

  predicate HonestPoint(suite: Suite, parties: seq<Party>, point: Point) {
    exists x :: 0 <= x < |parties| && suite.publicPoint(parties[x].ephemeral) == point
  }

  /** The ephemeral share this session received belongs to one of the sessions. */
  predicate HonestShare(suite: Suite, parties: seq<Party>, p: Party, msgs: seq<Message>) {
    |msgs| > PeerHello(p)
    && PeerPoint(suite, msgs[PeerHello(p)]).Some?
    && HonestPoint(suite, parties, PeerPoint(suite, msgs[PeerHello(p)]).value)
  }

  function PeerFinishedKey(suite: Suite, p: Party, msgs: seq<Message>): bytes {
    if p.isServer then ClientFinishedKey(suite, p, msgs) else ServerFinishedKey(suite, p, msgs)
  }

  function OwnFinishedKey(suite: Suite, p: Party, msgs: seq<Message>): bytes {
    if p.isServer then ServerFinishedKey(suite, p, msgs) else ClientFinishedKey(suite, p, msgs)
  }

  /** A signature or Finished accepted under an honest key or share was made by its owner. */
  ghost predicate Unforged(suite: Suite, parties: seq<Party>, w: World, p: Party, s: Session, m: Message,
      verified: bool) {
    && (m.msgType == CERTIFICATE_VERIFY && verified && s.peerKey.Some? && HonestKey(parties, s.peerKey.value) ==>
          (s.peerKey.value, Transcript(s.msgs)) in w.signed)
    && (m.msgType == FINISHED && m.body == PeerFinished(suite, p, s.msgs) && HonestShare(suite, parties, p, s.msgs) ==>
          (PeerFinishedKey(suite, p, s.msgs), Transcript(s.msgs)) in w.tagged)
  }

  /** What the network and the primitives can do to session i. */
  ghost predicate Allowed(suite: Suite, parties: seq<Party>, w: World, i: nat, input: Input)
    requires i < |parties| == |w.sessions|
  {
    var p, s := parties[i], w.sessions[i];
    match input
    case ReadFails => true
    case Goes(signature, _) => |signature| < BODY_LIMIT
    case Arrives(m, verified, _) =>
      !Sends(p, s.msgs) ==> Unforged(suite, parties, w, p, s, m, verified)
  }

  /** The type of the message a session is putting out, if it is. */
  function Emits(suite: Suite, p: Party, s: Session, input: Input): Option<byte>
    requires Laws(suite)
  {
    if s.status == Running && input.Goes? && Sends(p, s.msgs) && Outgoing(suite, p, s.msgs, input.signature).Ok?
    then Some(Outgoing(suite, p, s.msgs, input.signature).value.msgType) else None
  }

  function Signs(suite: Suite, p: Party, s: Session, input: Input): set<(bytes, bytes)>
    requires Laws(suite)
  {
    if Emits(suite, p, s, input) == Some(CERTIFICATE_VERIFY) && p.credential.Some?
    then {(p.credential.value.publicKey, Transcript(s.msgs))} else {}
  }

  function Tags(suite: Suite, p: Party, s: Session, input: Input): set<(bytes, bytes)>
    requires Laws(suite)
  {
    if Emits(suite, p, s, input) == Some(FINISHED)
    then {(OwnFinishedKey(suite, p, s.msgs), Transcript(s.msgs))} else {}
  }

  function Next(suite: Suite, parties: seq<Party>, w: World, i: nat, input: Input): World
    requires Laws(suite) && i < |parties| == |w.sessions|
  {
    var p, s := parties[i], w.sessions[i];
    World(w.sessions[i := Step(suite, p, s, input)],
          w.signed + Signs(suite, p, s, input),
          w.tagged + Tags(suite, p, s, input))
  }

  function Start(n: nat): (w: World)
    ensures |w.sessions| == n
  {
    World(seq(n, _ => FRESH), {}, {})
  }

  /** A run: which session moves, and on what input. */
  ghost predicate Legal(suite: Suite, parties: seq<Party>, w: World, run: seq<(nat, Input)>)
    requires Laws(suite) && |parties| == |w.sessions|
    decreases |run|
  {
    run == [] ||
    (run[0].0 < |parties| && Allowed(suite, parties, w, run[0].0, run[0].1)
     && Legal(suite, parties, Next(suite, parties, w, run[0].0, run[0].1), run[1..]))
  }

  function RunAll(suite: Suite, parties: seq<Party>, w: World, run: seq<(nat, Input)>): (w': World)
    requires Laws(suite) && |parties| == |w.sessions|
    ensures |w'.sessions| == |parties|
    decreases |run|
  {
    if run == [] then w
    else if run[0].0 >= |parties| then w
    else RunAll(suite, parties, Next(suite, parties, w, run[0].0, run[0].1), run[1..])
  }

  // What one session keeps --------------------------------------------------------

  function Total(p: Party, msgs: seq<Message>): nat {
    if Mutual(p, msgs) then 9 else 7
  }

  function TypeAt(mutual: bool, k: nat): byte {
    match k
    case 0 => CLIENT_HELLO
    case 1 => SERVER_HELLO
    case 2 => ENCRYPTED_EXTENSIONS
    case 3 => CERTIFICATE
    case 4 => CERTIFICATE_VERIFY
    case 5 => FINISHED
    case 6 => if mutual then CERTIFICATE else FINISHED
    case 7 => CERTIFICATE_VERIFY
    case _ => FINISHED
  }

  /** The key of the Finished message at position k. */
  function KeyAt(suite: Suite, p: Party, msgs: seq<Message>, k: nat): bytes {
    if k == 5 then ServerFinishedKey(suite, p, msgs) else ClientFinishedKey(suite, p, msgs)
  }

  ghost predicate OwnMessages(suite: Suite, p: Party, msgs: seq<Message>)
    requires Laws(suite)
  {
    if p.isServer then
      && (|msgs| >= 1 ==> p.credential.Some? && PeerPoint(suite, msgs[0]).Some?)
      && (|msgs| >= 2 ==> msgs[1] == ServerHello(suite, p))
      && (|msgs| >= 3 ==> msgs[2].body == [if Mutual(p, msgs) then 1 else 0])
      && (|msgs| >= 4 ==> msgs[3].body == p.credential.value.certPem)
    else
      && (|msgs| >= 1 ==> msgs[0] == ClientHello(suite, p))
      && (|msgs| >= 2 ==> PeerPoint(suite, msgs[1]).Some?)
      && (|msgs| >= 7 && Mutual(p, msgs) ==> p.credential.Some? && msgs[6].body == p.credential.value.certPem)
  }

  /** How status and accepted key go with the number of messages. */
  ghost predicate ProgressInv(p: Party, s: Session) {
    && (|s.msgs| >= 3 ==> |s.msgs| <= Total(p, s.msgs))
    && (s.status == Done ==> |s.msgs| == Total(p, s.msgs) && |s.msgs| >= 7)
    && (s.status == Running ==> |s.msgs| < 7 || |s.msgs| < Total(p, s.msgs))
    && (!p.isServer && (|s.msgs| >= 5 || (|s.msgs| == 4 && s.status == Running)) ==>
          s.peerKey.Some? && s.peerKey == p.attest(s.msgs[3].body))
    && (p.isServer && (|s.msgs| >= 8 || (|s.msgs| == 7 && s.status == Running)) ==>
          s.peerKey.Some? && s.peerKey == p.attest(s.msgs[6].body))
  }

  ghost predicate MessagesInv(suite: Suite, p: Party, msgs: seq<Message>)
    requires Laws(suite)
  {
    && ShortBodies(msgs)
    && (forall k :: 0 <= k < |msgs| ==> msgs[k].msgType == TypeAt(Mutual(p, msgs), k))
    && (forall k :: 0 <= k < |msgs| && msgs[k].msgType == FINISHED ==>
          msgs[k].body == suite.hmac(KeyAt(suite, p, msgs, k), Transcript(msgs[..k])))
  }

  ghost predicate SessionInv(suite: Suite, p: Party, s: Session)
    requires Laws(suite)
  {
    MessagesInv(suite, p, s.msgs) && OwnMessages(suite, p, s.msgs) && ProgressInv(p, s)
  }

  /** Hellos fix the keys, and the fields that decide mutual attestation fix that. */
  lemma KeysStable(suite: Suite, p: Party, msgs: seq<Message>, msgs': seq<Message>)
    requires |msgs| >= 2 && |msgs'| >= 2 && msgs[0] == msgs'[0] && msgs[1] == msgs'[1]
    ensures HandshakeStream(suite, p, msgs) == HandshakeStream(suite, p, msgs')
    ensures Secret(suite, p, msgs) == Secret(suite, p, msgs')
  {
  }

  lemma MutualStable(p: Party, msgs: seq<Message>, msgs': seq<Message>)
    requires msgs <= msgs' && (if p.isServer then |msgs| >= 1 else |msgs| >= 3)
    ensures Mutual(p, msgs) == Mutual(p, msgs')
  {
  }

  lemma StepGrows(suite: Suite, p: Party, s: Session, input: Input)
    requires Laws(suite)
    ensures var s' := Step(suite, p, s, input);
            s'.msgs == s.msgs || (s.status == Running && |s'.msgs| == |s.msgs| + 1 && s'.msgs[..|s.msgs|] == s.msgs)
  {
  }

  lemma AppendKeepsMessages(suite: Suite, p: Party, msgs: seq<Message>, m: Message)
    requires Laws(suite) && MessagesInv(suite, p, msgs) && |m.body| < BODY_LIMIT
    requires m.msgType == TypeAt(Mutual(p, msgs + [m]), |msgs|)
    requires m.msgType == FINISHED ==> m.body == suite.hmac(KeyAt(suite, p, msgs, |msgs|), Transcript(msgs))
    ensures MessagesInv(suite, p, msgs + [m])
  {
    hide Transcript;
    hide SharedSecret;
    hide Secret;
    hide Laws;
    hide PeerPoint;
    hide HandshakeStream;
    var msgs', n := msgs + [m], |msgs|;
    assert msgs'[..n] == msgs;
    forall k | 0 <= k < |msgs'|
      ensures msgs'[k].msgType == TypeAt(Mutual(p, msgs'), k)
      ensures msgs'[k].msgType == FINISHED ==>
                msgs'[k].body == suite.hmac(KeyAt(suite, p, msgs', k), Transcript(msgs'[..k]))
    {
      if n >= 3 {
        MutualStable(p, msgs, msgs');
      }
      if n >= 2 {
        KeysStable(suite, p, msgs, msgs');
      }
      if k < n {
        assert msgs'[..k] == msgs[..k] && msgs'[k] == msgs[k];
      }
    }
  }

  lemma OutgoingFits(suite: Suite, p: Party, s: Session, signature: bytes)
    requires Laws(suite) && ValidParty(p) && SessionInv(suite, p, s) && s.status == Running
    requires Sends(p, s.msgs) && |signature| < BODY_LIMIT && Outgoing(suite, p, s.msgs, signature).Ok?
    ensures var m := Outgoing(suite, p, s.msgs, signature).value;
            && |m.body| < BODY_LIMIT
            && m.msgType == TypeAt(Mutual(p, s.msgs + [m]), |s.msgs|)
            && (m.msgType == FINISHED ==> m.body == suite.hmac(KeyAt(suite, p, s.msgs, |s.msgs|), Transcript(s.msgs)))
            && OwnMessages(suite, p, s.msgs + [m])
  {
    hide MessagesInv;
    var m := Outgoing(suite, p, s.msgs, signature).value;
    if |s.msgs| >= 3 {
      MutualStable(p, s.msgs, s.msgs + [m]);
    }
    if p.isServer {
      MutualStable(p, s.msgs, s.msgs + [m]);
    }
  }

  lemma SendKeeps(suite: Suite, p: Party, s: Session, signature: bytes, written: bool)
    requires Laws(suite) && ValidParty(p) && SessionInv(suite, p, s) && s.status == Running
    requires Sends(p, s.msgs) && |signature| < BODY_LIMIT
    ensures SessionInv(suite, p, Send(suite, p, s, signature, written))
  {
    if Outgoing(suite, p, s.msgs, signature).Ok? {
      OutgoingFits(suite, p, s, signature);
      var m := Outgoing(suite, p, s.msgs, signature).value;
      AppendKeepsMessages(suite, p, s.msgs, m);
      if |s.msgs| >= 3 {
        MutualStable(p, s.msgs, s.msgs + [m]);
      }
      hide MessagesInv;
      hide OwnMessages;
    }
  }

  lemma IncomingFits(suite: Suite, p: Party, s: Session, m: Message)
    requires Laws(suite) && SessionInv(suite, p, s) && s.status == Running
    requires !Sends(p, s.msgs) && m.msgType == Expected(p, s.msgs)
    requires p.isServer ==> p.credential.Some?
    requires m.msgType == CLIENT_HELLO || m.msgType == SERVER_HELLO ==> PeerPoint(suite, m).Some?
    ensures m.msgType == TypeAt(Mutual(p, s.msgs + [m]), |s.msgs|)
    ensures m.msgType == FINISHED && m.body == PeerFinished(suite, p, s.msgs) ==>
              m.body == suite.hmac(KeyAt(suite, p, s.msgs, |s.msgs|), Transcript(s.msgs))
    ensures OwnMessages(suite, p, s.msgs + [m])
  {
    hide MessagesInv;
    hide Laws;
    if |s.msgs| >= 3 {
      MutualStable(p, s.msgs, s.msgs + [m]);
    }
  }

  lemma ReceiveAppends(suite: Suite, p: Party, s: Session, m: Message, verified: bool, trailing: bool)
    ensures var s' := Receive(suite, p, s, m, verified, trailing);
            && s'.msgs == s.msgs + (if s'.msgs == s.msgs then [] else [m])
            && (s'.msgs != s.msgs ==>
                  && (p.isServer ==> p.credential.Some?)
                  && m.msgType == Expected(p, s.msgs)
                  && |m.body| < BODY_LIMIT
                  && (m.msgType == CLIENT_HELLO || m.msgType == SERVER_HELLO ==> PeerPoint(suite, m).Some?)
                  && (m.msgType == FINISHED ==> m.body == PeerFinished(suite, p, s.msgs)))
  {
    hide PeerPoint;
    hide Secret;
    hide Expected;
    hide PeerFinished;
    hide Mutual;
  }

  /** Progress, once the transcript has grown by the message that was expected. */
  lemma ReceiveProgress(suite: Suite, p: Party, s: Session, m: Message, verified: bool, trailing: bool)
    requires ProgressInv(p, s) && s.status == Running && !Sends(p, s.msgs)
    requires m.msgType == Expected(p, s.msgs)
    ensures ProgressInv(p, Receive(suite, p, s, m, verified, trailing))
  {
    if |s.msgs| >= 3 {
      MutualStable(p, s.msgs, s.msgs + [m]);
    }
    hide PeerPoint;
    hide Secret;
    hide PeerFinished;
  }

  lemma ReceiveKeeps(suite: Suite, p: Party, s: Session, m: Message, verified: bool, trailing: bool)
    requires Laws(suite) && SessionInv(suite, p, s) && s.status == Running
    requires !Sends(p, s.msgs)
    ensures SessionInv(suite, p, Receive(suite, p, s, m, verified, trailing))
  {
    hide MessagesInv;
    hide OwnMessages;
    hide PeerPoint;
    hide Secret;
    hide PeerFinished;
    var s' := Receive(suite, p, s, m, verified, trailing);
    ReceiveAppends(suite, p, s, m, verified, trailing);
    if s'.msgs != s.msgs {
      IncomingFits(suite, p, s, m);
      AppendKeepsMessages(suite, p, s.msgs, m);
      ReceiveProgress(suite, p, s, m, verified, trailing);
    }
    if s'.msgs == s.msgs {
      assert s'.status.Failed? && s'.peerKey == s.peerKey;
    }
  }

  lemma StepKeepsSession(suite: Suite, p: Party, s: Session, input: Input)
    requires Laws(suite) && ValidParty(p) && SessionInv(suite, p, s)
    requires input.Goes? ==> |input.signature| < BODY_LIMIT
    ensures SessionInv(suite, p, Step(suite, p, s, input))
  {
    hide MessagesInv;
    hide OwnMessages;
    hide Send;
    hide Receive;
    if s.status == Running {
      match input
      case Goes(signature, written) =>
        if Sends(p, s.msgs) {
          SendKeeps(suite, p, s, signature, written);
        }
      case ReadFails =>
      case Arrives(m, verified, trailing) =>
        if !Sends(p, s.msgs) {
          ReceiveKeeps(suite, p, s, m, verified, trailing);
        }
    }
  }

  // What the whole world keeps -----------------------------------------------------

  /** How many messages a session's transcript holds when it signs. */
  function SignPoint(p: Party): nat {
    if p.isServer then 4 else 7
  }

  predicate SignedBy(p: Party, msgs: seq<Message>, key: bytes, transcript: bytes) {
    Owns(p, key) && |msgs| >= SignPoint(p) && transcript == Transcript(msgs[..SignPoint(p)])
  }

  /** And when it computes its own Finished. */
  function TagPoint(p: Party, msgs: seq<Message>): nat {
    if p.isServer then 5 else Total(p, msgs) - 1
  }

  predicate TaggedBy(suite: Suite, p: Party, msgs: seq<Message>, key: bytes, transcript: bytes) {
    |msgs| >= 5 && |msgs| >= TagPoint(p, msgs) && key == OwnFinishedKey(suite, p, msgs)
    && transcript == Transcript(msgs[..TagPoint(p, msgs)])
  }

  ghost predicate AllSigned(parties: seq<Party>, w: World) {
    |w.sessions| == |parties| &&
    forall e :: e in w.signed ==> exists x :: 0 <= x < |parties| && SignedBy(parties[x], w.sessions[x].msgs, e.0, e.1)
  }

  ghost predicate AllTagged(suite: Suite, parties: seq<Party>, w: World) {
    |w.sessions| == |parties| &&
    forall e :: e in w.tagged ==>
        exists x :: 0 <= x < |parties| && TaggedBy(suite, parties[x], w.sessions[x].msgs, e.0, e.1)
  }

  /** The signature a session accepted under an honest key was made. */
  ghost predicate SignatureAccepted(parties: seq<Party>, p: Party, s: Session, signed: set<(bytes, bytes)>) {
    var n := if p.isServer then 7 else 4;
    |s.msgs| > n && s.peerKey.Some? && HonestKey(parties, s.peerKey.value) ==>
      (s.peerKey.value, Transcript(s.msgs[..n])) in signed
  }

  /** The Finished a session accepted, with an honest share behind it, was computed to be sent. */
  ghost predicate FinishedAccepted(suite: Suite, parties: seq<Party>, p: Party, s: Session,
      tagged: set<(bytes, bytes)>) {
    var n := if p.isServer then Total(p, s.msgs) - 1 else 5;
    |s.msgs| > 5 && |s.msgs| > n && HonestShare(suite, parties, p, s.msgs) ==>
      (PeerFinishedKey(suite, p, s.msgs), Transcript(s.msgs[..n])) in tagged
  }

  ghost predicate WorldInv(suite: Suite, parties: seq<Party>, w: World)
    requires Laws(suite)
  {
    && |w.sessions| == |parties|
    && (forall i :: 0 <= i < |parties| ==> SessionInv(suite, parties[i], w.sessions[i]))
    && (forall i :: 0 <= i < |parties| ==> SignatureAccepted(parties, parties[i], w.sessions[i], w.signed))
    && (forall i :: 0 <= i < |parties| ==> FinishedAccepted(suite, parties, parties[i], w.sessions[i], w.tagged))
    && AllSigned(parties, w)
    && AllTagged(suite, parties, w)
  }

  lemma SignedStays(p: Party, msgs: seq<Message>, msgs': seq<Message>, key: bytes, transcript: bytes)
    requires msgs <= msgs' && SignedBy(p, msgs, key, transcript)
    ensures SignedBy(p, msgs', key, transcript)
  {
    assert msgs'[..SignPoint(p)] == msgs[..SignPoint(p)];
  }

  lemma TaggedStays(suite: Suite, p: Party, msgs: seq<Message>, msgs': seq<Message>, key: bytes, transcript: bytes)
    requires msgs <= msgs' && TaggedBy(suite, p, msgs, key, transcript)
    ensures TaggedBy(suite, p, msgs', key, transcript)
  {
    MutualStable(p, msgs, msgs');
    KeysStable(suite, p, msgs, msgs');
    assert msgs'[..TagPoint(p, msgs)] == msgs[..TagPoint(p, msgs)];
  }

  lemma AllSignedStep(suite: Suite, parties: seq<Party>, w: World, i: nat, input: Input)
    requires Laws(suite) && i < |parties| == |w.sessions| && AllSigned(parties, w)
    requires SessionInv(suite, parties[i], w.sessions[i])
    ensures AllSigned(parties, Next(suite, parties, w, i, input))
  {
    var p, s := parties[i], w.sessions[i];
    var w' := Next(suite, parties, w, i, input);
    StepGrows(suite, p, s, input);
    var s' := Step(suite, p, s, input);
    hide Step;
    hide MessagesInv;
    hide OwnMessages;
    forall e | e in w'.signed
      ensures exists x :: 0 <= x < |parties| && SignedBy(parties[x], w'.sessions[x].msgs, e.0, e.1)
    {
      if e in w.signed {
        var x :| 0 <= x < |parties| && SignedBy(parties[x], w.sessions[x].msgs, e.0, e.1);
        SignedStays(parties[x], w.sessions[x].msgs, w'.sessions[x].msgs, e.0, e.1);
      } else {
        assert s.msgs[..SignPoint(p)] == s.msgs;
        SignedStays(p, s.msgs, s'.msgs, e.0, e.1);
        assert SignedBy(parties[i], w'.sessions[i].msgs, e.0, e.1);
      }
    }
  }

  lemma AllTaggedStep(suite: Suite, parties: seq<Party>, w: World, i: nat, input: Input)
    requires Laws(suite) && i < |parties| == |w.sessions| && AllTagged(suite, parties, w)
    requires SessionInv(suite, parties[i], w.sessions[i])
    ensures AllTagged(suite, parties, Next(suite, parties, w, i, input))
  {
    hide Step;
    hide MessagesInv;
    hide OwnMessages;
    var p, s := parties[i], w.sessions[i];
    var w' := Next(suite, parties, w, i, input);
    StepGrows(suite, p, s, input);
    var s' := Step(suite, p, s, input);
    forall e | e in w'.tagged
      ensures exists x :: 0 <= x < |parties| && TaggedBy(suite, parties[x], w'.sessions[x].msgs, e.0, e.1)
    {
      if e in w.tagged {
        var x :| 0 <= x < |parties| && TaggedBy(suite, parties[x], w.sessions[x].msgs, e.0, e.1);
        TaggedStays(suite, parties[x], w.sessions[x].msgs, w'.sessions[x].msgs, e.0, e.1);
      } else {
        assert TagPoint(p, s.msgs) == |s.msgs|;
        assert s.msgs[..|s.msgs|] == s.msgs;
        TaggedStays(suite, p, s.msgs, s'.msgs, e.0, e.1);
        assert TaggedBy(suite, parties[i], w'.sessions[i].msgs, e.0, e.1);
      }
    }
  }

  /** Taking in a CertificateVerify leaves the accepted key as it was and means a signature by it. */
  lemma AcceptsSignature(suite: Suite, parties: seq<Party>, w: World, i: nat, input: Input)
    requires Laws(suite) && i < |parties| == |w.sessions| && Allowed(suite, parties, w, i, input)
    requires SessionInv(suite, parties[i], w.sessions[i])
    requires |w.sessions[i].msgs| == if parties[i].isServer then 7 else 4
    requires |Step(suite, parties[i], w.sessions[i], input).msgs| > |w.sessions[i].msgs|
    ensures var s := w.sessions[i];
            && Step(suite, parties[i], s, input).peerKey == s.peerKey
            && (s.peerKey.Some? && HonestKey(parties, s.peerKey.value) ==>
               (s.peerKey.value, Transcript(s.msgs)) in w.signed)
  {
    hide MessagesInv;
    hide OwnMessages;
  }

  lemma SignatureAcceptedStep(suite: Suite, parties: seq<Party>, w: World, i: nat, input: Input)
    requires Laws(suite) && i < |parties| == |w.sessions| && Allowed(suite, parties, w, i, input)
    requires SessionInv(suite, parties[i], w.sessions[i])
    requires SignatureAccepted(parties, parties[i], w.sessions[i], w.signed)
    ensures var w' := Next(suite, parties, w, i, input);
            SignatureAccepted(parties, parties[i], w'.sessions[i], w'.signed)
  {
    hide SessionInv;
    hide Step;
    hide Signs;
    hide Laws;
    var p, s := parties[i], w.sessions[i];
    var s' := Step(suite, p, s, input);
    var n := if p.isServer then 7 else 4;
    StepGrows(suite, p, s, input);
    if |s.msgs| > n {
      KeepsKey(suite, p, s, input);
      assert s'.msgs[..n] == s.msgs[..n];
    } else if |s'.msgs| > n {
      AcceptsSignature(suite, parties, w, i, input);
      assert s'.msgs[..n] == s.msgs;
    }
  }

  /** Once its CertificateVerify is in, a session's accepted key no longer changes. */
  lemma KeepsKey(suite: Suite, p: Party, s: Session, input: Input)
    requires Laws(suite) && SessionInv(suite, p, s)
    requires |s.msgs| > if p.isServer then 7 else 4
    ensures Step(suite, p, s, input).peerKey == s.peerKey
  {
    hide MessagesInv;
    hide OwnMessages;
  }

  lemma FinishedAcceptedStep(suite: Suite, parties: seq<Party>, w: World, i: nat, input: Input)
    requires Laws(suite) && i < |parties| == |w.sessions| && Allowed(suite, parties, w, i, input)
    requires SessionInv(suite, parties[i], w.sessions[i])
    requires FinishedAccepted(suite, parties, parties[i], w.sessions[i], w.tagged)
    ensures var w' := Next(suite, parties, w, i, input);
            FinishedAccepted(suite, parties, parties[i], w'.sessions[i], w'.tagged)
  {
    hide MessagesInv;
    hide OwnMessages;
    hide SessionInv;
    hide Tags;
    hide Transcript;
    hide Laws;
    hide SharedSecret;
    hide Padded32;
    hide ClientHello;
    hide ServerHello;
    hide PeerPoint;
    var p, s := parties[i], w.sessions[i];
    var s' := Step(suite, p, s, input);
    StepGrows(suite, p, s, input);
    if |s'.msgs| > 5 && |s.msgs| >= 5 {
      MutualStable(p, s.msgs, s'.msgs);
      KeysStable(suite, p, s.msgs, s'.msgs);
      var n := if p.isServer then Total(p, s.msgs) - 1 else 5;
      if |s.msgs| > n {
        assert s'.msgs[..n] == s.msgs[..n];
      } else if |s'.msgs| > n {
        assert s'.msgs[..n] == s.msgs;
      }
    }
  }

  lemma StepKeepsWorld(suite: Suite, parties: seq<Party>, w: World, i: nat, input: Input)
    requires Setting(suite, parties) && WorldInv(suite, parties, w)
    requires i < |parties| && Allowed(suite, parties, w, i, input)
    ensures WorldInv(suite, parties, Next(suite, parties, w, i, input))
  {
    hide SessionInv;
    hide Step;
    hide Signs;
    hide Tags;
    hide AllSigned;
    hide AllTagged;
    hide Laws;
    hide ValidParty;
    StepKeepsSession(suite, parties[i], w.sessions[i], input);
    AllSignedStep(suite, parties, w, i, input);
    AllTaggedStep(suite, parties, w, i, input);
    SignatureAcceptedStep(suite, parties, w, i, input);
    FinishedAcceptedStep(suite, parties, w, i, input);
    var w' := Next(suite, parties, w, i, input);
    forall j | 0 <= j < |parties|
      ensures SessionInv(suite, parties[j], w'.sessions[j])
      ensures SignatureAccepted(parties, parties[j], w'.sessions[j], w'.signed)
      ensures FinishedAccepted(suite, parties, parties[j], w'.sessions[j], w'.tagged)
    {
      if j != i {
        assert w'.sessions[j] == w.sessions[j];
      }
    }
  }

  lemma StartKeeps(suite: Suite, parties: seq<Party>)
    requires Laws(suite)
    ensures WorldInv(suite, parties, Start(|parties|))
  {
  }

  lemma {:induction false} RunKeeps(suite: Suite, parties: seq<Party>, w: World, run: seq<(nat, Input)>)
    requires Setting(suite, parties) && WorldInv(suite, parties, w) && Legal(suite, parties, w, run)
    ensures WorldInv(suite, parties, RunAll(suite, parties, w, run))
    decreases |run|
  {
    assert |w.sessions| == |parties|;
    hide WorldInv;
    if run != [] {
      StepKeepsWorld(suite, parties, w, run[0].0, run[0].1);
      hide Next;
      hide Allowed;
      hide Setting;
      RunKeeps(suite, parties, Next(suite, parties, w, run[0].0, run[0].1), run[1..]);
    }
  }

  lemma Reached(suite: Suite, parties: seq<Party>, run: seq<(nat, Input)>)
    requires Setting(suite, parties) && Legal(suite, parties, Start(|parties|), run)
    ensures Laws(suite)
    ensures var w := RunAll(suite, parties, Start(|parties|), run);
            |w.sessions| == |parties| && WorldInv(suite, parties, w)
  {
    hide RunAll;
    hide Legal;
    hide Laws;
    StartKeeps(suite, parties);
    RunKeeps(suite, parties, Start(|parties|), run);
  }

  // Agreement ----------------------------------------------------------------------

  /** Equal transcripts at given points mean equal messages up to there. */
  lemma SamePrefix(suite: Suite, p: Party, s: Session, n: nat, q: Party, t: Session, m: nat)
    requires Laws(suite) && SessionInv(suite, p, s) && SessionInv(suite, q, t)
    requires n <= |s.msgs| && m <= |t.msgs| && Transcript(s.msgs[..n]) == Transcript(t.msgs[..m])
    ensures n == m && s.msgs[..n] == t.msgs[..m]
  {
    TranscriptDecodes(s.msgs[..n], t.msgs[..m]);
  }

  lemma SessionOf(suite: Suite, parties: seq<Party>, w: World, x: nat)
    requires Setting(suite, parties) && WorldInv(suite, parties, w) && x < |parties|
    ensures Laws(suite) && ValidParty(parties[x]) && |w.sessions| == |parties|
    ensures SessionInv(suite, parties[x], w.sessions[x])
  {
    hide SessionInv;
  }

  lemma OwnHello(suite: Suite, p: Party, s: Session)
    requires Laws(suite) && SessionInv(suite, p, s) && |s.msgs| >= 2
    ensures if p.isServer then s.msgs[1] == ServerHello(suite, p) else s.msgs[0] == ClientHello(suite, p)
  {
    hide MessagesInv;
  }

  /** A message that this server sent carries an honest share. */
  lemma ShareIsHonest(suite: Suite, parties: seq<Party>, p: Party, msgs: seq<Message>, x: nat)
    requires Setting(suite, parties) && x < |parties| && !p.isServer
    requires |msgs| >= 2 && msgs[1] == ServerHello(suite, parties[x])
    ensures HonestShare(suite, parties, p, msgs)
  {
    hide PeerPoint;
    ShareOfHello(suite, parties[x]);
    assert HonestPoint(suite, parties, suite.publicPoint(parties[x].ephemeral));
  }

  lemma SameAt<T>(s: seq<T>, t: seq<T>, n: nat, k: nat)
    requires k < n <= |s| && n <= |t| && s[..n] == t[..n]
    ensures s[k] == t[k]
  {
    assert s[..n][k] == t[..n][k];
  }

  /** Whoever signed a transcript that a client verified was a server with that very transcript. */
  lemma SignerIsServer(suite: Suite, parties: seq<Party>, w: World, i: nat) returns (x: nat)
    requires Setting(suite, parties) && WorldInv(suite, parties, w)
    requires i < |parties| && !parties[i].isServer && |w.sessions[i].msgs| > 4
    requires HonestKey(parties, w.sessions[i].peerKey.value)
    ensures x < |parties| && parties[x].isServer && Owns(parties[x], w.sessions[i].peerKey.value)
    ensures |w.sessions[x].msgs| >= 4 && w.sessions[x].msgs[..4] == w.sessions[i].msgs[..4]
  {
    var s := w.sessions[i];
    assert SignatureAccepted(parties, parties[i], s, w.signed);
    var e := (s.peerKey.value, Transcript(s.msgs[..4]));
    assert SessionInv(suite, parties[i], s);
    x :| 0 <= x < |parties| && SignedBy(parties[x], w.sessions[x].msgs, e.0, e.1);
    assert SessionInv(suite, parties[x], w.sessions[x]);
    hide SessionInv;
    hide WorldInv;
    hide Transcript;
    SamePrefix(suite, parties[i], s, 4, parties[x], w.sessions[x], SignPoint(parties[x]));
  }

  /** Each session's own hello carries its own share, and shares are never repeated. */
  lemma HelloOwner(suite: Suite, parties: seq<Party>, x: nat, y: nat)
    requires Setting(suite, parties) && x < |parties| && y < |parties|
    requires if parties[x].isServer then ServerHello(suite, parties[x]) == ServerHello(suite, parties[y])
             else ClientHello(suite, parties[x]) == ClientHello(suite, parties[y])
    ensures x == y
  {
    ShareOfHello(suite, parties[x]);
    ShareOfHello(suite, parties[y]);
  }

  lemma ShareOfHello(suite: Suite, p: Party)
    requires Laws(suite) && ValidParty(p)
    ensures PeerPoint(suite, ClientHello(suite, p)) == Some(suite.publicPoint(p.ephemeral))
    ensures PeerPoint(suite, ServerHello(suite, p)) == Some(suite.publicPoint(p.ephemeral))
    ensures |ClientHello(suite, p).body| == SHARE_END + 1 && |ServerHello(suite, p).body| == SHARE_END
  {
    var point := suite.publicPoint(p.ephemeral);
    assert suite.onCurve(point);
    assert Coordinate(point.x) && Coordinate(point.y);
    var raw := EncodePoint(point);
    DecodeOfEncodePoint(point, suite.onCurve);
    assert Share(ClientHello(suite, p).body) == raw;
    assert Share(ServerHello(suite, p).body) == raw;
  }

  /** A client and a server with the same two hellos, each its own, hold the same keys. */
  lemma SameSecret(suite: Suite, c: Party, s: Party, msgs: seq<Message>, msgs': seq<Message>)
    requires Laws(suite) && ValidParty(c) && ValidParty(s) && !c.isServer && s.isServer
    requires |msgs| >= 2 && |msgs'| >= 2 && msgs[..2] == msgs'[..2]
    requires msgs[0] == ClientHello(suite, c) && msgs[1] == ServerHello(suite, s)
    ensures Secret(suite, c, msgs) == Secret(suite, s, msgs')
    ensures HandshakeStream(suite, c, msgs) == HandshakeStream(suite, s, msgs')
  {
    assert msgs'[0] == msgs'[..2][0] == msgs[0] && msgs'[1] == msgs'[..2][1] == msgs[1];
    ShareOfHello(suite, c);
    ShareOfHello(suite, s);
    hide ClientHello;
    hide ServerHello;
    assert suite.shared(c.ephemeral, suite.publicPoint(s.ephemeral))
        == suite.shared(s.ephemeral, suite.publicPoint(c.ephemeral));
  }

  /**
   Who computed the Finished a session accepted from an honest share: a session of the other
   role with that very transcript.
   */
  lemma FinishedSender(suite: Suite, parties: seq<Party>, w: World, i: nat) returns (y: nat)
    requires Setting(suite, parties) && WorldInv(suite, parties, w) && i < |parties|
    requires var p, s := parties[i], w.sessions[i];
             |s.msgs| > 5 && (p.isServer ==> |s.msgs| == Total(p, s.msgs)) && HonestShare(suite, parties, p, s.msgs)
    ensures var p, s := parties[i], w.sessions[i];
            var n := if p.isServer then Total(p, s.msgs) - 1 else 5;
            && y < |parties| && parties[y].isServer != p.isServer
            && n <= |w.sessions[y].msgs| && w.sessions[y].msgs[..n] == s.msgs[..n]
            && n == TagPoint(parties[y], w.sessions[y].msgs)
  {
    hide SessionInv;
    hide Transcript;
    var p, s := parties[i], w.sessions[i];
    var n := if p.isServer then Total(p, s.msgs) - 1 else 5;
    assert FinishedAccepted(suite, parties, p, s, w.tagged);
    var e := (PeerFinishedKey(suite, p, s.msgs), Transcript(s.msgs[..n]));
    assert SessionInv(suite, p, s);
    y :| 0 <= y < |parties| && TaggedBy(suite, parties[y], w.sessions[y].msgs, e.0, e.1);
    assert SessionInv(suite, parties[y], w.sessions[y]);
    SamePrefix(suite, p, s, n, parties[y], w.sessions[y], TagPoint(parties[y], w.sessions[y].msgs));
  }

  /**
   A server that completed on an honest client share shares its whole transcript, up to the
   client's Finished, with one client session, the owner of that share.
   */
  lemma ServerFindsClient(suite: Suite, parties: seq<Party>, w: World, j: nat) returns (y: nat)
    requires Setting(suite, parties) && WorldInv(suite, parties, w) && j < |parties| && parties[j].isServer
    requires w.sessions[j].status == Done && HonestShare(suite, parties, parties[j], w.sessions[j].msgs)
    ensures var n := |w.sessions[j].msgs| - 1;
            && y < |parties| && !parties[y].isServer
            && w.sessions[j].msgs[0] == ClientHello(suite, parties[y])
            && n <= |w.sessions[y].msgs| && w.sessions[y].msgs[..n] == w.sessions[j].msgs[..n]
            && n == Total(parties[y], w.sessions[y].msgs) - 1
            && (|w.sessions[y].msgs| > n ==> w.sessions[y].msgs == w.sessions[j].msgs)
  {
    var s := w.sessions[j];
    assert SessionInv(suite, parties[j], s);
    y := FinishedSender(suite, parties, w, j);
    var c := w.sessions[y];
    assert SessionInv(suite, parties[y], c);
    var n := |s.msgs| - 1;
    assert c.msgs[0] == c.msgs[..n][0] == s.msgs[..n][0] == s.msgs[0];
    if |c.msgs| > n {
      SameEnding(suite, parties[y], c, parties[j], s, n);
    }
  }

  /** A complete session ends in the client's Finished. */
  lemma LastMessage(suite: Suite, p: Party, s: Session, n: nat)
    requires Laws(suite) && SessionInv(suite, p, s) && |s.msgs| == n + 1 && n == Total(p, s.msgs) - 1
    ensures s.msgs == s.msgs[..n]
            + [Message(FINISHED, suite.hmac(ClientFinishedKey(suite, p, s.msgs), Transcript(s.msgs[..n])))]
  {
    hide OwnMessages;
    hide ClientFinishedKey;
    hide ServerFinishedKey;
    hide Transcript;
    hide Mutual;
    assert s.msgs == s.msgs[..n] + [s.msgs[n]];
  }

  lemma AtMostTotal(suite: Suite, p: Party, s: Session)
    requires Laws(suite) && SessionInv(suite, p, s) && |s.msgs| >= 3
    ensures |s.msgs| <= Total(p, s.msgs)
  {
    hide OwnMessages;
    hide MessagesInv;
    hide Total;
  }

  /** With the same messages before it and the same keys, the client's Finished is the one the server accepted. */
  lemma SameEnding(suite: Suite, c: Party, cs: Session, p: Party, ss: Session, n: nat)
    requires Laws(suite) && ValidParty(c) && ValidParty(p) && !c.isServer && p.isServer
    requires SessionInv(suite, c, cs) && SessionInv(suite, p, ss) && n >= 6
    requires |cs.msgs| > n && |ss.msgs| == n + 1 && cs.msgs[..n] == ss.msgs[..n]
    requires n == Total(c, cs.msgs) - 1 == Total(p, ss.msgs) - 1
    ensures cs.msgs == ss.msgs
  {
    hide SessionInv;
    hide Transcript;
    hide Total;
    hide ClientHello;
    hide ServerHello;
    hide HandshakeStream;
    hide Laws;
    AtMostTotal(suite, c, cs);
    LastMessage(suite, c, cs, n);
    LastMessage(suite, p, ss, n);
    SameAt(cs.msgs, ss.msgs, n, 0);
    SameAt(cs.msgs, ss.msgs, n, 1);
    OwnHello(suite, c, cs);
    OwnHello(suite, p, ss);
    assert cs.msgs[..2] == ss.msgs[..2];
    SameSecret(suite, c, p, cs.msgs, ss.msgs);
  }

  /** Session x is a server and this is the ServerHello it sent. */
  predicate SentHello(parties: seq<Party>, w: World, x: nat, hello: Message)
    requires x < |parties| == |w.sessions|
  {
    parties[x].isServer && |w.sessions[x].msgs| > 1 && w.sessions[x].msgs[1] == hello
  }

  /** The application ciphers mirror each other. */
  predicate Mirrored(a: Ciphers, b: Ciphers) {
    a.outgoing == b.incoming && a.incoming == b.outgoing
    && a.outgoing.sequence == 0 && a.incoming.sequence == 0
  }

  /**
   Agreement, seen from a client. In every run, a client that has verified the server's
   signature under a key of one of these sessions shares its first five messages with exactly
   one server session, the owner of that key; and if client and server both complete, their
   transcripts are byte-equal, their messages are equal one by one, the mutual-attestation
   flag included, and each one's outgoing cipher is the other's incoming one, at sequence 0.
   */
  lemma ClientAgreement(suite: Suite, parties: seq<Party>, run: seq<(nat, Input)>, i: nat) returns (x: nat)
    requires Setting(suite, parties) && Legal(suite, parties, Start(|parties|), run)
    requires i < |parties| && !parties[i].isServer
    requires var s := RunAll(suite, parties, Start(|parties|), run).sessions[i];
             |s.msgs| > 5 && s.peerKey.Some? && HonestKey(parties, s.peerKey.value)
    ensures x < |parties| && parties[x].isServer
    ensures var w := RunAll(suite, parties, Start(|parties|), run);
            && Owns(parties[x], w.sessions[i].peerKey.value)
            && |w.sessions[x].msgs| >= 5 && w.sessions[i].msgs[..5] == w.sessions[x].msgs[..5]
            && (forall x' :: 0 <= x' < |parties| && SentHello(parties, w, x', w.sessions[i].msgs[1]) ==> x' == x)
            && (w.sessions[i].status == Done && w.sessions[x].status == Done ==>
                  && w.sessions[i].msgs == w.sessions[x].msgs
                  && Transcript(w.sessions[i].msgs) == Transcript(w.sessions[x].msgs)
                  && Mutual(parties[i], w.sessions[i].msgs) == Mutual(parties[x], w.sessions[x].msgs)
                  && Mirrored(TrafficCiphers(suite, parties[i], w.sessions[i].msgs),
                              TrafficCiphers(suite, parties[x], w.sessions[x].msgs)))
  {
    hide *;
    Reached(suite, parties, run);
    var w := RunAll(suite, parties, Start(|parties|), run);
    x := ClientFindsServer(suite, parties, w, i);
    if w.sessions[i].status == Done && w.sessions[x].status == Done {
      BothDone(suite, parties, w, i, x);
    }
  }

  lemma ClientFindsServer(suite: Suite, parties: seq<Party>, w: World, i: nat) returns (x: nat)
    requires Setting(suite, parties) && WorldInv(suite, parties, w) && i < |parties| && !parties[i].isServer
    requires var s := w.sessions[i]; |s.msgs| > 5 && s.peerKey.Some? && HonestKey(parties, s.peerKey.value)
    ensures x < |parties| && parties[x].isServer && Owns(parties[x], w.sessions[i].peerKey.value)
    ensures |w.sessions[x].msgs| >= 5 && w.sessions[i].msgs[..5] == w.sessions[x].msgs[..5]
    ensures forall x' :: 0 <= x' < |parties| && SentHello(parties, w, x', w.sessions[i].msgs[1]) ==> x' == x
  {
    hide Setting;
    hide WorldInv;
    hide SessionInv;
    hide HonestShare;
    hide HonestKey;
    hide ServerHello;
    SessionOf(suite, parties, w, i);
    x := SignerIsServer(suite, parties, w, i);
    SessionOf(suite, parties, w, x);
    assert |w.sessions| == |parties|;
    var s, ss := w.sessions[i].msgs, w.sessions[x].msgs;
    SameAt(s, ss, 4, 1);
    OwnHello(suite, parties[x], w.sessions[x]);
    SoleSender(suite, parties, w, x, s[1]);
    ShareIsHonest(suite, parties, parties[i], s, x);
    var y := FinishedSender(suite, parties, w, i);
    SameAt(w.sessions[y].msgs, s, 5, 1);
    assert SentHello(parties, w, y, s[1]);
    assert y == x;
  }

  lemma SoleSender(suite: Suite, parties: seq<Party>, w: World, x: nat, hello: Message)
    requires Setting(suite, parties) && WorldInv(suite, parties, w) && x < |parties| && parties[x].isServer
    requires hello == ServerHello(suite, parties[x])
    ensures forall x' :: 0 <= x' < |parties| && SentHello(parties, w, x', hello) ==> x' == x
  {
    forall x' | 0 <= x' < |parties| && SentHello(parties, w, x', hello) ensures x' == x {
      assert SessionInv(suite, parties[x'], w.sessions[x']);
      HelloOwner(suite, parties, x', x);
    }
  }

  lemma BothDone(suite: Suite, parties: seq<Party>, w: World, i: nat, x: nat)
    requires Setting(suite, parties) && WorldInv(suite, parties, w) && i < |parties| && x < |parties|
    requires !parties[i].isServer && parties[x].isServer
    requires w.sessions[i].status == Done && w.sessions[x].status == Done
    requires |w.sessions[i].msgs| >= 5 && |w.sessions[x].msgs| >= 5
             && w.sessions[i].msgs[..5] == w.sessions[x].msgs[..5]
    ensures w.sessions[i].msgs == w.sessions[x].msgs
    ensures Mutual(parties[i], w.sessions[i].msgs) == Mutual(parties[x], w.sessions[x].msgs)
    ensures Mirrored(TrafficCiphers(suite, parties[i], w.sessions[i].msgs),
                     TrafficCiphers(suite, parties[x], w.sessions[x].msgs))
  {
    var c, s := w.sessions[i], w.sessions[x];
    assert SessionInv(suite, parties[i], c) && SessionInv(suite, parties[x], s);
    assert s.msgs[0] == s.msgs[..5][0] == c.msgs[..5][0] == c.msgs[0];
    assert s.msgs[1] == s.msgs[..5][1] == c.msgs[..5][1] == c.msgs[1];
    assert s.msgs[2] == s.msgs[..5][2] == c.msgs[..5][2] == c.msgs[2];
    assert c.msgs[0] == ClientHello(suite, parties[i]) && s.msgs[1] == ServerHello(suite, parties[x]);
    ShareOfHello(suite, parties[i]);
    assert HonestPoint(suite, parties, suite.publicPoint(parties[i].ephemeral));
    var y := ServerFindsClient(suite, parties, w, x);
    HelloOwner(suite, parties, i, y);
    assert |c.msgs| == Total(parties[i], c.msgs);
    assert c.msgs == s.msgs;
    assert c.msgs[..2] == s.msgs[..2];
    SameSecret(suite, parties[i], parties[x], c.msgs, s.msgs);
  }

  /**
   Agreement, seen from a server that required mutual attestation: completing under a client
   key of one of these sessions means that the key's owner is a client with the same
   transcript up to its Finished, and the same ciphers if that client completed too.
   */
  lemma ServerAgreement(suite: Suite, parties: seq<Party>, run: seq<(nat, Input)>, j: nat) returns (y: nat)
    requires Setting(suite, parties) && Legal(suite, parties, Start(|parties|), run)
    requires j < |parties| && parties[j].isServer
    requires var s := RunAll(suite, parties, Start(|parties|), run).sessions[j];
             s.status == Done && Mutual(parties[j], s.msgs) && s.peerKey.Some? && HonestKey(parties, s.peerKey.value)
    ensures y < |parties| && !parties[y].isServer
    ensures var w := RunAll(suite, parties, Start(|parties|), run);
            && Owns(parties[y], w.sessions[j].peerKey.value)
            && |w.sessions[j].msgs| == 9 && |w.sessions[y].msgs| >= 8
            && w.sessions[y].msgs[..8] == w.sessions[j].msgs[..8]
            && (w.sessions[y].status == Done ==>
                  && w.sessions[y].msgs == w.sessions[j].msgs
                  && Mirrored(TrafficCiphers(suite, parties[y], w.sessions[y].msgs),
                              TrafficCiphers(suite, parties[j], w.sessions[j].msgs)))
  {
    hide *;
    Reached(suite, parties, run);
    var w := RunAll(suite, parties, Start(|parties|), run);
    y := ServerFindsSigner(suite, parties, w, j);
    if w.sessions[y].status == Done {
      var c, s := w.sessions[y], w.sessions[j];
      assert c.msgs[..5] == c.msgs[..8][..5] == s.msgs[..8][..5] == s.msgs[..5];
      BothDone(suite, parties, w, y, j);
    }
  }

  lemma ServerFindsSigner(suite: Suite, parties: seq<Party>, w: World, j: nat) returns (y: nat)
    requires Setting(suite, parties) && WorldInv(suite, parties, w) && j < |parties| && parties[j].isServer
    requires var s := w.sessions[j];
             s.status == Done && Mutual(parties[j], s.msgs) && s.peerKey.Some? && HonestKey(parties, s.peerKey.value)
    ensures y < |parties| && !parties[y].isServer && Owns(parties[y], w.sessions[j].peerKey.value)
    ensures |w.sessions[j].msgs| == 9 && |w.sessions[y].msgs| >= 8
    ensures w.sessions[y].msgs[..8] == w.sessions[j].msgs[..8]
  {
    var s := w.sessions[j];
    assert SessionInv(suite, parties[j], s);
    assert SignatureAccepted(parties, parties[j], s, w.signed);
    var e := (s.peerKey.value, Transcript(s.msgs[..7]));
    var x :| 0 <= x < |parties| && SignedBy(parties[x], w.sessions[x].msgs, e.0, e.1);
    var c := w.sessions[x];
    assert SessionInv(suite, parties[x], c);
    SamePrefix(suite, parties[j], s, 7, parties[x], c, SignPoint(parties[x]));
    assert s.msgs[0] == s.msgs[..7][0] == c.msgs[..7][0] == c.msgs[0];
    ShareOfHello(suite, parties[x]);
    assert HonestPoint(suite, parties, suite.publicPoint(parties[x].ephemeral));
    y := ServerFindsClient(suite, parties, w, j);
    HelloOwner(suite, parties, y, x);
  }

  // No downgrade --------------------------------------------------------------------

  /** A client that asked for mutual attestation goes on only once the server has confirmed it. */
  predicate Confirmed(p: Party, s: Session) {
    !p.isServer && p.verifyMutual && |s.msgs| >= 3 && s.status != Failed(MutualNotConfirmed) ==> Mutual(p, s.msgs)
  }

  lemma StepConfirms(suite: Suite, p: Party, s: Session, input: Input)
    requires Laws(suite) && Confirmed(p, s)
    ensures Confirmed(p, Step(suite, p, s, input))
  {
    StepGrows(suite, p, s, input);
    if |s.msgs| >= 3 {
      MutualStable(p, s.msgs, Step(suite, p, s, input).msgs);
    }
  }

  lemma {:induction false} RunConfirms(suite: Suite, parties: seq<Party>, w: World, run: seq<(nat, Input)>, i: nat)
    requires Laws(suite) && i < |parties| == |w.sessions| && Confirmed(parties[i], w.sessions[i])
    ensures Confirmed(parties[i], RunAll(suite, parties, w, run).sessions[i])
    decreases |run|
  {
    if run != [] && run[0].0 < |parties| {
      if run[0].0 == i {
        StepConfirms(suite, parties[i], w.sessions[i], run[0].1);
      }
      hide Step;
      hide Confirmed;
      RunConfirms(suite, parties, Next(suite, parties, w, run[0].0, run[0].1), run[1..], i);
    }
  }

  /**
   Whatever the network does to the flags: an end that asked for mutual attestation and
   completes has exchanged the client's Certificate and CertificateVerify, the server with a
   key that was attested.
   */
  lemma NoDowngrade(suite: Suite, parties: seq<Party>, run: seq<(nat, Input)>, i: nat)
    requires Setting(suite, parties) && Legal(suite, parties, Start(|parties|), run)
    requires i < |parties| && parties[i].verifyMutual
    requires RunAll(suite, parties, Start(|parties|), run).sessions[i].status == Done
    ensures var p, s := parties[i], RunAll(suite, parties, Start(|parties|), run).sessions[i];
            && |s.msgs| == 9 && s.msgs[6].msgType == CERTIFICATE && s.msgs[7].msgType == CERTIFICATE_VERIFY
            && s.msgs[8].msgType == FINISHED
            && p.credential.Some? && s.peerKey.Some?
  {
    StartKeeps(suite, parties);
    RunKeeps(suite, parties, Start(|parties|), run);
    RunConfirms(suite, parties, Start(|parties|), run, i);
    var w := RunAll(suite, parties, Start(|parties|), run);
    hide RunAll;
    hide Legal;
    assert SessionInv(suite, parties[i], w.sessions[i]);
  }

  /** The assumptions can be met, by a client and a server with different shares. */
  lemma LawsAreConsistent()
    ensures exists suite: Suite, parties: seq<Party> ::
              Setting(suite, parties) && |parties| == 2 && !parties[0].isServer && parties[1].isServer
  {
    hide Laws;
    PlainLaws();
    var suite := PlainSuite();
    var client := Party(false, 0, Zeros(RANDOM_LEN), true, false, false, None, m => None);
    var server := Party(true, 1, Zeros(RANDOM_LEN), true, false, false, None, m => None);
    var parties := [client, server];
    assert suite.publicPoint(client.ephemeral) != suite.publicPoint(server.ephemeral);
    assert Setting(suite, parties);
  }

  /** A suite without any strength. */
  function PlainSuite(): Suite {
    Suite(d => Point(if d == 0 then 0 else 1, 0), p => true, (d, p) => Some(0),
          (a, b, c) => (n => 0), (k, m) => Zeros(TAG_LEN), m => [])
  }

  lemma PlainLaws()
    ensures Laws(PlainSuite())
  {
    hide Pow256;
    hide Zeros;
    Pow256IsLarge(32);
  }

  lemma Pow256IsLarge(k: nat)
    requires k > 0
    ensures Pow256(k) > 1
  {
  }
}
