/**
 When a session completes, exactly; and that its first error is its last: whatever happens
 afterwards, it stays failed with the transcript it had.
 */
module Completion {
  import opened Bytes
  import opened Codec
  import opened Handshake
  import opened Agreement

  /** One session alone, after these inputs. */
  function After(suite: Suite, p: Party, s: Session, inputs: seq<Input>): Session
    requires Laws(suite)
    decreases |inputs|
  {
    if inputs == [] then s else After(suite, p, Step(suite, p, s, inputs[0]), inputs[1..])
  }

  /** Session i's own inputs in a run. */
  function InputsOf(run: seq<(nat, Input)>, i: nat): seq<Input> {
    if run == [] then []
    else (if run[0].0 == i then [run[0].1] else []) + InputsOf(run[1..], i)
  }

  /** In a world of sessions each runs on its own inputs. */
  lemma {:induction false} RunsAlone(suite: Suite, parties: seq<Party>, w: World, run: seq<(nat, Input)>, i: nat)
    requires Laws(suite) && i < |parties| == |w.sessions| && Legal(suite, parties, w, run)
    ensures RunAll(suite, parties, w, run).sessions[i]
         == After(suite, parties[i], w.sessions[i], InputsOf(run, i))
    decreases |run|
  {
    hide Step;
    hide Signs;
    hide Tags;
    hide Allowed;
    hide Laws;
    if run != [] {
      var w' := Next(suite, parties, w, run[0].0, run[0].1);
      RunsAlone(suite, parties, w', run[1..], i);
      var rest := InputsOf(run[1..], i);
      if run[0].0 == i {
        assert ([run[0].1] + rest)[1..] == rest;
      } else {
        assert [] + rest == rest;
      }
    }
  }

  // Errors are final --------------------------------------------------------------------------

  lemma {:induction false} FailedStays(suite: Suite, p: Party, s: Session, inputs: seq<Input>)
    requires Laws(suite) && s.status.Failed?
    ensures After(suite, p, s, inputs) == s
    decreases |inputs|
  {
    hide Laws;
    if inputs != [] {
      FailedStays(suite, p, s, inputs[1..]);
    }
  }

  lemma {:induction false} AfterConcat(suite: Suite, p: Party, s: Session, a: seq<Input>, b: seq<Input>)
    requires Laws(suite)
    ensures After(suite, p, s, a + b) == After(suite, p, After(suite, p, s, a), b)
    decreases |a|
  {
    hide Laws;
    hide Step;
    if a == [] {
      assert a + b == b;
    } else {
      ConcatHead(a, b);
      AfterConcat(suite, p, Step(suite, p, s, a[0]), a[1..], b);
    }
  }

  lemma {:induction false} InputsConcat(a: seq<(nat, Input)>, b: seq<(nat, Input)>, i: nat)
    ensures InputsOf(a + b, i) == InputsOf(a, i) + InputsOf(b, i)
  {
    if a == [] {
      assert a + b == b;
    } else {
      ConcatHead(a, b);
      InputsConcat(a[1..], b, i);
      ConcatAssociates(if a[0].0 == i then [a[0].1] else [], InputsOf(a[1..], i), InputsOf(b, i));
    }
  }

  lemma {:induction false} LegalPrefix(suite: Suite, parties: seq<Party>, w: World, run: seq<(nat, Input)>, n: nat)
    requires Laws(suite) && |parties| == |w.sessions| && Legal(suite, parties, w, run) && n <= |run|
    ensures Legal(suite, parties, w, run[..n])
    decreases n
  {
    hide Laws;
    hide Step;
    hide Signs;
    hide Tags;
    hide Allowed;
    if n > 0 {
      LegalPrefix(suite, parties, Next(suite, parties, w, run[0].0, run[0].1), run[1..], n - 1);
      assert run[..n][1..] == run[1..][..n - 1];
    }
  }

  /** Session i at a point of a run. */
  function SessionAt(suite: Suite, parties: seq<Party>, run: seq<(nat, Input)>, n: nat, i: nat): Session
    requires Laws(suite) && n <= |run| && i < |parties|
  {
    RunAll(suite, parties, Start(|parties|), run[..n]).sessions[i]
  }

  /** An input that makes a session fail makes it stay as it is from then on. */
  lemma FailureIsFinal(suite: Suite, parties: seq<Party>, run: seq<(nat, Input)>, k: nat, n: nat, i: nat)
    requires Laws(suite) && Legal(suite, parties, Start(|parties|), run) && i < |parties|
    requires k < n <= |run| && run[k].0 == i
    requires Step(suite, parties[i], SessionAt(suite, parties, run, k, i), run[k].1).status.Failed?
    ensures SessionAt(suite, parties, run, n, i)
         == Step(suite, parties[i], SessionAt(suite, parties, run, k, i), run[k].1)
  {
    hide Step;
    hide Laws;
    hide RunAll;
    hide Legal;
    var p, w, input := parties[i], Start(|parties|), run[k].1;
    LegalPrefix(suite, parties, w, run, k);
    LegalPrefix(suite, parties, w, run, n);
    RunsAlone(suite, parties, w, run[..k], i);
    RunsAlone(suite, parties, w, run[..n], i);
    var before, later := InputsOf(run[..k], i), InputsOf(run[k + 1..n], i);
    SplitAt(run, k, n);
    InputsConcat(run[..k], [run[k]] + run[k + 1..n], i);
    InputsConcat([run[k]], run[k + 1..n], i);
    OwnInput(run[k]);
    AfterConcat(suite, p, w.sessions[i], before, [input] + later);
    AfterConcat(suite, p, After(suite, p, w.sessions[i], before), [input], later);
    AfterOne(suite, p, After(suite, p, w.sessions[i], before), input);
    FailedStays(suite, p, Step(suite, p, After(suite, p, w.sessions[i], before), input), later);
  }

  lemma SplitAt<T>(s: seq<T>, k: nat, n: nat)
    requires k < n <= |s|
    ensures s[..n] == s[..k] + ([s[k]] + s[k + 1..n])
  {
  }

  lemma OwnInput(step: (nat, Input))
    ensures InputsOf([step], step.0) == [step.1]
  {
    assert [step][1..] == [];
  }

  lemma AfterOne(suite: Suite, p: Party, s: Session, input: Input)
    requires Laws(suite)
    ensures After(suite, p, s, [input]) == Step(suite, p, s, input)
  {
    hide Step;
    hide Laws;
    assert [input][1..] == [];
  }

  /**
   A failed write ends a session: if it was running and it was its turn to send, then in every
   later state of the run it is failed and its transcript has not grown.
   */
  lemma FailedWriteIsFinal(suite: Suite, parties: seq<Party>, run: seq<(nat, Input)>, k: nat, n: nat, i: nat)
    requires Laws(suite) && Legal(suite, parties, Start(|parties|), run) && i < |parties|
    requires k < n <= |run| && run[k].0 == i && run[k].1.Goes? && !run[k].1.written
    requires var s := SessionAt(suite, parties, run, k, i); s.status == Running && Sends(parties[i], s.msgs)
    ensures var s, s' := SessionAt(suite, parties, run, k, i), SessionAt(suite, parties, run, n, i);
            s'.status.Failed? && s'.msgs == s.msgs && s'.peerKey == s.peerKey
  {
    hide SessionAt;
    hide Legal;
    hide Laws;
    hide Outgoing;
    FailureIsFinal(suite, parties, run, k, n, i);
  }

  /** A Finished with handshake bytes left behind it ends a session: it is failed in every later state. */
  lemma TrailingDataIsFinal(suite: Suite, parties: seq<Party>, run: seq<(nat, Input)>, k: nat, n: nat, i: nat)
    requires Laws(suite) && Legal(suite, parties, Start(|parties|), run) && i < |parties|
    requires k < n <= |run| && run[k].0 == i
    requires run[k].1.Arrives? && run[k].1.m.msgType == FINISHED && run[k].1.trailing
    requires var s := SessionAt(suite, parties, run, k, i); s.status == Running && !Sends(parties[i], s.msgs)
    ensures SessionAt(suite, parties, run, n, i).status.Failed?
  {
    hide SessionAt;
    hide Legal;
    hide Laws;
    hide PeerFinished;
    hide Expected;
    hide Readable;
    FailureIsFinal(suite, parties, run, k, n, i);
  }

  // Completion --------------------------------------------------------------------------------

  /** The inputs that concern a session with k messages: those that come at its turn. */
  predicate Timely(p: Party, k: nat, input: Input) {
    input.Goes? <==> if p.isServer then 1 <= k < 6 else k == 0 || k >= 6
  }

  function Effective(p: Party, k: nat, inputs: seq<Input>): seq<Input>
    decreases |inputs|
  {
    if inputs == [] then []
    else if Timely(p, k, inputs[0]) then [inputs[0]] + Effective(p, k + 1, inputs[1..])
    else Effective(p, k, inputs[1..])
  }

  /** The hello of one end, byte by byte. */
  function HelloBody(suite: Suite, p: Party): bytes
    requires Laws(suite)
  {
    p.random + EncodePoint(suite.publicPoint(p.ephemeral))
    + if p.isServer then [] else [if p.verifyMutual then 1 else 0]
  }

  /** A ClientHello that asks for mutual attestation: the byte behind the share is 1. */
  predicate Asks(hello: Message) {
    |hello.body| > SHARE_END && hello.body[SHARE_END] == 1
  }

  /** EncryptedExtensions that grant it. */
  predicate Grants(extensions: Message) {
    |extensions.body| > 0 && extensions.body[0] == 1
  }

  /** What the k-th message of a transcript must be for an end to send it. */
  ghost predicate Sendable(suite: Suite, p: Party, ms: seq<Message>, k: nat, signature: bytes)
    requires Laws(suite) && k < |ms|
  {
    && (ms[k].msgType == CLIENT_HELLO || ms[k].msgType == SERVER_HELLO ==> ms[k].body == HelloBody(suite, p))
    && (ms[k].msgType == ENCRYPTED_EXTENSIONS ==>
          Secret(suite, p, ms).Some? && ms[k].body == [if p.verifyMutual || Asks(ms[0]) then 1 else 0])
    && (ms[k].msgType == CERTIFICATE ==> p.credential.Some? && ms[k].body == p.credential.value.certPem)
    && (ms[k].msgType == CERTIFICATE_VERIFY ==> ms[k].body == signature)
    && (ms[k].msgType == FINISHED ==> ms[k].body == suite.hmac(KeyAt(suite, p, ms, k), Transcript(ms[..k])))
  }

  /** What it must be for an end to take it in. */
  ghost predicate Acceptable(suite: Suite, p: Party, ms: seq<Message>, k: nat, verified: bool, trailing: bool)
    requires Laws(suite) && k < |ms|
  {
    && Readable(ms[k]) && (p.isServer ==> p.credential.Some?)
    && (ms[k].msgType == CLIENT_HELLO ==> PeerPoint(suite, ms[k]).Some?)
    && (ms[k].msgType == SERVER_HELLO ==> PeerPoint(suite, ms[k]).Some? && Secret(suite, p, ms).Some?)
    && (ms[k].msgType == ENCRYPTED_EXTENSIONS ==>
          && (p.verifyMutual ==> Grants(ms[k]))
          && (Grants(ms[k]) ==> p.verifyMutual || p.hasProvider || p.hasPem))
    && (ms[k].msgType == CERTIFICATE ==> p.attest(ms[k].body).Some?)
    && (ms[k].msgType == CERTIFICATE_VERIFY ==> verified)
    && (ms[k].msgType == FINISHED ==>
          !trailing && ms[k].body == suite.hmac(KeyAt(suite, p, ms, k), Transcript(ms[..k])))
  }

  /** Input k of a faultless session with this transcript. */
  ghost predicate Faultless(suite: Suite, p: Party, ms: seq<Message>, k: nat, input: Input)
    requires Laws(suite) && k < |ms|
  {
    && ms[k].msgType == TypeAt(Mutual(p, ms), k) && Timely(p, k, input)
    && match input
       case ReadFails => false
       case Goes(signature, written) => written && Sendable(suite, p, ms, k, signature)
       case Arrives(m, verified, trailing) => m == ms[k] && Acceptable(suite, p, ms, k, verified, trailing)
  }

  /** From its n-th message on, these inputs take a session faultlessly through this transcript. */
  ghost predicate Completes(suite: Suite, p: Party, ms: seq<Message>, n: nat, inputs: seq<Input>)
    requires Laws(suite)
  {
    && n < |ms| == Total(p, ms) <= n + |inputs|
    && forall j :: 0 <= j < |ms| - n ==> Faultless(suite, p, ms, n + j, inputs[j])
  }

  /** A session on its way: running, and short of its last message. */
  predicate UnderWay(p: Party, s: Session) {
    s.status == Running && (|s.msgs| < 7 || |s.msgs| < Total(p, s.msgs))
  }

  /** A step that does not fail took in or sent the one message that is faultless here. */
  ghost predicate StepIsExact(suite: Suite, p: Party, s: Session, input: Input)
    requires Laws(suite)
  {
    var n, s' := |s.msgs|, Step(suite, p, s, input);
    && (!s'.status.Failed? ==>
          && |s'.msgs| == n + 1 && s'.msgs[..n] == s.msgs && Faultless(suite, p, s'.msgs, n, input)
          && (if n + 1 == Total(p, s'.msgs) then s'.status == Done else UnderWay(p, s')))
    && (forall m :: Faultless(suite, p, s.msgs + [m], n, input) ==> !s'.status.Failed? && s'.msgs == s.msgs + [m])
  }

  lemma FirstPart<T>(s: seq<T>, m: T)
    ensures (s + [m])[..|s|] == s && (s + [m])[|s|] == m
  {
  }

  lemma TotalStays(p: Party, msgs: seq<Message>, m: Message)
    requires |msgs| >= 3
    ensures Mutual(p, msgs + [m]) == Mutual(p, msgs) && Total(p, msgs + [m]) == Total(p, msgs)
  {
  }

  lemma HellosAre(suite: Suite, p: Party)
    requires Laws(suite)
    ensures if p.isServer then ServerHello(suite, p) == Message(SERVER_HELLO, HelloBody(suite, p))
            else ClientHello(suite, p) == Message(CLIENT_HELLO, HelloBody(suite, p))
  {
    hide EncodePoint;
    hide Coordinate;
    var front := p.random + EncodePoint(suite.publicPoint(p.ephemeral));
    assert front + [] == front;
  }

  /** The message an end puts out is the only one it may send there. */
  lemma OutgoingExactly(suite: Suite, p: Party, s: Session, signature: bytes, m: Message)
    requires Laws(suite) && UnderWay(p, s) && Sends(p, s.msgs)
    ensures var n, ms := |s.msgs|, s.msgs + [m];
            Outgoing(suite, p, s.msgs, signature) == Ok(m)
            <==> ms[n].msgType == TypeAt(Mutual(p, ms), n) && Sendable(suite, p, ms, n, signature)
  {
    hide Laws;
    hide HelloBody;
    hide Transcript;
    hide Secret;
    var n, ms := |s.msgs|, s.msgs + [m];
    FirstPart(s.msgs, m);
    HellosAre(suite, p);
    OutgoingStays(suite, p, s.msgs, m);
  }

  /** What a message's contents depend on is settled before it. */
  lemma OutgoingStays(suite: Suite, p: Party, msgs: seq<Message>, m: Message)
    ensures |msgs| >= 3 || (p.isServer && |msgs| >= 1) ==> Mutual(p, msgs + [m]) == Mutual(p, msgs)
    ensures |msgs| >= 2 ==> Secret(suite, p, msgs + [m]) == Secret(suite, p, msgs)
    ensures |msgs| >= 2 ==> KeyAt(suite, p, msgs + [m], |msgs|) == KeyAt(suite, p, msgs, |msgs|)
  {
    if |msgs| >= 2 {
      KeysStable(suite, p, msgs, msgs + [m]);
    }
    hide Secret;
    hide HandshakeStream;
  }

  lemma SendIsExact(suite: Suite, p: Party, s: Session, input: Input)
    requires Laws(suite) && UnderWay(p, s) && Sends(p, s.msgs) && input.Goes?
    ensures StepIsExact(suite, p, s, input)
  {
    hide Laws;
    hide Sendable;
    hide Outgoing;
    hide Secret;
    hide HandshakeStream;
    hide HelloBody;
    hide Transcript;
    var n, sent := |s.msgs|, Outgoing(suite, p, s.msgs, input.signature);
    if sent.Ok? {
      OutgoingExactly(suite, p, s, input.signature, sent.value);
      FirstPart(s.msgs, sent.value);
      if n >= 3 {
        TotalStays(p, s.msgs, sent.value);
      }
    }
    forall m | Faultless(suite, p, s.msgs + [m], n, input) ensures sent == Ok(m) {
      FirstPart(s.msgs, m);
      OutgoingExactly(suite, p, s, input.signature, m);
    }
  }

  /** The type an end insists on is the one its position has. */
  lemma ExpectedIsPlaced(p: Party, s: Session, m: Message)
    requires UnderWay(p, s) && !Sends(p, s.msgs)
    ensures m.msgType == Expected(p, s.msgs) <==> m.msgType == TypeAt(Mutual(p, s.msgs + [m]), |s.msgs|)
    ensures m.msgType == Expected(p, s.msgs) ==>
              && (m.msgType == SERVER_HELLO ==> |s.msgs| == 1)
              && (m.msgType == ENCRYPTED_EXTENSIONS ==> |s.msgs| == 2)
              && (m.msgType == FINISHED ==> |s.msgs| == if p.isServer then Total(p, s.msgs) - 1 else 5)
  {
    hide Mutual;
    MutualStays(p, s.msgs, m);
  }

  lemma MutualStays(p: Party, msgs: seq<Message>, m: Message)
    ensures |msgs| >= 3 || (p.isServer && |msgs| >= 1) ==> Mutual(p, msgs + [m]) == Mutual(p, msgs)
  {
  }

  lemma PlacedTypes(mutual: bool, k: nat)
    ensures var t := TypeAt(mutual, k);
            || t == CLIENT_HELLO || t == SERVER_HELLO || t == ENCRYPTED_EXTENSIONS
            || t == CERTIFICATE || t == CERTIFICATE_VERIFY || t == FINISHED
  {
  }

  /** A Finished is checked against the tag of the transcript before it. */
  lemma PeerFinishedIsTag(suite: Suite, p: Party, s: Session, m: Message)
    requires Laws(suite) && UnderWay(p, s) && !Sends(p, s.msgs)
    requires m.msgType == FINISHED && m.msgType == Expected(p, s.msgs)
    ensures var n, ms := |s.msgs|, s.msgs + [m];
            PeerFinished(suite, p, s.msgs) == suite.hmac(KeyAt(suite, p, ms, n), Transcript(ms[..n]))
  {
    hide Laws;
    hide Transcript;
    FirstPart(s.msgs, m);
    OutgoingStays(suite, p, s.msgs, m);
    hide ServerFinishedKey;
    hide ClientFinishedKey;
  }

  lemma ReceiveExactly(suite: Suite, p: Party, s: Session, m: Message, verified: bool, trailing: bool)
    requires Laws(suite) && UnderWay(p, s) && !Sends(p, s.msgs)
    ensures var n, ms, s' := |s.msgs|, s.msgs + [m], Receive(suite, p, s, m, verified, trailing);
            && (!s'.status.Failed? <==>
                  m.msgType == TypeAt(Mutual(p, ms), n) && Acceptable(suite, p, ms, n, verified, trailing))
            && (!s'.status.Failed? ==>
                  s'.msgs == ms && s'.status == if p.isServer && n >= 6 && m.msgType == FINISHED then Done else Running)
  {
    hide Laws;
    hide Transcript;
    hide PeerPoint;
    hide Secret;
    hide Readable;
    hide Expected;
    hide TypeAt;
    hide KeyAt;
    hide PeerFinished;
    hide Total;
    FirstPart(s.msgs, m);
    ExpectedIsPlaced(p, s, m);
    PlacedTypes(Mutual(p, s.msgs + [m]), |s.msgs|);
    if m.msgType == FINISHED && m.msgType == Expected(p, s.msgs) {
      PeerFinishedIsTag(suite, p, s, m);
    }
    NoPointIsShort(suite, m);
    TotalAhead(p, s.msgs, s.msgs);
  }

  lemma NoPointIsShort(suite: Suite, m: Message)
    ensures PeerPoint(suite, m).Some? ==> |m.body| >= SHARE_END
  {
  }

  lemma ReceiveIsExact(suite: Suite, p: Party, s: Session, input: Input)
    requires Laws(suite) && UnderWay(p, s) && !Sends(p, s.msgs) && !input.Goes?
    ensures StepIsExact(suite, p, s, input)
  {
    hide Laws;
    hide Acceptable;
    hide Receive;
    if input.Arrives? {
      var m, n := input.m, |s.msgs|;
      ReceiveExactly(suite, p, s, m, input.verified, input.trailing);
      FirstPart(s.msgs, m);
      if n >= 3 {
        TotalStays(p, s.msgs, m);
      }
      forall m' | Faultless(suite, p, s.msgs + [m'], n, input) ensures m' == m {
        FirstPart(s.msgs, m');
      }
    }
  }

  lemma StepExactly(suite: Suite, p: Party, s: Session, input: Input)
    requires Laws(suite) && UnderWay(p, s)
    ensures if Timely(p, |s.msgs|, input) then StepIsExact(suite, p, s, input) else Step(suite, p, s, input) == s
  {
    hide Laws;
    hide StepIsExact;
    if Sends(p, s.msgs) {
      if input.Goes? {
        SendIsExact(suite, p, s, input);
      }
    } else if !input.Goes? {
      ReceiveIsExact(suite, p, s, input);
    }
  }

  /** The two mutual-attestation errors mean what their names say, and nothing else raises them. */
  lemma MutualErrors(suite: Suite, p: Party, s: Session, input: Input)
    requires Laws(suite) && UnderWay(p, s)
    ensures var asked := !p.isServer && |s.msgs| == 2 && input.Arrives? && Readable(input.m)
                         && input.m.msgType == ENCRYPTED_EXTENSIONS;
            var granted := asked && Grants(input.m);
            && (Step(suite, p, s, input).status == Failed(MutualNotConfirmed) <==> asked && p.verifyMutual && !granted)
            && (Step(suite, p, s, input).status == Failed(MutualRequired) <==>
                  granted && !p.verifyMutual && !p.hasProvider && !p.hasPem)
  {
    hide Laws;
    hide Readable;
    hide Receive;
    hide Outgoing;
    if Sends(p, s.msgs) && input.Goes? {
      SendErrors(suite, p, s, input.signature);
    } else if !Sends(p, s.msgs) && input.Arrives? {
      ReceiveErrors(suite, p, s, input.m, input.verified, input.trailing);
    }
  }

  lemma ReceiveErrors(suite: Suite, p: Party, s: Session, m: Message, verified: bool, trailing: bool)
    requires UnderWay(p, s) && !Sends(p, s.msgs)
    ensures var asked := !p.isServer && |s.msgs| == 2 && Readable(m) && m.msgType == ENCRYPTED_EXTENSIONS;
            var status := Receive(suite, p, s, m, verified, trailing).status;
            && (status == Failed(MutualNotConfirmed) <==> asked && p.verifyMutual && !Grants(m))
            && (status == Failed(MutualRequired) <==>
                  asked && Grants(m) && !p.verifyMutual && !p.hasProvider && !p.hasPem)
  {
    hide Readable;
    hide PeerPoint;
    hide Secret;
    hide PeerFinished;
    hide Expected;
    hide Total;
    ExtensionsExpected(p, s.msgs);
    ConfirmedMeans(p, s.msgs, m);
  }

  lemma ExtensionsExpected(p: Party, msgs: seq<Message>)
    requires !Sends(p, msgs)
    ensures Expected(p, msgs) == ENCRYPTED_EXTENSIONS <==> !p.isServer && |msgs| == 2
  {
  }

  lemma ConfirmedMeans(p: Party, msgs: seq<Message>, m: Message)
    ensures !p.isServer && |msgs| == 2 ==> (Mutual(p, msgs + [m]) <==> Grants(m))
  {
    FirstPart(msgs, m);
  }

  lemma SendErrors(suite: Suite, p: Party, s: Session, signature: bytes)
    requires Laws(suite) && Sends(p, s.msgs)
    ensures var m := Outgoing(suite, p, s.msgs, signature);
            m.Ok? || m.error == NoSharedSecret || m.error == NoCredential
  {
    hide Laws;
    hide Secret;
  }

  /** What a message is judged by is settled when it is there. */
  lemma Settled(suite: Suite, p: Party, ms: seq<Message>, ms': seq<Message>, k: nat)
    requires ms <= ms' && k < |ms|
    ensures ms'[k] == ms[k] && ms'[0] == ms[0] && ms'[..k] == ms[..k]
    ensures TypeAt(Mutual(p, ms'), k) == TypeAt(Mutual(p, ms), k)
    ensures 1 <= k ==> Secret(suite, p, ms') == Secret(suite, p, ms)
    ensures 2 <= k ==> KeyAt(suite, p, ms', k) == KeyAt(suite, p, ms, k)
  {
    if k >= 1 {
      KeysStable(suite, p, ms, ms');
    }
    if k >= 3 {
      MutualStable(p, ms, ms');
    }
    hide Mutual;
    hide Secret;
    hide HandshakeStream;
  }

  lemma TypesByPlace(mutual: bool, k: nat)
    ensures TypeAt(mutual, k) == ENCRYPTED_EXTENSIONS || TypeAt(mutual, k) == SERVER_HELLO ==> 1 <= k
    ensures TypeAt(mutual, k) == FINISHED ==> 5 <= k
  {
  }

  /** Whether an input is faultless does not depend on what comes after it. */
  lemma FaultlessStays(suite: Suite, p: Party, ms: seq<Message>, ms': seq<Message>, k: nat, input: Input)
    requires Laws(suite) && ms <= ms' && k < |ms|
    ensures Faultless(suite, p, ms, k, input) <==> Faultless(suite, p, ms', k, input)
  {
    hide Laws;
    hide Transcript;
    hide PeerPoint;
    hide HelloBody;
    hide Readable;
    hide Secret;
    hide KeyAt;
    hide Mutual;
    hide TypeAt;
    hide Asks;
    hide Grants;
    hide Timely;
    Settled(suite, p, ms, ms', k);
    TypesByPlace(Mutual(p, ms), k);
  }

  /** A session that completes went through its transcript faultlessly. */
  lemma {:induction false} DoneIsFaultless(suite: Suite, p: Party, s: Session, inputs: seq<Input>)
    requires Laws(suite) && UnderWay(p, s) && After(suite, p, s, inputs).status == Done
    ensures var ms := After(suite, p, s, inputs).msgs;
            s.msgs <= ms && Completes(suite, p, ms, |s.msgs|, Effective(p, |s.msgs|, inputs))
    decreases |inputs|
  {
    hide Laws;
    hide Step;
    hide Faultless;
    hide Timely;
    hide Total;
    var n, input := |s.msgs|, inputs[0];
    var s' := Step(suite, p, s, input);
    StepExactly(suite, p, s, input);
    if !Timely(p, n, input) {
      DoneIsFaultless(suite, p, s, inputs[1..]);
    } else {
      var ms := After(suite, p, s, inputs).msgs;
      if s'.status.Failed? {
        FailedStays(suite, p, s', inputs[1..]);
      } else if s'.status == Done {
        DoneStays(suite, p, s', inputs[1..]);
      } else {
        DoneIsFaultless(suite, p, s', inputs[1..]);
        FaultlessStays(suite, p, s'.msgs, ms, n, input);
      }
      var later := Effective(p, n + 1, inputs[1..]);
      assert forall j :: 1 <= j < |ms| - n ==> ([input] + later)[j] == later[j - 1];
    }
  }

  lemma {:induction false} DoneStays(suite: Suite, p: Party, s: Session, inputs: seq<Input>)
    requires Laws(suite) && s.status == Done
    ensures After(suite, p, s, inputs) == s
    decreases |inputs|
  {
    hide Laws;
    if inputs != [] {
      DoneStays(suite, p, s, inputs[1..]);
    }
  }

  /** And one that can go through a transcript faultlessly does, and completes. */
  lemma {:induction false} FaultlessIsDone(suite: Suite, p: Party, s: Session, inputs: seq<Input>, ms: seq<Message>)
    requires Laws(suite) && UnderWay(p, s) && s.msgs <= ms
    requires Completes(suite, p, ms, |s.msgs|, Effective(p, |s.msgs|, inputs))
    ensures After(suite, p, s, inputs).status == Done && After(suite, p, s, inputs).msgs == ms
    decreases |inputs|
  {
    hide Laws;
    hide Step;
    hide Faultless;
    hide Timely;
    hide Total;
    var n, input := |s.msgs|, inputs[0];
    StepExactly(suite, p, s, input);
    if !Timely(p, n, input) {
      FaultlessIsDone(suite, p, s, inputs[1..], ms);
    } else {
      var m, later := ms[n], Effective(p, n + 1, inputs[1..]);
      var s' := Step(suite, p, s, input);
      assert s.msgs + [m] == ms[..n + 1];
      assert Faultless(suite, p, ms, n + 0, ([input] + later)[0]);
      FaultlessStays(suite, p, s.msgs + [m], ms, n, input);
      TotalAhead(p, s.msgs + [m], ms);
      if s'.status == Done {
        DoneStays(suite, p, s', inputs[1..]);
      } else {
        assert forall j :: 0 <= j < |ms| - n - 1 ==> later[j] == ([input] + later)[j + 1];
        FaultlessIsDone(suite, p, s', inputs[1..], ms);
      }
    }
  }

  lemma TotalAhead(p: Party, msgs: seq<Message>, ms: seq<Message>)
    requires msgs <= ms
    ensures Total(p, msgs) >= 7 && Total(p, ms) >= 7 && (|msgs| >= 3 ==> Total(p, msgs) == Total(p, ms))
  {
  }

  /**
   Completion, exactly. In every run a session is done if and only if the inputs that came at
   its turn, up to the last message, are those of a faultless session with some transcript: each
   message of the type its position asks for; those sent written in full, with its own hello,
   flag, certificate and signature; those received short enough, with a share on the curve and a
   shared secret, a flag it may go along with, an attested certificate, a verified signature and
   nothing left behind a Finished; every Finished the tag of what came before it.
   */
  lemma CompletesExactly(suite: Suite, parties: seq<Party>, run: seq<(nat, Input)>, i: nat)
    requires Laws(suite) && Legal(suite, parties, Start(|parties|), run) && i < |parties|
    ensures var p, s := parties[i], RunAll(suite, parties, Start(|parties|), run).sessions[i];
            && (s.status == Done <==>
                  exists ms :: Completes(suite, p, ms, 0, Effective(p, 0, InputsOf(run, i))))
            && (s.status == Done ==> Completes(suite, p, s.msgs, 0, Effective(p, 0, InputsOf(run, i))))
  {
    hide Laws;
    hide Completes;
    hide RunAll;
    hide Legal;
    var p, inputs := parties[i], InputsOf(run, i);
    RunsAlone(suite, parties, Start(|parties|), run, i);
    var s := After(suite, p, FRESH, inputs);
    if s.status == Done {
      DoneIsFaultless(suite, p, FRESH, inputs);
    }
    forall ms | Completes(suite, p, ms, 0, Effective(p, 0, inputs)) ensures s.status == Done {
      FaultlessIsDone(suite, p, FRESH, inputs, ms);
    }
  }
}
