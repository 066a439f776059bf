/**
 The layers put together. A client that completes talks to the session that holds the attested
 key; and whatever either end of an agreed pair of sessions reads afterwards is a prefix of what
 the other end wrote, however many other sessions run beside them.
 */
module Sessions {
  import opened Bytes
  import opened Codec
  import opened Record
  import opened Handshake
  import opened Agreement
  import Net
  import Framing
  import Connection
  import Verifier

  // Attestation -----------------------------------------------------------------------------

  /** How a session judges certificates; `readable` is whether the key in one is an SM2 key. */
  datatype Judge = Judge(config: Option<Verifier.Config>, env: Verifier.Env, readable: bytes -> bool)

  /** The key a certificate vouches for, named by its public key info, once it has been verified. */
  function AttestedKey(judge: Judge, pem: bytes): Option<bytes> {
    if Verifier.Verdict(judge.config, judge.env, pem).Err? then None
    else if judge.env.parse(pem).None? || !judge.readable(pem) then None
    else Some(judge.env.parse(pem).value.spki)
  }

  ghost predicate Judges(p: Party, judge: Judge) {
    forall pem :: p.attest(pem) == AttestedKey(judge, pem)
  }

  /** Verification is on, and the evidence in this certificate is trusted for its key. */
  ghost predicate Vouched(judge: Judge, pem: bytes, key: bytes) {
    && Verifier.Normalized(judge.config).Ok?
    && exists cert: Verifier.Certificate, ev: Verifier.Evidence ::
         && cert.spki == key
         && Verifier.Presents(judge.env, pem, cert, ev)
         && Verifier.Trusted(Verifier.Normalized(judge.config).value, judge.env, key, ev)
  }

  lemma AttestedIsVouched(judge: Judge, pem: bytes)
    requires AttestedKey(judge, pem).Some?
    requires Verifier.Normalized(judge.config).Ok? && !Verifier.Normalized(judge.config).value.skipVerify
    ensures Vouched(judge, pem, AttestedKey(judge, pem).value)
  {
    hide Verifier.Trusted;
    hide Verifier.Normalized;
    var verdict := Verifier.Verdict(judge.config, judge.env, pem);
    hide Verifier.Verdict;
    Verifier.AcceptanceExactly(judge.config, judge.env, pem, Verifier.Evidence(0, [], [], []));
    var ev := verdict.value.value;
    Verifier.AcceptanceExactly(judge.config, judge.env, pem, ev);
    var cert :| Verifier.Presents(judge.env, pem, cert, ev)
             && Verifier.Trusted(Verifier.Normalized(judge.config).value, judge.env, cert.spki, ev);
  }

  /**
   A client with verification on, in any run on any network: once it has accepted a server's
   Finished under a key of one of the sessions, there is a server session that holds that key,
   whose own certificate the client was shown, and whose evidence is trusted for it.
   */
  lemma ClientReachesAttestedServer(suite: Suite, parties: seq<Party>, judge: Judge, run: seq<(nat, Input)>, i: nat)
    returns (x: nat)
    requires Setting(suite, parties) && Legal(suite, parties, Agreement.Start(|parties|), run)
    requires i < |parties| && !parties[i].isServer && Judges(parties[i], judge)
    requires Verifier.Normalized(judge.config).Ok? && !Verifier.Normalized(judge.config).value.skipVerify
    requires var s := RunAll(suite, parties, Agreement.Start(|parties|), run).sessions[i];
             |s.msgs| > 5 && s.peerKey.Some? && HonestKey(parties, s.peerKey.value)
    ensures x < |parties| && parties[x].isServer && parties[x].credential.Some?
    ensures var s := RunAll(suite, parties, Agreement.Start(|parties|), run).sessions[i];
            && s.msgs[3].body == parties[x].credential.value.certPem
            && s.peerKey.value == parties[x].credential.value.publicKey
            && Vouched(judge, s.msgs[3].body, s.peerKey.value)
  {
    Agreement.StartKeeps(suite, parties);
    Agreement.RunKeeps(suite, parties, Agreement.Start(|parties|), run);
    var w := RunAll(suite, parties, Agreement.Start(|parties|), run);
    hide RunAll;
    hide Legal;
    x := ClientFindsServer(suite, parties, w, i);
    var s, t := w.sessions[i], w.sessions[x];
    assert SessionInv(suite, parties[i], s) && SessionInv(suite, parties[x], t);
    assert s.msgs[3] == s.msgs[..5][3] == t.msgs[..5][3] == t.msgs[3];
    hide MessagesInv;
    hide Setting;
    hide Mutual;
    assert s.peerKey == AttestedKey(judge, s.msgs[3].body);
    hide AttestedKey;
    AttestedIsVouched(judge, s.msgs[3].body);
  }

  // Traffic keys ------------------------------------------------------------------------------

  function Outgoing(suite: Suite, p: Party, s: Session): Cipher {
    TrafficCiphers(suite, p, s.msgs).outgoing
  }

  function Secrets(suite: Suite, p: Party, s: Session): (bytes, bytes) {
    (OrEmpty(Secret(suite, p, s.msgs)), suite.hash(Transcript(s.msgs)))
  }

  function TrafficStream(suite: Suite, p: Party, s: Session): nat -> byte {
    suite.hkdf(Secrets(suite, p, s).0, Secrets(suite, p, s).1, Ascii("tls13-rfc8998-sm4-gcm-sm3-application"))
  }

  predicate Completed(w: World, i: nat) {
    i < |w.sessions| && w.sessions[i].status == Done
  }

  /** What a completed session's traffic key at one place of its stream is. */
  function KeyIn(suite: Suite, p: Party, s: Session, place: nat): bytes {
    Slice(TrafficStream(suite, p, s), place, KEY_SIZE)
  }

  ghost predicate FreeHash(suite: Suite, s: Session, t: Session) {
    suite.hash(Transcript(s.msgs)) == suite.hash(Transcript(t.msgs)) ==> Transcript(s.msgs) == Transcript(t.msgs)
  }

  ghost predicate FreeKeys(suite: Suite, p: Party, s: Session, q: Party, t: Session) {
    forall a, b :: a in {0, 28} && b in {0, 28} && KeyIn(suite, p, s, a) == KeyIn(suite, q, t, b) ==>
        a == b && Secrets(suite, p, s) == Secrets(suite, q, t)
  }

  /**
   Hash and key derivation as free constructors, as far as this run goes: completed sessions
   have one transcript hash only for one transcript, and one key only for one input and one
   place in the derived stream.
   */
  ghost predicate FreeConstructors(suite: Suite, parties: seq<Party>, w: World) {
    && |w.sessions| == |parties|
    && forall i: nat, j: nat :: Completed(w, i) && Completed(w, j) ==>
         && FreeHash(suite, w.sessions[i], w.sessions[j])
         && FreeKeys(suite, parties[i], w.sessions[i], parties[j], w.sessions[j])
  }

  /** Then no two completed sessions write under one key. */
  lemma OneWriter(suite: Suite, parties: seq<Party>, w: World, i: nat, j: nat)
    requires Setting(suite, parties) && WorldInv(suite, parties, w) && FreeConstructors(suite, parties, w)
    requires Completed(w, i) && Completed(w, j)
    requires Outgoing(suite, parties[i], w.sessions[i]).key == Outgoing(suite, parties[j], w.sessions[j]).key
    ensures i == j
  {
    var p, q, s, t := parties[i], parties[j], w.sessions[i], w.sessions[j];
    var a, b := if p.isServer then 28 else 0, if q.isServer then 28 else 0;
    assert KeyIn(suite, p, s, a) == KeyIn(suite, q, t, b);
    assert SessionInv(suite, p, s) && SessionInv(suite, q, t);
    hide Transcript;
    TranscriptDecodes(s.msgs, t.msgs) by { assert Transcript(s.msgs) == Transcript(t.msgs); }
    HelloOwner(suite, parties, i, j);
  }

  // Traffic -------------------------------------------------------------------------------------

  /** Everything sealed with traffic keys, and what each session has sealed, in order. */
  datatype Traffic = Traffic(log: Log, sent: seq<seq<Sealed>>)

  datatype Event =
    | Seals(i: nat, s: Sealed)
    | Reads(i: nat, size: nat, stream: Net.Stream)

  /** A completed session's cipher seals at its sequence number; anything else changes nothing. */
  function After(suite: Suite, parties: seq<Party>, w: World, t: Traffic, e: Event): (t': Traffic)
    requires |w.sessions| == |parties| == |t.sent|
    ensures |t'.sent| == |t.sent|
  {
    if e.Seals? && Completed(w, e.i) && WellSealed(e.s) && KnownType(e.s.contentType) && |t.sent[e.i]| < MAX_SEQ then
      var out := Outgoing(suite, parties[e.i], w.sessions[e.i]);
      Traffic(t.log[Entry(out.key, out.iv, |t.sent[e.i]|, e.s) := InnerOf(e.s)], t.sent[e.i := t.sent[e.i] + [e.s]])
    else t
  }

  function AfterAll(suite: Suite, parties: seq<Party>, w: World, t: Traffic, events: seq<Event>): (t': Traffic)
    requires |w.sessions| == |parties| == |t.sent|
    ensures |t'.sent| == |t.sent|
    decreases |events|
  {
    if events == [] then t else AfterAll(suite, parties, w, After(suite, parties, w, t, events[0]), events[1..])
  }

  /** Session r's reads, each against the log as it was then and whatever bytes had arrived. */
  function ReadsOf(suite: Suite, parties: seq<Party>, w: World, t: Traffic, events: seq<Event>,
      r: nat): seq<Connection.Call>
    requires |w.sessions| == |parties| == |t.sent|
    decreases |events|
  {
    if events == [] then []
    else
      var e := events[0];
      (if e.Reads? && e.i == r then [Connection.Call(e.size, e.stream, t.log)] else [])
      + ReadsOf(suite, parties, w, After(suite, parties, w, t, e), events[1..], r)
  }

  ghost predicate TrafficInv(suite: Suite, parties: seq<Party>, w: World, t: Traffic) {
    && |w.sessions| == |parties| == |t.sent|
    && forall i: nat :: Completed(w, i) ==>
         && Sealing(t.log, Outgoing(suite, parties[i], w.sessions[i]).key,
            Outgoing(suite, parties[i], w.sessions[i]).iv, t.sent[i])
         && Framing.KnownTypes(t.sent[i])
  }

  lemma EventKeeps(suite: Suite, parties: seq<Party>, w: World, t: Traffic, e: Event)
    requires Setting(suite, parties) && WorldInv(suite, parties, w) && FreeConstructors(suite, parties, w)
    requires TrafficInv(suite, parties, w, t)
    ensures TrafficInv(suite, parties, w, After(suite, parties, w, t, e))
    ensures forall i :: 0 <= i < |t.sent| ==> t.sent[i] <= After(suite, parties, w, t, e).sent[i]
  {
    hide WorldInv;
    hide FreeConstructors;
    hide Sealing;
    hide WellSealed;
    var t' := After(suite, parties, w, t, e);
    if t' != t {
      var out, sent := Outgoing(suite, parties[e.i], w.sessions[e.i]), t.sent[e.i];
      SealExtends(t.log, out.key, out.iv, sent, e.s);
      forall i: nat | Completed(w, i)
        ensures Sealing(t'.log, Outgoing(suite, parties[i], w.sessions[i]).key,
                Outgoing(suite, parties[i], w.sessions[i]).iv, t'.sent[i])
      {
        var other := Outgoing(suite, parties[i], w.sessions[i]);
        if i != e.i {
          if other.key == out.key {
            OneWriter(suite, parties, w, i, e.i);
          }
          SealElsewhere(t.log, other.key, other.iv, t.sent[i], Entry(out.key, out.iv, |sent|, e.s), InnerOf(e.s));
        }
      }
    }
  }

  lemma {:induction false} EventsKeep(suite: Suite, parties: seq<Party>, w: World, t: Traffic, events: seq<Event>,
      r: nat, x: nat)
    requires Setting(suite, parties) && WorldInv(suite, parties, w) && FreeConstructors(suite, parties, w)
    requires TrafficInv(suite, parties, w, t) && Completed(w, r) && Completed(w, x)
    ensures var t' := AfterAll(suite, parties, w, t, events);
            var out := Outgoing(suite, parties[x], w.sessions[x]);
            && TrafficInv(suite, parties, w, t') && t.sent[x] <= t'.sent[x]
            && Connection.FedBy(out.key, out.iv, t'.sent[x], ReadsOf(suite, parties, w, t, events, r))
    decreases |events|
  {
    hide WorldInv;
    hide Setting;
    hide FreeConstructors;
    hide Outgoing;
    hide After;
    var out := Outgoing(suite, parties[x], w.sessions[x]);
    assert |t.sent[x]| <= MAX_SEQ by { assert Sealing(t.log, out.key, out.iv, t.sent[x]); }
    if events != [] {
      var t1 := After(suite, parties, w, t, events[0]);
      EventKeeps(suite, parties, w, t, events[0]);
      EventsKeep(suite, parties, w, t1, events[1..], r, x);
      var sent := AfterAll(suite, parties, w, t1, events[1..]).sent[x];
      assert t.sent[x] <= t1.sent[x] <= sent;
      assert Sealing(t.log, out.key, out.iv, t.sent[x]) && t.sent[x] == sent[..|t.sent[x]|];
      FedByOneMore(out.key, out.iv, sent, t.log, |t.sent[x]|, events[0],
                   ReadsOf(suite, parties, w, t1, events[1..], r));
    }
  }

  lemma FedByOneMore(key: bytes, iv: bytes, sent: seq<Sealed>, log: Log, m: nat, e: Event, calls: seq<Connection.Call>)
    requires Connection.FedBy(key, iv, sent, calls) && m <= |sent| && Sealing(log, key, iv, sent[..m])
    ensures e.Reads? ==> Connection.FedBy(key, iv, sent, [Connection.Call(e.size, e.stream, log)] + calls)
    ensures Connection.FedBy(key, iv, sent, [] + calls)
  {
    hide Sealing;
    assert [] + calls == calls;
    if e.Reads? {
      var all := [Connection.Call(e.size, e.stream, log)] + calls;
      forall i | 0 <= i < |all|
        ensures exists m :: 0 <= m <= |sent| && Sealing(all[i].log, key, iv, sent[..m])
      {
        if i > 0 {
          assert all[i] == calls[i - 1];
        }
      }
    }
  }

  /** No traffic yet: nothing is logged under the traffic keys of completed sessions. */
  ghost predicate Quiet(suite: Suite, parties: seq<Party>, w: World, t: Traffic) {
    && |w.sessions| == |parties| == |t.sent|
    && (forall i :: 0 <= i < |t.sent| ==> t.sent[i] == [])
    && forall i: nat :: Completed(w, i) ==>
         forall q :: q in t.log ==> q.key != Outgoing(suite, parties[i], w.sessions[i]).key
  }

  /** What session r has been handed by its reads, and its reader's state after them. */
  function Received(suite: Suite, parties: seq<Party>, w: World, t: Traffic, events: seq<Event>,
      r: nat): (bytes, Connection.ReadState)
    requires |w.sessions| == |parties| == |t.sent| && r < |parties|
  {
    var c := TrafficCiphers(suite, parties[r], w.sessions[r].msgs).incoming;
    var (rs, st) := Connection.Run(c.key, c.iv, Connection.FRESH_READER, ReadsOf(suite, parties, w, t, events, r));
    (Connection.Delivered(rs), st)
  }

  lemma ReadsWhatWasWritten(suite: Suite, parties: seq<Party>, w: World, t: Traffic, events: seq<Event>, r: nat, x: nat)
    requires Setting(suite, parties) && WorldInv(suite, parties, w) && FreeConstructors(suite, parties, w)
    requires Quiet(suite, parties, w, t) && Completed(w, r) && Completed(w, x)
    requires TrafficCiphers(suite, parties[r], w.sessions[r].msgs).incoming
             == Outgoing(suite, parties[x], w.sessions[x])
    ensures var written := AfterAll(suite, parties, w, t, events).sent[x];
            var (delivered, st) := Received(suite, parties, w, t, events, r);
            && st.sequence <= |written|
            && delivered + st.buffer == Connection.AppData(written[..st.sequence])
            && delivered <= Connection.AppData(written)
  {
    hide Sealing;
    hide WorldInv;
    hide Setting;
    hide FreeConstructors;
    hide ReadsOf;
    hide AfterAll;
    var out := Outgoing(suite, parties[x], w.sessions[x]);
    forall i: nat | Completed(w, i)
      ensures Sealing(t.log, Outgoing(suite, parties[i], w.sessions[i]).key,
              Outgoing(suite, parties[i], w.sessions[i]).iv, t.sent[i])
    {
      SealingStarts(t.log, Outgoing(suite, parties[i], w.sessions[i]).key,
          Outgoing(suite, parties[i], w.sessions[i]).iv);
    }
    assert TrafficInv(suite, parties, w, t);
    EventsKeep(suite, parties, w, t, events, r, x);
    Connection.StreamSafety(out.key, out.iv, AfterAll(suite, parties, w, t, events).sent[x],
        ReadsOf(suite, parties, w, t, events, r));
  }

  /**
   The session theorem. In every run of any number of sessions on a network that chooses every
   byte, take a client that completed under a key of one of the sessions, and suppose that the
   server session it agreed with completed too. Then in all traffic that follows, with every
   session sealing and reading as it likes and the network still choosing every byte, what the
   client is handed is a prefix of what that server session wrote, and the other way round.
   */
  lemma SessionIntegrity(suite: Suite, parties: seq<Party>, run: seq<(nat, Input)>, i: nat, t: Traffic,
      events: seq<Event>) returns (x: nat)
    requires Setting(suite, parties) && Legal(suite, parties, Agreement.Start(|parties|), run)
    requires i < |parties| && !parties[i].isServer
    requires var w := RunAll(suite, parties, Agreement.Start(|parties|), run);
             && FreeConstructors(suite, parties, w) && Quiet(suite, parties, w, t)
             && Completed(w, i) && w.sessions[i].peerKey.Some? && HonestKey(parties, w.sessions[i].peerKey.value)
    ensures x < |parties| && parties[x].isServer
    ensures var w := RunAll(suite, parties, Agreement.Start(|parties|), run);
            && Owns(parties[x], w.sessions[i].peerKey.value)
            && (Completed(w, x) ==>
                  var sent := AfterAll(suite, parties, w, t, events).sent;
                  && Received(suite, parties, w, t, events, i).0 <= Connection.AppData(sent[x])
                  && Received(suite, parties, w, t, events, x).0 <= Connection.AppData(sent[i]))
  {
    Agreement.StartKeeps(suite, parties);
    Agreement.RunKeeps(suite, parties, Agreement.Start(|parties|), run);
    var w := RunAll(suite, parties, Agreement.Start(|parties|), run);
    assert SessionInv(suite, parties[i], w.sessions[i]);
    x := ClientAgreement(suite, parties, run, i);
    hide RunAll;
    hide Legal;
    hide SessionInv;
    hide WorldInv;
    hide TrafficCiphers;
    if Completed(w, x) {
      ReadsWhatWasWritten(suite, parties, w, t, events, i, x);
      ReadsWhatWasWritten(suite, parties, w, t, events, x, i);
    }
  }
}
