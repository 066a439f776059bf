/**
 The key schedule: which bytes of the two derived streams each key is, spelled out in the two
 ends' own secrets, randoms and messages.
 */
module Keys {
  import opened Bytes
  import opened Codec
  import opened Handshake
  import opened Agreement

  /** A client and a server over the same two hellos, each its own. */
  ghost predicate Paired(suite: Suite, c: Party, s: Party, msgs: seq<Message>, msgs': seq<Message>) {
    && Laws(suite) && ValidParty(c) && ValidParty(s) && !c.isServer && s.isServer
    && |msgs| >= 2 && |msgs'| >= 2 && msgs[..2] == msgs'[..2]
    && msgs[0] == ClientHello(suite, c) && msgs[1] == ServerHello(suite, s)
  }

  /** What both ends of a pair compute from their ephemeral keys: 32 bytes, most significant first. */
  function PairSecret(suite: Suite, c: Party, s: Party): bytes {
    match suite.shared(c.ephemeral, suite.publicPoint(s.ephemeral))
    case None => []
    case Some(x) => PutBE(x, 32)
  }

  function ApplicationStream(suite: Suite, c: Party, s: Party, msgs: seq<Message>): nat -> byte {
    suite.hkdf(PairSecret(suite, c, s), suite.hash(EncodeAll(msgs)), Ascii("tls13-rfc8998-sm4-gcm-sm3-application"))
  }

  function PairStream(suite: Suite, c: Party, s: Party): nat -> byte {
    suite.hkdf(PairSecret(suite, c, s), c.random + s.random, Ascii("tls13-rfc8998-sm4-gcm-sm3-handshake"))
  }

  lemma SlicesJoin(stream: nat -> byte, from: nat, m: nat, n: nat)
    ensures Slice(stream, from, m) + Slice(stream, from + m, n) == Slice(stream, from, m + n)
  {
  }

  lemma Secrets(suite: Suite, c: Party, s: Party, msgs: seq<Message>, msgs': seq<Message>)
    requires Paired(suite, c, s, msgs, msgs')
    ensures OrEmpty(Secret(suite, c, msgs)) == OrEmpty(Secret(suite, s, msgs')) == PairSecret(suite, c, s)
  {
    hide ClientHello;
    hide ServerHello;
    hide PeerPoint;
    ShareOfHello(suite, s);
    SameSecret(suite, c, s, msgs, msgs');
    SecretBytes(suite, c, s);
    hide SharedSecret;
    hide PairSecret;
  }

  lemma SecretBytes(suite: Suite, c: Party, s: Party)
    requires Laws(suite)
    ensures OrEmpty(SharedSecret(suite, c.ephemeral, suite.publicPoint(s.ephemeral))) == PairSecret(suite, c, s)
  {
    hide MinBytes;
    hide PutBE;
    hide Pow256;
    var x := suite.shared(c.ephemeral, suite.publicPoint(s.ephemeral));
    if x.Some? {
      MinBytesPadded(x.value, 32);
    }
  }

  lemma Randoms(suite: Suite, c: Party, s: Party, msgs: seq<Message>, msgs': seq<Message>)
    requires Paired(suite, c, s, msgs, msgs')
    ensures RandomOf(msgs, 0) == RandomOf(msgs', 0) == c.random
    ensures RandomOf(msgs, 1) == RandomOf(msgs', 1) == s.random
  {
    assert msgs'[0] == msgs'[..2][0] == msgs[0] && msgs'[1] == msgs'[..2][1] == msgs[1];
    hide EncodePoint;
    hide Coordinate;
    assert msgs[0].body[..RANDOM_LEN] == c.random;
    assert msgs[1].body[..RANDOM_LEN] == s.random;
  }

  /**
   The six handshake values, client key, client IV, server key, server IV, server Finished key,
   client Finished key, are consecutive in one stream, salted with the client's random and then
   the server's; and both ends read that stream.
   */
  lemma HandshakeKeys(suite: Suite, c: Party, s: Party, msgs: seq<Message>, msgs': seq<Message>)
    requires Paired(suite, c, s, msgs, msgs')
    ensures var stream := PairStream(suite, c, s);
            && HandshakeStream(suite, c, msgs) == HandshakeStream(suite, s, msgs') == stream
            && KeyOf(stream, false) + IVOf(stream, false) + KeyOf(stream, true) + IVOf(stream, true)
               + ServerFinishedKey(suite, c, msgs) + ClientFinishedKey(suite, c, msgs) == Slice(stream, 0, 120)
            && ServerFinishedKey(suite, s, msgs') == ServerFinishedKey(suite, c, msgs)
            && ClientFinishedKey(suite, s, msgs') == ClientFinishedKey(suite, c, msgs)
            && |KeyOf(stream, false)| == |KeyOf(stream, true)| == 16
            && |ServerFinishedKey(suite, c, msgs)| == |ClientFinishedKey(suite, c, msgs)| == 32
  {
    hide Paired;
    hide Secret;
    hide RandomOf;
    hide PairSecret;
    hide Slice;
    Secrets(suite, c, s, msgs, msgs');
    Randoms(suite, c, s, msgs, msgs');
    var stream := PairStream(suite, c, s);
    SlicesJoin(stream, 0, 16, 12);
    SlicesJoin(stream, 0, 28, 16);
    SlicesJoin(stream, 0, 44, 12);
    SlicesJoin(stream, 0, 56, 32);
    SlicesJoin(stream, 0, 88, 32);
  }

  /**
   Over one transcript, what the client writes under and what the server writes under, key and
   IV each, are the first 56 bytes of one stream, the client's first; each end reads what the
   other writes, and both start at sequence number 0.
   */
  lemma ApplicationKeys(suite: Suite, c: Party, s: Party, msgs: seq<Message>, msgs': seq<Message>)
    requires Paired(suite, c, s, msgs, msgs') && Transcript(msgs) == Transcript(msgs')
    ensures var stream := ApplicationStream(suite, c, s, msgs);
            var cc, ss := TrafficCiphers(suite, c, msgs), TrafficCiphers(suite, s, msgs');
            && cc.outgoing.key + cc.outgoing.iv + ss.outgoing.key + ss.outgoing.iv == Slice(stream, 0, 56)
            && |cc.outgoing.key| == |ss.outgoing.key| == 16 && |cc.outgoing.iv| == |ss.outgoing.iv| == 12
            && Mirrored(cc, ss)
  {
    hide Paired;
    hide Secret;
    hide PairSecret;
    hide Slice;
    hide EncodeAll;
    Secrets(suite, c, s, msgs, msgs');
    PairRoles(suite, c, s, msgs, msgs');
    var stream := ApplicationStream(suite, c, s, msgs);
    SlicesJoin(stream, 0, 16, 12);
    SlicesJoin(stream, 0, 28, 16);
    SlicesJoin(stream, 0, 44, 12);
  }

  lemma PairRoles(suite: Suite, c: Party, s: Party, msgs: seq<Message>, msgs': seq<Message>)
    requires Paired(suite, c, s, msgs, msgs')
    ensures !c.isServer && s.isServer
  {
  }

  /**
   In every run: a client and the server session it agreed with that both completed write under
   the bytes that the schedule gives to them, of a stream that belongs to their two ephemeral
   keys and their one transcript.
   */
  lemma AgreedKeys(suite: Suite, parties: seq<Party>, run: seq<(nat, Input)>, i: nat) returns (x: nat)
    requires Setting(suite, parties) && Legal(suite, parties, Start(|parties|), run)
    requires i < |parties| && !parties[i].isServer
    requires var s := RunAll(suite, parties, Start(|parties|), run).sessions[i];
             s.status == Done && s.peerKey.Some? && HonestKey(parties, s.peerKey.value)
    ensures x < |parties| && parties[x].isServer
    ensures var w := RunAll(suite, parties, Start(|parties|), run);
            && Owns(parties[x], w.sessions[i].peerKey.value)
            && (w.sessions[x].status == Done ==>
                  var stream := ApplicationStream(suite, parties[i], parties[x], w.sessions[i].msgs);
                  var cc := TrafficCiphers(suite, parties[i], w.sessions[i].msgs);
                  var ss := TrafficCiphers(suite, parties[x], w.sessions[x].msgs);
                  && cc.outgoing.key + cc.outgoing.iv + ss.outgoing.key + ss.outgoing.iv == Slice(stream, 0, 56)
                  && Mirrored(cc, ss))
  {
    hide *;
    Reached(suite, parties, run);
    var w := RunAll(suite, parties, Start(|parties|), run);
    SessionOf(suite, parties, w, i);
    DoneIsLong(suite, parties[i], w.sessions[i]);
    x := ClientAgreement(suite, parties, run, i);
    if w.sessions[x].status == Done {
      PairOf(suite, parties, w, i, x);
      ApplicationKeys(suite, parties[i], parties[x], w.sessions[i].msgs, w.sessions[x].msgs);
    }
  }

  lemma DoneIsLong(suite: Suite, p: Party, s: Session)
    requires Laws(suite) && SessionInv(suite, p, s) && s.status == Done
    ensures |s.msgs| > 5
  {
    hide MessagesInv;
    hide OwnMessages;
  }

  lemma PairOf(suite: Suite, parties: seq<Party>, w: World, i: nat, x: nat)
    requires Setting(suite, parties) && WorldInv(suite, parties, w) && i < |parties| && x < |parties|
    requires !parties[i].isServer && parties[x].isServer
    requires |w.sessions[i].msgs| > 5 && w.sessions[i].msgs == w.sessions[x].msgs
    ensures Paired(suite, parties[i], parties[x], w.sessions[i].msgs, w.sessions[x].msgs)
  {
    hide Setting;
    hide WorldInv;
    hide SessionInv;
    hide ClientHello;
    hide ServerHello;
    SessionOf(suite, parties, w, i);
    SessionOf(suite, parties, w, x);
    OwnHello(suite, parties[i], w.sessions[i]);
    OwnHello(suite, parties[x], w.sessions[x]);
  }
}
