/**
 One client and one server over an honest network that delivers messages in order, with every
 verification and every local step succeeding. The ends are those of module Handshake; module
 Carriage puts the same exchange on bytes and records.
 */
module Liveness {
  import opened Bytes
  import opened Codec
  import opened Handshake
  import Agreement

  datatype Scene = Scene(suite: Suite, client: Party, server: Party, clientSig: bytes, serverSig: bytes)

  ghost predicate Honest(sc: Scene) {
    && Laws(sc.suite) && ValidParty(sc.client) && ValidParty(sc.server)
    && !sc.client.isServer && sc.server.isServer
    && sc.server.credential.Some?
    && (sc.client.credential.Some? <==> sc.client.hasProvider || sc.client.hasPem)
    && sc.suite.shared(sc.client.ephemeral, sc.suite.publicPoint(sc.server.ephemeral)).Some?
    && |sc.clientSig| < BODY_LIMIT && |sc.serverSig| < BODY_LIMIT
    && sc.client.attest(sc.server.credential.value.certPem).Some?
    && (sc.client.credential.Some? ==> sc.server.attest(sc.client.credential.value.certPem).Some?)
  }

  datatype Exchange = Exchange(client: Session, server: Session, toServer: seq<Message>, toClient: seq<Message>)

  const START := Exchange(FRESH, FRESH, [], [])

  /** Running, and about to read from an empty channel. */
  predicate Waiting(p: Party, s: Session, queue: seq<Message>) {
    s.status == Running && !Sends(p, s.msgs) && queue == []
  }

  predicate CanMove(p: Party, s: Session, queue: seq<Message>) {
    s.status == Running && !Waiting(p, s, queue)
  }

  /** One step of one end: its new state, its incoming queue, and what it put on the other. */
  function Act(suite: Suite, p: Party, s: Session, queue: seq<Message>,
      signature: bytes): (Session, seq<Message>, seq<Message>)
    requires Laws(suite) && CanMove(p, s, queue)
  {
    if Sends(p, s.msgs) then
      var s' := Step(suite, p, s, Goes(signature, true));
      (s', queue, s'.msgs[Agreed(s, s')..])
    else (Step(suite, p, s, Arrives(queue[0], true, false)), queue[1..], [])
  }

  function Agreed(s: Session, s': Session): (n: nat)
    ensures n <= |s'.msgs|
  {
    if |s.msgs| <= |s'.msgs| then |s.msgs| else |s'.msgs|
  }

  predicate Moves(sc: Scene, n: Exchange, clientMoves: bool) {
    if clientMoves then CanMove(sc.client, n.client, n.toClient) else CanMove(sc.server, n.server, n.toServer)
  }

  function Move(sc: Scene, n: Exchange, clientMoves: bool): Exchange
    requires Laws(sc.suite)
  {
    if clientMoves then
      if !CanMove(sc.client, n.client, n.toClient) then n
      else
        var (s, rest, out) := Act(sc.suite, sc.client, n.client, n.toClient, sc.clientSig);
        Exchange(s, n.server, n.toServer + out, rest)
    else
      if !CanMove(sc.server, n.server, n.toServer) then n
      else
        var (s, rest, out) := Act(sc.suite, sc.server, n.server, n.toServer, sc.serverSig);
        Exchange(n.client, s, rest, n.toClient + out)
  }

  function Run(sc: Scene, n: Exchange, schedule: seq<bool>): Exchange
    requires Laws(sc.suite)
    decreases |schedule|
  {
    if schedule == [] then n else Run(sc, Move(sc, n, schedule[0]), schedule[1..])
  }

  // The message list both ends are heading for -----------------------------------------

  predicate Negotiated(sc: Scene) {
    sc.client.verifyMutual || sc.server.verifyMutual
  }

  predicate Completes(sc: Scene) {
    Negotiated(sc) ==> sc.client.credential.Some?
  }

  function Opening(sc: Scene): (ms: seq<Message>)
    requires Honest(sc)
    ensures |ms| == 5
  {
    [ClientHello(sc.suite, sc.client),
     ServerHello(sc.suite, sc.server),
     Message(ENCRYPTED_EXTENSIONS, [if Negotiated(sc) then 1 else 0]),
     Message(CERTIFICATE, sc.server.credential.value.certPem),
     Message(CERTIFICATE_VERIFY, sc.serverSig)]
  }

  function ServerFlight(sc: Scene): (ms: seq<Message>)
    requires Honest(sc)
    ensures |ms| == 6
  {
    var ms := Opening(sc);
    ms + [Message(FINISHED, sc.suite.hmac(ServerFinishedKey(sc.suite, sc.server, ms), Transcript(ms)))]
  }

  function Authenticated(sc: Scene): (ms: seq<Message>)
    requires Honest(sc) && Completes(sc)
    ensures |ms| == if Negotiated(sc) then 8 else 6
  {
    if Negotiated(sc) then
      ServerFlight(sc) + [Message(CERTIFICATE, sc.client.credential.value.certPem),
                          Message(CERTIFICATE_VERIFY, sc.clientSig)]
    else ServerFlight(sc)
  }

  /** The whole exchange, or all of it that can happen when the client lacks credentials. */
  function Script(sc: Scene): (ms: seq<Message>)
    requires Honest(sc)
    ensures |ms| == if !Completes(sc) then 6 else if Negotiated(sc) then 9 else 7
  {
    if !Completes(sc) then ServerFlight(sc)
    else
      var ms := Authenticated(sc);
      ms + [Message(FINISHED, sc.suite.hmac(ClientFinishedKey(sc.suite, sc.client, ms), Transcript(ms)))]
  }

  /** Every message of the exchange is short enough for its reader. */
  ghost predicate AllReadable(sc: Scene)
    requires Honest(sc)
  {
    forall k :: 0 <= k < |Script(sc)| ==> Readable(Script(sc)[k])
  }

  /** The first message the client refuses for its length, or past the end. */
  function ClientLimit(sc: Scene): nat
    requires Honest(sc)
  {
    if !Readable(Script(sc)[3]) then 3 else if !Readable(Script(sc)[4]) then 4 else 9
  }

  function ServerLimit(sc: Scene): nat
    requires Honest(sc)
  {
    if !Completes(sc) || !Negotiated(sc) then 9
    else if !Readable(Script(sc)[6]) then 6
    else if !Readable(Script(sc)[7]) then 7
    else 9
  }

  ghost predicate ClientStatus(sc: Scene, s: Session)
    requires Honest(sc)
  {
    var a := |s.msgs|;
    && a <= ClientLimit(sc)
    && if !Completes(sc) && !sc.client.verifyMutual then
         a <= 3 && s.status == if a == 3 then Failed(MutualRequired) else Running
       else if ClientLimit(sc) < 9 then
         s.status == Running || (a == ClientLimit(sc) && s.status == Failed(ReadFailed))
       else if Completes(sc) then
         s.status == if a == |Script(sc)| then Done else Running
       else
         s.status == Running || (a == 6 && s.status == Failed(NoCredential))
  }

  ghost predicate ServerStatus(sc: Scene, s: Session)
    requires Honest(sc)
  {
    var b := |s.msgs|;
    && b <= ServerLimit(sc)
    && if ServerLimit(sc) < 9 then
         s.status == Running || (b == ServerLimit(sc) && s.status == Failed(ReadFailed))
       else
         s.status == if Completes(sc) && b == |Script(sc)| then Done else Running
  }

  /** Both transcripts are prefixes of the script and the channels hold the difference. */
  ghost predicate Inv(sc: Scene, n: Exchange)
    requires Honest(sc)
  {
    var f, a, b := Script(sc), |n.client.msgs|, |n.server.msgs|;
    && a <= |f| && b <= |f| && n.client.msgs == f[..a] && n.server.msgs == f[..b]
    && (n.client.status != Failed(ReadFailed) ==> n.toClient == if a <= b then f[a..b] else [])
    && (n.server.status != Failed(ReadFailed) ==> n.toServer == if b <= a then f[b..a] else [])
    && (a < b ==> 1 <= a && b <= 6)
    && (b < a ==> (a == 1 && b == 0) || b >= 6)
    && ClientStatus(sc, n.client) && ServerStatus(sc, n.server)
  }

  lemma Roles(sc: Scene)
    requires Honest(sc)
    ensures Laws(sc.suite) && !sc.client.isServer && sc.server.isServer && sc.server.credential.Some?
  {
  }

  /** Where the two ends are in the script, and what is under way between them. */
  lemma Positions(sc: Scene, n: Exchange)
    requires Honest(sc) && Inv(sc, n)
    ensures var f, a, b := Script(sc), |n.client.msgs|, |n.server.msgs|;
            && a <= |f| && b <= |f| && n.client.msgs == f[..a] && n.server.msgs == f[..b]
            && (n.client.status != Failed(ReadFailed) ==> n.toClient == if a <= b then f[a..b] else [])
            && (n.server.status != Failed(ReadFailed) ==> n.toServer == if b <= a then f[b..a] else [])
            && (a < b ==> 1 <= a && b <= 6)
            && (b < a ==> (a == 1 && b == 0) || b >= 6)
  {
    hide Honest;
    hide Script;
    hide ClientStatus;
    hide ServerStatus;
  }

  // The script is what the two step machines produce ---------------------------------------

  lemma ScriptPrefixes(sc: Scene)
    requires Honest(sc)
    ensures var f := Script(sc);
            && f[..5] == Opening(sc) && f[..6] == ServerFlight(sc)
            && (Completes(sc) ==> f[..|f| - 1] == Authenticated(sc))
            && f[0] == ClientHello(sc.suite, sc.client) && f[1] == ServerHello(sc.suite, sc.server)
  {
  }

  /** What both ends derive from any prefix that holds what they need. */
  lemma DerivedValues(sc: Scene, k: nat)
    requires Honest(sc) && k <= |Script(sc)|
    ensures var ms := Script(sc)[..k];
            && (k >= 1 ==> Mutual(sc.server, ms) == Negotiated(sc) && PeerPoint(sc.suite, ms[0]).Some?)
            && (k >= 3 ==> Mutual(sc.client, ms) == Negotiated(sc))
            && (k >= 2 ==> PeerPoint(sc.suite, ms[1]).Some?
                           && Secret(sc.suite, sc.client, ms).Some?
                           && Secret(sc.suite, sc.client, ms) == Secret(sc.suite, sc.server, ms)
                           && HandshakeStream(sc.suite, sc.client, ms) == HandshakeStream(sc.suite, sc.server, ms))
  {
    var ms := Script(sc)[..k];
    ScriptPrefixes(sc);
    Agreement.ShareOfHello(sc.suite, sc.client);
    Agreement.ShareOfHello(sc.suite, sc.server);
    if k >= 1 {
      assert ms[0] == Script(sc)[0];
      assert ms[0].body[SHARE_END] == if sc.client.verifyMutual then 1 else 0;
    }
    if k >= 2 {
      assert ms[1] == Script(sc)[1];
      Agreement.SameSecret(sc.suite, sc.client, sc.server, ms, ms);
    }
    if k >= 3 {
      assert ms[2] == Script(sc)[..5][2];
    }
  }

  lemma NextSent(sc: Scene, k: nat)
    requires Honest(sc) && k < |Script(sc)|
    ensures var ms := Script(sc)[..k];
            && (Sends(sc.server, ms) ==> Outgoing(sc.suite, sc.server, ms, sc.serverSig) == Ok(Script(sc)[k]))
            && (Sends(sc.client, ms) ==> Outgoing(sc.suite, sc.client, ms, sc.clientSig) == Ok(Script(sc)[k]))
            && Script(sc)[k].msgType == Agreement.TypeAt(Negotiated(sc), k)
  {
    hide Transcript;
    hide Laws;
    hide SharedSecret;
    hide PeerPoint;
    var f := Script(sc);
    var ms := f[..k];
    ScriptPrefixes(sc);
    DerivedValues(sc, k);
    if k >= 2 {
      KeysFrom(sc, k);
    }
    assert k < 6 ==> f[k] == f[..6][k];
    assert k < |f| - 1 ==> f[k] == f[..|f| - 1][k];
  }

  /** Keys do not depend on how much of the script has been exchanged. */
  lemma KeysFrom(sc: Scene, k: nat)
    requires Honest(sc) && 2 <= k <= |Script(sc)|
    ensures HandshakeStream(sc.suite, sc.server, Script(sc)[..k]) == HandshakeStream(sc.suite, sc.server, Opening(sc))
    ensures HandshakeStream(sc.suite, sc.client, Script(sc)[..k])
            == HandshakeStream(sc.suite, sc.client, Script(sc)[..|Script(sc)| - 1])
  {
    ScriptPrefixes(sc);
    Agreement.KeysStable(sc.suite, sc.server, Script(sc)[..k], Opening(sc));
    Agreement.KeysStable(sc.suite, sc.client, Script(sc)[..k], Script(sc)[..|Script(sc)| - 1]);
  }

  /** Only certificates and signatures can be too long. */
  lemma UsuallyReadable(sc: Scene, k: nat)
    requires Honest(sc) && k < |Script(sc)|
    requires k != 3 && k != 4 && (Negotiated(sc) ==> k != 6 && k != 7)
    ensures Readable(Script(sc)[k])
  {
    ScriptPrefixes(sc);
    Agreement.ShareOfHello(sc.suite, sc.client);
    Agreement.ShareOfHello(sc.suite, sc.server);
    hide ClientHello;
    hide ServerHello;
    hide Transcript;
    assert k < 6 ==> Script(sc)[k] == Script(sc)[..6][k];
  }

  lemma LimitsMean(sc: Scene)
    requires Honest(sc) && Completes(sc)
    ensures AllReadable(sc) <==> ClientLimit(sc) == 9 && ServerLimit(sc) == 9
  {
    forall k | 0 <= k < |Script(sc)| && k != 3 && k != 4 && (Negotiated(sc) ==> k != 6 && k != 7)
      ensures Readable(Script(sc)[k])
    {
      UsuallyReadable(sc, k);
    }
    hide Readable;
    assert |Script(sc)| == if Negotiated(sc) then 9 else 7;
    hide Script;
  }

  lemma NextReceived(sc: Scene, s: Session, k: nat, byServer: bool)
    requires Honest(sc) && k < |Script(sc)| && s.msgs == Script(sc)[..k] && s.status == Running
    requires Readable(Script(sc)[k])
    requires var p := if byServer then sc.server else sc.client; !Sends(p, s.msgs)
    requires !byServer ==> k < 6
    requires byServer ==> k == 0 || k >= 6
    ensures var p := if byServer then sc.server else sc.client;
            var s' := Receive(sc.suite, p, s, Script(sc)[k], true, false);
            && s'.msgs == s.msgs + [Script(sc)[k]]
            && s'.status == (if byServer && k > 0 && k == |Script(sc)| - 1 then Done
                             else if !byServer && k == 2 && !Completes(sc) && !sc.client.verifyMutual
                             then Failed(MutualRequired)
                             else Running)
  {
    hide ClientHello;
    hide ServerHello;
    hide Transcript;
    hide Secret;
    hide HandshakeStream;
    hide Readable;
    hide Script;
    hide Laws;
    var p := if byServer then sc.server else sc.client;
    var f := Script(sc);
    var m := f[k];
    ScriptPrefixes(sc);
    DerivedValues(sc, k);
    DerivedValues(sc, k + 1);
    assert f[..k + 1] == s.msgs + [m];
    NextSent(sc, k);
    if k >= 2 {
      KeysFrom(sc, k);
    }
    assert m.msgType == Expected(p, s.msgs);
  }

  lemma PrefixGrows<T>(f: seq<T>, k: nat)
    requires k < |f|
    ensures f[..k + 1] == f[..k] + [f[k]]
  {
  }

  lemma SliceGrows<T>(f: seq<T>, i: nat, k: nat)
    requires i <= k < |f|
    ensures f[i..k + 1] == f[i..k] + [f[k]]
  {
  }

  lemma SliceShrinks<T>(f: seq<T>, i: nat, k: nat)
    requires i < k <= |f|
    ensures f[i..k][0] == f[i] && f[i..k][1..] == f[i + 1..k]
  {
  }

  // What every schedule keeps ------------------------------------------------------------

  lemma ClientSends(sc: Scene, n: Exchange)
    requires Honest(sc) && Inv(sc, n) && CanMove(sc.client, n.client, n.toClient)
    requires Sends(sc.client, n.client.msgs) && |n.client.msgs| < |Script(sc)|
    ensures var m := Script(sc)[|n.client.msgs|];
            && m.msgType == Agreement.TypeAt(Negotiated(sc), |n.client.msgs|)
            && Act(sc.suite, sc.client, n.client, n.toClient, sc.clientSig) ==
               (Session(n.client.msgs + [m], if m.msgType == FINISHED then Done else Running, n.client.peerKey),
                   n.toClient, [m])
  {
    hide Script;
    hide Outgoing;
    NextSent(sc, |n.client.msgs|);
  }

  /** A client about to write has read everything the server has written. */
  lemma ClientAhead(sc: Scene, n: Exchange)
    requires Honest(sc) && Inv(sc, n) && Sends(sc.client, n.client.msgs)
    ensures var a, b := |n.client.msgs|, |n.server.msgs|; a == b == 0 || 6 <= b <= a
  {
    hide Script;
  }

  lemma ClientSendKeeps(sc: Scene, n: Exchange)
    requires Honest(sc) && Inv(sc, n) && CanMove(sc.client, n.client, n.toClient)
    requires Sends(sc.client, n.client.msgs) && |n.client.msgs| < |Script(sc)|
    ensures Inv(sc, Move(sc, n, true)) && Measure(sc, Move(sc, n, true)) < Measure(sc, n)
  {
    hide Script;
    hide Act;
    hide Laws;
    hide ValidParty;
    hide ServerStatus;
    var f, a, b := Script(sc), |n.client.msgs|, |n.server.msgs|;
    ClientSends(sc, n);
    ClientAhead(sc, n);
    PrefixGrows(f, a);
    SliceGrows(f, b, a);
    var n' := Move(sc, n, true);
    assert n'.client.msgs == f[..a + 1] && n'.server == n.server;
    assert n'.toClient == n.toClient;
    assert n.server.status != Failed(ReadFailed) ==> n'.toServer == f[b..a + 1];
    assert ClientStatus(sc, n'.client);
  }

  /** The client that lacks credentials fails when it comes to send its certificate. */
  lemma ClientGivesUp(sc: Scene, n: Exchange)
    requires Honest(sc) && Inv(sc, n) && CanMove(sc.client, n.client, n.toClient)
    requires Sends(sc.client, n.client.msgs) && |n.client.msgs| == |Script(sc)|
    ensures Inv(sc, Move(sc, n, true)) && Measure(sc, Move(sc, n, true)) < Measure(sc, n)
  {
    hide Script;
    hide HandshakeStream;
    var a := |n.client.msgs|;
    DerivedValues(sc, a);
    assert |Script(sc)| == if !Completes(sc) then 6 else if Negotiated(sc) then 9 else 7;
    assert Outgoing(sc.suite, sc.client, n.client.msgs, sc.clientSig) == Err(NoCredential);
  }

  lemma ClientReceiveKeeps(sc: Scene, n: Exchange)
    requires Honest(sc) && Inv(sc, n) && CanMove(sc.client, n.client, n.toClient)
    requires !Sends(sc.client, n.client.msgs) && |n.client.msgs| != ClientLimit(sc)
    ensures Inv(sc, Move(sc, n, true)) && Measure(sc, Move(sc, n, true)) < Measure(sc, n)
  {
    hide Script;
    hide Receive;
    hide Readable;
    hide ServerStatus;
    var f, a, b := Script(sc), |n.client.msgs|, |n.server.msgs|;
    assert |f| == if !Completes(sc) then 6 else if Negotiated(sc) then 9 else 7;
    ReadsUpToLimits(sc, a);
    NextReceived(sc, n.client, a, false);
    PrefixGrows(f, a);
    SliceShrinks(f, a, b);
  }

  /** Before its limit an end can read what is next. */
  lemma ReadsUpToLimits(sc: Scene, k: nat)
    requires Honest(sc) && k < |Script(sc)|
    ensures k < 6 && k < ClientLimit(sc) ==> Readable(Script(sc)[k])
    ensures (k == 0 || k >= 6) && k < ServerLimit(sc) ==> Readable(Script(sc)[k])
    ensures k == ClientLimit(sc) || (k == ServerLimit(sc) && k >= 6) ==> !Readable(Script(sc)[k])
  {
    if k != 3 && k != 4 && (Negotiated(sc) ==> k != 6 && k != 7) {
      UsuallyReadable(sc, k);
    }
    hide Readable;
    assert |Script(sc)| == if !Completes(sc) then 6 else if Negotiated(sc) then 9 else 7;
    hide Script;
  }

  /** At its limit an end refuses the message and fails. */
  lemma RefusalKeeps(sc: Scene, n: Exchange, clientMoves: bool)
    requires Honest(sc) && Inv(sc, n) && Moves(sc, n, clientMoves)
    requires if clientMoves then !Sends(sc.client, n.client.msgs) && |n.client.msgs| == ClientLimit(sc)
             else !Sends(sc.server, n.server.msgs) && |n.server.msgs| == ServerLimit(sc)
    ensures Inv(sc, Move(sc, n, clientMoves))
    ensures Measure(sc, Move(sc, n, clientMoves)) < Measure(sc, n)
  {
    hide Script;
    hide Readable;
    var f, a, b := Script(sc), |n.client.msgs|, |n.server.msgs|;
    var k := if clientMoves then a else b;
    assert |f| == if !Completes(sc) then 6 else if Negotiated(sc) then 9 else 7;
    assert k < |f|;
    ReadsUpToLimits(sc, k);
    if clientMoves {
      SliceShrinks(f, a, b);
      assert Act(sc.suite, sc.client, n.client, n.toClient, sc.clientSig).0 == Fail(n.client, ReadFailed);
    } else {
      SliceShrinks(f, b, a);
      assert Act(sc.suite, sc.server, n.server, n.toServer, sc.serverSig).0 == Fail(n.server, ReadFailed);
    }
  }

  lemma ServerSendKeeps(sc: Scene, n: Exchange)
    requires Honest(sc) && Inv(sc, n) && CanMove(sc.server, n.server, n.toServer)
    requires Sends(sc.server, n.server.msgs)
    ensures Inv(sc, Move(sc, n, false)) && Measure(sc, Move(sc, n, false)) < Measure(sc, n)
  {
    hide Script;
    hide Outgoing;
    var f, a, b := Script(sc), |n.client.msgs|, |n.server.msgs|;
    NextSent(sc, b);
    PrefixGrows(f, b);
    SliceGrows(f, a, b);
  }

  lemma ServerReceiveKeeps(sc: Scene, n: Exchange)
    requires Honest(sc) && Inv(sc, n) && CanMove(sc.server, n.server, n.toServer)
    requires !Sends(sc.server, n.server.msgs) && |n.server.msgs| != ServerLimit(sc)
    ensures Inv(sc, Move(sc, n, false)) && Measure(sc, Move(sc, n, false)) < Measure(sc, n)
  {
    hide Script;
    hide Receive;
    hide Readable;
    hide ClientStatus;
    var f, a, b := Script(sc), |n.client.msgs|, |n.server.msgs|;
    assert |f| == if !Completes(sc) then 6 else if Negotiated(sc) then 9 else 7;
    ReadsUpToLimits(sc, b);
    NextReceived(sc, n.server, b, true);
    PrefixGrows(f, b);
    SliceShrinks(f, b, a);
  }

  function Live(s: Session): nat {
    if s.status == Running then 1 else 0
  }

  /** Messages still to be exchanged by either end, and failures still to be noticed. */
  function Measure(sc: Scene, n: Exchange): int
    requires Honest(sc)
  {
    2 * |Script(sc)| - |n.client.msgs| - |n.server.msgs| + Live(n.client) + Live(n.server)
  }

  lemma MoveKeeps(sc: Scene, n: Exchange, clientMoves: bool)
    requires Honest(sc) && Inv(sc, n)
    ensures Inv(sc, Move(sc, n, clientMoves))
    ensures if Moves(sc, n, clientMoves) then 0 <= Measure(sc, Move(sc, n, clientMoves)) < Measure(sc, n)
            else Move(sc, n, clientMoves) == n
  {
    hide Script;
    if clientMoves && Moves(sc, n, true) {
      if Sends(sc.client, n.client.msgs) {
        if |n.client.msgs| < |Script(sc)| {
          ClientSendKeeps(sc, n);
        } else {
          ClientGivesUp(sc, n);
        }
      } else if |n.client.msgs| == ClientLimit(sc) {
        RefusalKeeps(sc, n, true);
      } else {
        ClientReceiveKeeps(sc, n);
      }
    } else if !clientMoves && Moves(sc, n, false) {
      if Sends(sc.server, n.server.msgs) {
        ServerSendKeeps(sc, n);
      } else if |n.server.msgs| == ServerLimit(sc) {
        RefusalKeeps(sc, n, false);
      } else {
        ServerReceiveKeeps(sc, n);
      }
    }
    hide Act;
  }

  lemma {:induction false} RunKeeps(sc: Scene, n: Exchange, schedule: seq<bool>)
    requires Honest(sc) && Inv(sc, n)
    ensures Inv(sc, Run(sc, n, schedule))
    decreases |schedule|
  {
    if schedule != [] {
      MoveKeeps(sc, n, schedule[0]);
      hide Inv;
      RunKeeps(sc, Move(sc, n, schedule[0]), schedule[1..]);
    }
  }

  /** Nothing can move any more. */
  predicate Stuck(sc: Scene, n: Exchange) {
    !Moves(sc, n, true) && !Moves(sc, n, false)
  }

  lemma StuckMeans(sc: Scene, n: Exchange)
    requires Honest(sc) && Inv(sc, n)
    ensures !(Waiting(sc.client, n.client, n.toClient) && Waiting(sc.server, n.server, n.toServer))
    ensures n.client.status == Done || n.server.status == Done ==> Completes(sc)
    ensures Stuck(sc, n) && !Completes(sc) ==> n.client.status.Failed? && n.server.status == Running
    ensures Stuck(sc, n) && Completes(sc) && AllReadable(sc) ==> n.client.status == Done && n.server.status == Done
    ensures Stuck(sc, n) && Completes(sc) && !AllReadable(sc) ==>
              n.client.status == Failed(ReadFailed) || n.server.status == Failed(ReadFailed)
  {
    if Completes(sc) {
      LimitsMean(sc);
    }
    DerivedValues(sc, |n.client.msgs|);
    DerivedValues(sc, |n.server.msgs|);
    hide AllReadable;
    hide Readable;
    assert |Script(sc)| == if !Completes(sc) then 6 else if Negotiated(sc) then 9 else 7;
    hide Script;
  }

  /**
   Over an honest network, for every setting of the two mutual-attestation flags and whatever
   the order of moves: both ends never wait on empty channels together; wherever both have
   settled it they agree on mutual attestation; and when nothing can move any more both have
   completed, with one transcript and mirrored ciphers, if and only if mutual attestation was
   not negotiated or the client has credentials, and every message is within the readers' limit.
   */
  lemma HonestHandshake(sc: Scene, schedule: seq<bool>)
    requires Honest(sc)
    ensures var n := Run(sc, START, schedule);
            && !(Waiting(sc.client, n.client, n.toClient) && Waiting(sc.server, n.server, n.toServer))
            && (|n.client.msgs| >= 3 && |n.server.msgs| >= 1 ==>
                  Mutual(sc.client, n.client.msgs) == Mutual(sc.server, n.server.msgs) == Negotiated(sc))
            && (Stuck(sc, n) ==>
                  (n.client.status == Done && n.server.status == Done <==>
                     (!Negotiated(sc) || sc.client.hasProvider || sc.client.hasPem) && AllReadable(sc)))
            && (n.client.status == Done && n.server.status == Done ==>
                  n.client.msgs == n.server.msgs == Script(sc)
                  && Agreement.Mirrored(TrafficCiphers(sc.suite, sc.client, n.client.msgs),
                                        TrafficCiphers(sc.suite, sc.server, n.server.msgs)))
  {
    StartKeeps(sc);
    RunKeeps(sc, START, schedule);
    var n := Run(sc, START, schedule);
    hide Run;
    EndMeans(sc, n);
  }

  lemma StartKeeps(sc: Scene)
    requires Honest(sc)
    ensures Inv(sc, START)
  {
    assert |Script(sc)| >= 6;
    hide Script;
    hide Readable;
  }

  lemma EndMeans(sc: Scene, n: Exchange)
    requires Honest(sc) && Inv(sc, n)
    ensures !(Waiting(sc.client, n.client, n.toClient) && Waiting(sc.server, n.server, n.toServer))
    ensures |n.client.msgs| >= 3 && |n.server.msgs| >= 1 ==>
              Mutual(sc.client, n.client.msgs) == Mutual(sc.server, n.server.msgs) == Negotiated(sc)
    ensures Stuck(sc, n) ==>
              (n.client.status == Done && n.server.status == Done <==> Completes(sc) && AllReadable(sc))
    ensures n.client.status == Done && n.server.status == Done ==>
              n.client.msgs == n.server.msgs == Script(sc)
              && Agreement.Mirrored(TrafficCiphers(sc.suite, sc.client, n.client.msgs),
                                    TrafficCiphers(sc.suite, sc.server, n.server.msgs))
  {
    hide Stuck;
    hide Waiting;
    hide AllReadable;
    hide Readable;
    StuckMeans(sc, n);
    DerivedValues(sc, |n.client.msgs|);
    DerivedValues(sc, |n.server.msgs|);
    if n.client.status == Done && n.server.status == Done {
      assert |n.client.msgs| == |n.server.msgs| == |Script(sc)|;
      assert Script(sc)[..|Script(sc)|] == Script(sc);
    }
  }

  /** Progress: from anywhere a run reaches, at most Measure more effective moves end it. */
  lemma {:induction false} AlwaysFinishes(sc: Scene, n: Exchange) returns (schedule: seq<bool>)
    requires Honest(sc) && Inv(sc, n)
    ensures Stuck(sc, Run(sc, n, schedule)) && |schedule| <= Measure(sc, n)
    decreases Measure(sc, n)
  {
    if Stuck(sc, n) {
      schedule := [];
    } else {
      var first := Moves(sc, n, true);
      MoveKeeps(sc, n, first);
      var rest := AlwaysFinishes(sc, Move(sc, n, first));
      schedule := [first] + rest;
    }
  }

  /** A certificate of three million bytes is sent, and its reader gives up. */
  lemma LongCertificateFails(sc: Scene, schedule: seq<bool>)
    requires Honest(sc) && |sc.server.credential.value.certPem| == 3_000_000
    ensures var n := Run(sc, START, schedule);
            && n.client.status != Done
            && (Stuck(sc, n) && Completes(sc) ==> n.client.status == Failed(ReadFailed))
  {
    StartKeeps(sc);
    RunKeeps(sc, START, schedule);
    ScriptPrefixes(sc);
    assert Script(sc)[3] == Script(sc)[..5][3];
    assert ClientLimit(sc) == 3;
    var n := Run(sc, START, schedule);
    StuckMeans(sc, n);
    hide Run;
    hide Script;
    hide ClientLimit;
    hide Readable;
  }

  /** There is such a scene: nothing in the configuration bounds a certificate. */
  lemma LongCertificateExists()
    ensures exists sc :: Honest(sc) && Completes(sc) && |sc.server.credential.value.certPem| == 3_000_000
  {
    hide Laws;
    Agreement.PlainLaws();
    var client := Party(false, 0, Zeros(RANDOM_LEN), false, false, false, None, m => Some([]));
    var credential := Credential(Zeros(3_000_000), []);
    var server := Party(true, 0, Zeros(RANDOM_LEN), false, true, false, Some(credential), m => None);
    var sc := Scene(Agreement.PlainSuite(), client, server, [], []);
    assert Honest(sc) && Completes(sc);
  }
}
