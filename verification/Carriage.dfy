/**
 The honest handshake of module Liveness put on bytes: hellos in plaintext records, everything
 else cut into sealed ones, and both ends reading with the readers of module Framing. Every
 byte-level run goes through the same sessions as the message-level one.
 */
module Carriage {
  import opened Bytes
  import opened Record
  import opened Codec
  import opened Net
  import opened Framing
  import opened Handshake
  import opened Liveness
  import Agreement

  /** One direction: what its writer has sealed, and the reader's side of the connection. */
  datatype Pipe = Pipe(log: Log, history: seq<Sealed>, pending: bytes, buffer: bytes, taken: nat)

  datatype Ends = Ends(client: Session, server: Session, toServer: Pipe, toClient: Pipe)

  const EMPTY := Pipe(map[], [], [], [], 0)
  const OPENED := Ends(FRESH, FRESH, EMPTY, EMPTY)

  /** SM4-GCM's ciphertext for a key, a nonce and an inner plaintext. */
  type Cryptor = (bytes, bytes, bytes) -> bytes

  ghost predicate Expands(c: Cryptor) {
    forall key, nonce, inner :: |c(key, nonce, inner)| == |inner| + TAG_SIZE
  }

  // The ends' actions -------------------------------------------------------------------

  /** The record that one chunk of a handshake message goes out in. */
  function SealedChunk(c: Cryptor, key: bytes, iv: bytes, sequence: nat, chunk: bytes): Sealed
    requires ValidIV(iv)
  {
    Sealed(HANDSHAKE, chunk, 0, c(key, Nonce(iv, sequence), Inner(HANDSHAKE, chunk, 0)))
  }

  /** writeEncryptedHandshakeMsg's records: one per chunk, under consecutive nonces. */
  function SealAll(c: Cryptor, key: bytes, iv: bytes, log: Log, sequence: nat, chunks: seq<bytes>): (Log, seq<Sealed>)
    requires ValidIV(iv)
    decreases |chunks|
  {
    if chunks == [] then (log, [])
    else
      var s := SealedChunk(c, key, iv, sequence, chunks[0]);
      var log' := log[Entry(key, iv, sequence, s) := Inner(HANDSHAKE, chunks[0], 0)];
      var (last, rest) := SealAll(c, key, iv, log', sequence + 1, chunks[1..]);
      (last, [s] + rest)
  }

  function Hello(sent: seq<Message>): bool {
    |sent| <= 1
  }

  /** Writing m after the messages `sent`, with the keys a session derives from them. */
  function Write(c: Cryptor, stream: nat -> byte, byServer: bool, sent: seq<Message>, m: Message, pipe: Pipe): Pipe {
    if Hello(sent) then pipe.(pending := pipe.pending + PlainRecord(Encode(m)))
    else
      var (log, recs) := SealAll(c, KeyOf(stream, byServer), IVOf(stream, byServer), pipe.log, |pipe.history|,
          Chunks(Encode(m)));
      pipe.(log := log, history := pipe.history + recs, pending := pipe.pending + WireAll(recs))
  }

  /** Reading one message; what is pending is all there will be until the peer writes again. */
  function Read(stream: nat -> byte, fromServer: bool, sent: seq<Message>, pipe: Pipe): (Input, Pipe) {
    var s := Stream(pipe.pending, Closed);
    if Hello(sent) then
      var (r, rest) := ReadPlain([], s);
      (if r.Ok? then Arrives(r.value, true, false) else ReadFails, pipe.(pending := rest.pending))
    else
      var (r, rd) := ReadNext(pipe.log, KeyOf(stream, fromServer), IVOf(stream, fromServer),
          Reader(pipe.buffer, pipe.taken, s));
      (if r.Ok? then Arrives(r.value, true, rd.buffer != []) else ReadFails,
       pipe.(pending := rd.stream.pending, buffer := rd.buffer, taken := rd.sequence))
  }

  /** An end moves when it runs and has something to write or something to read. */
  predicate Able(p: Party, s: Session, incoming: Pipe) {
    s.status == Running && (Sends(p, s.msgs) || incoming.pending != [])
  }

  function ActOnBytes(suite: Suite, c: Cryptor, p: Party, s: Session, incoming: Pipe, outgoing: Pipe,
      signature: bytes): (Session, Pipe, Pipe)
    requires Laws(suite)
  {
    var stream := HandshakeStream(suite, p, s.msgs);
    if !Able(p, s, incoming) then (s, incoming, outgoing)
    else if Sends(p, s.msgs) then
      var s' := Step(suite, p, s, Goes(signature, true));
      (s', incoming,
       if |s'.msgs| > |s.msgs| then Write(c, stream, p.isServer, s.msgs, s'.msgs[|s.msgs|], outgoing) else outgoing)
    else
      var (input, rest) := Read(stream, !p.isServer, s.msgs, incoming);
      (Step(suite, p, s, input), rest, outgoing)
  }

  function MoveOnBytes(sc: Scene, c: Cryptor, e: Ends, clientMoves: bool): Ends
    requires Laws(sc.suite)
  {
    if clientMoves then
      var (s, incoming, outgoing) := ActOnBytes(sc.suite, c, sc.client, e.client, e.toClient, e.toServer, sc.clientSig);
      Ends(s, e.server, outgoing, incoming)
    else
      var (s, incoming, outgoing) := ActOnBytes(sc.suite, c, sc.server, e.server, e.toServer, e.toClient, sc.serverSig);
      Ends(e.client, s, incoming, outgoing)
  }

  function RunOnBytes(sc: Scene, c: Cryptor, e: Ends, schedule: seq<bool>): Ends
    requires Laws(sc.suite)
    decreases |schedule|
  {
    if schedule == [] then e else RunOnBytes(sc, c, MoveOnBytes(sc, c, e, schedule[0]), schedule[1..])
  }

  predicate StuckOnBytes(sc: Scene, e: Ends) {
    !Able(sc.client, e.client, e.toClient) && !Able(sc.server, e.server, e.toServer)
  }

  // What a pipe holds -------------------------------------------------------------------

  /** The pending bytes, over these unread records, are these messages and nothing else. */
  ghost predicate Loaded(unread: seq<Sealed>, pending: bytes, queue: seq<Message>, hellos: nat)
    decreases |queue|
  {
    if queue == [] then unread == [] && pending == []
    else if hellos > 0 then
      var w := PlainRecord(Encode(queue[0]));
      |Encode(queue[0])| <= MAX_PLAINTEXT && w <= pending && Loaded(unread, pending[|w|..], queue[1..], hellos - 1)
    else
      var n := |Chunks(Encode(queue[0]))|;
      && n <= |unread|
      && CarryChunks(unread[..n], HANDSHAKE, Chunks(Encode(queue[0])))
      && WireAll(unread[..n]) <= pending
      && Loaded(unread[n..], pending[|WireAll(unread[..n])|..], queue[1..], 0)
  }

  ghost predicate PipeInv(pipe: Pipe, key: bytes, iv: bytes, queue: seq<Message>, hellos: nat) {
    && Sealing(pipe.log, key, iv, pipe.history)
    && pipe.taken <= |pipe.history|
    && pipe.buffer == []
    && Loaded(pipe.history[pipe.taken..], pipe.pending, queue, hellos)
  }

  lemma SealStep(c: Cryptor, key: bytes, iv: bytes, log: Log, sent: seq<Sealed>, chunk: bytes)
    requires Expands(c) && Sealing(log, key, iv, sent) && |sent| < MAX_SEQ && |chunk| <= MAX_PLAINTEXT
    ensures ValidIV(iv)
    ensures var s := SealedChunk(c, key, iv, |sent|, chunk);
            Sealing(log[Entry(key, iv, |sent|, s) := Inner(HANDSHAKE, chunk, 0)], key, iv, sent + [s])
  {
    assert ValidIV(iv);
    var s := SealedChunk(c, key, iv, |sent|, chunk);
    assert WellSealed(s) && InnerOf(s) == Inner(HANDSHAKE, chunk, 0);
    hide *;
    SealExtends(log, key, iv, sent, s);
  }

  lemma CarryHead(s: Sealed, rest: seq<Sealed>, chunks: seq<bytes>)
    requires chunks != [] && s.contentType == HANDSHAKE && s.plaintext == chunks[0] && s.padding == 0
    requires CarryChunks(rest, HANDSHAKE, chunks[1..])
    ensures CarryChunks([s] + rest, HANDSHAKE, chunks)
  {
  }

  lemma {:induction false} SealAllCarries(c: Cryptor, key: bytes, iv: bytes, log: Log, sent: seq<Sealed>,
      chunks: seq<bytes>)
    requires Expands(c) && Sealing(log, key, iv, sent) && |sent| + |chunks| <= MAX_SEQ
    requires forall i :: 0 <= i < |chunks| ==> |chunks[i]| <= MAX_PLAINTEXT
    ensures ValidIV(iv)
    ensures var (log', recs) := SealAll(c, key, iv, log, |sent|, chunks);
            Sealing(log', key, iv, sent + recs) && CarryChunks(recs, HANDSHAKE, chunks)
    decreases |chunks|
  {
    hide Inner;
    hide Nonce;
    hide Expands;
    assert ValidIV(iv);
    if chunks == [] {
      assert sent + [] == sent;
    } else {
      var s := SealedChunk(c, key, iv, |sent|, chunks[0]);
      var log' := log[Entry(key, iv, |sent|, s) := Inner(HANDSHAKE, chunks[0], 0)];
      SealStep(c, key, iv, log, sent, chunks[0]);
      SealAllCarries(c, key, iv, log', sent + [s], chunks[1..]);
      var rest := SealAll(c, key, iv, log', |sent| + 1, chunks[1..]).1;
      ConcatAssociates(sent, [s], rest);
      CarryHead(s, rest, chunks);
    }
  }

  lemma {:induction false} FewChunks(s: bytes)
    ensures |Chunks(s)| <= |s|
    decreases |s|
  {
    if |s| > MAX_PLAINTEXT {
      FewChunks(s[MAX_PLAINTEXT..]);
    }
  }

  lemma LoadedEmpty(unread: seq<Sealed>, pending: bytes, queue: seq<Message>, hellos: nat)
    requires Loaded(unread, pending, queue, hellos)
    ensures pending == [] <==> queue == []
  {
    hide CarryChunks;
    if queue != [] && hellos == 0 {
      var e := Encode(queue[0]);
      var n := |Chunks(e)|;
      assert n > 0 && WireAll(unread[..n]) == Wire(unread[..n][0]) + WireAll(unread[..n][1..]);
    }
  }

  lemma LoadedHello(m: Message)
    requires |Encode(m)| <= MAX_PLAINTEXT
    ensures Loaded([], PlainRecord(Encode(m)), [m], 1)
  {
    hide Encode;
    var w := PlainRecord(Encode(m));
    assert w[|w|..] == [];
    assert [m][1..] == [];
  }

  lemma {:induction false} LoadedAppend(unread: seq<Sealed>, pending: bytes, queue: seq<Message>, hellos: nat,
      m: Message, recs: seq<Sealed>)
    requires Loaded(unread, pending, queue, hellos) && hellos <= |queue|
    requires CarryChunks(recs, HANDSHAKE, Chunks(Encode(m)))
    ensures Loaded(unread + recs, pending + WireAll(recs), queue + [m], hellos)
    decreases |queue|
  {
    if queue == [] {
      LoadedAlone(recs, m);
      assert [] + recs == recs && [] + WireAll(recs) == WireAll(recs) && [] + [m] == [m];
    } else {
      ConcatHead(queue, [m]);
      var n := if hellos > 0 then 0 else |Chunks(Encode(queue[0]))|;
      var w := if hellos > 0 then PlainRecord(Encode(queue[0])) else WireAll(unread[..n]);
      LoadedAppend(unread[n..], pending[|w|..], queue[1..], if hellos > 0 then hellos - 1 else 0, m, recs);
      TakenOff(unread, recs, n);
      TakenOff(pending, WireAll(recs), |w|);
      hide Encode;
      hide Chunks;
      hide CarryChunks;
      hide WireAll;
      hide PlainRecord;
      assert unread[0..] == unread && (unread + recs)[0..] == unread + recs;
    }
  }

  lemma LoadedAlone(recs: seq<Sealed>, m: Message)
    requires CarryChunks(recs, HANDSHAKE, Chunks(Encode(m)))
    ensures Loaded(recs, WireAll(recs), [m], 0)
  {
    hide Chunks;
    hide Encode;
    var n := |Chunks(Encode(m))|;
    assert |recs| == n && recs[..n] == recs && recs[n..] == [];
    assert WireAll(recs)[|WireAll(recs)|..] == [] && [m][1..] == [];
    assert Loaded([], [], [], 0);
  }

  lemma TakenOff<T>(s: seq<T>, more: seq<T>, n: nat)
    requires n <= |s|
    ensures (s + more)[..n] == s[..n] && (s + more)[n..] == s[n..] + more
  {
  }

  // Writing and reading keep pipes in order --------------------------------------------------

  lemma WriteKeeps(c: Cryptor, stream: nat -> byte, byServer: bool, sent: seq<Message>, m: Message, pipe: Pipe,
      queue: seq<Message>, hellos: nat)
    requires Expands(c) && PipeInv(pipe, KeyOf(stream, byServer), IVOf(stream, byServer), queue, hellos)
    requires |pipe.history| + |Encode(m)| <= MAX_SEQ
    requires if Hello(sent) then queue == [] && hellos == 1 && |Encode(m)| <= MAX_PLAINTEXT else hellos <= |queue|
    ensures var pipe' := Write(c, stream, byServer, sent, m, pipe);
            && PipeInv(pipe', KeyOf(stream, byServer), IVOf(stream, byServer), queue + [m], hellos)
            && |pipe'.history| <= |pipe.history| + |Encode(m)|
  {
    var key, iv := KeyOf(stream, byServer), IVOf(stream, byServer);
    hide KeyOf;
    hide IVOf;
    if Hello(sent) {
      LoadedHello(m);
      assert [] + PlainRecord(Encode(m)) == PlainRecord(Encode(m)) && [] + [m] == [m];
      hide Sealing;
      hide Encode;
    } else {
      var chunks := Chunks(Encode(m));
      FewChunks(Encode(m));
      SealAllCarries(c, key, iv, pipe.log, pipe.history, chunks);
      var recs := SealAll(c, key, iv, pipe.log, |pipe.history|, chunks).1;
      LoadedAppend(pipe.history[pipe.taken..], pipe.pending, queue, hellos, m, recs);
      TakenOff(pipe.history, recs, pipe.taken);
      hide Sealing;
      hide SealAll;
      hide Loaded;
      hide Encode;
      hide Chunks;
    }
  }

  /** The next sealed message, its records, and what is left behind them. */
  lemma NextLoaded(pipe: Pipe, key: bytes, iv: bytes, queue: seq<Message>)
    returns (n: nat, recs: seq<Sealed>, tail: bytes)
    requires PipeInv(pipe, key, iv, queue, 0) && queue != []
    ensures ValidIV(iv) && Sealing(pipe.log, key, iv, pipe.history)
    ensures CarryChunks(recs, HANDSHAKE, Chunks(Encode(queue[0])))
    ensures Reader(pipe.buffer, pipe.taken, Stream(pipe.pending, Closed))
              == Reader([], pipe.taken, Stream(WireAll(recs) + tail, Closed))
    ensures n == pipe.taken + |recs| <= |pipe.history| && pipe.history[pipe.taken..n] == recs
    ensures Loaded(pipe.history[n..], tail, queue[1..], 0)
    ensures Readable(queue[0]) <==> |Encode(queue[0])| <= BUFFER_LIMIT
  {
    assert ValidIV(iv);
    hide Sealing;
    hide Encode;
    hide Chunks;
    hide CarryChunks;
    hide WireAll;
    var unread := pipe.history[pipe.taken..];
    recs := unread[..|Chunks(Encode(queue[0]))|];
    n := pipe.taken + |recs|;
    tail := pipe.pending[|WireAll(recs)|..];
    assert pipe.history[pipe.taken..n] == recs;
    assert pipe.history[n..] == unread[|recs|..];
  }

  /** What the sealed reader makes of a loaded pipe. */
  lemma SealedReads(pipe: Pipe, key: bytes, iv: bytes, queue: seq<Message>) returns (n: nat, tail: bytes)
    requires PipeInv(pipe, key, iv, queue, 0) && queue != [] && |queue[0].body| < BODY_LIMIT
    ensures ValidIV(iv)
    ensures pipe.taken <= n <= |pipe.history| && Loaded(pipe.history[n..], tail, queue[1..], 0)
    ensures var rd := Reader(pipe.buffer, pipe.taken, Stream(pipe.pending, Closed));
            var (r, rd') := ReadNext(pipe.log, key, iv, rd);
            if Readable(queue[0]) then r == Ok(queue[0]) && rd' == Reader([], n, Stream(tail, Closed)) else r.Err?
  {
    hide *;
    var recs;
    n, recs, tail := NextLoaded(pipe, key, iv, queue);
    WriterReaderRoundTrip(pipe.log, key, iv, pipe.history, pipe.taken, recs, queue[0], tail, Closed);
  }

  lemma SealedReadKeeps(stream: nat -> byte, fromServer: bool, sent: seq<Message>, pipe: Pipe, queue: seq<Message>)
    requires PipeInv(pipe, KeyOf(stream, fromServer), IVOf(stream, fromServer), queue, 0)
    requires !Hello(sent) && queue != [] && |queue[0].body| < BODY_LIMIT
    ensures var (input, pipe') := Read(stream, fromServer, sent, pipe);
            if Readable(queue[0]) then
              && input == Arrives(queue[0], true, false)
              && PipeInv(pipe', KeyOf(stream, fromServer), IVOf(stream, fromServer), queue[1..], 0)
              && pipe'.history == pipe.history
            else input == ReadFails
  {
    hide KeyOf;
    hide IVOf;
    hide ReadNext;
    hide Sealing;
    hide Loaded;
    hide Readable;
    var n, tail := SealedReads(pipe, KeyOf(stream, fromServer), IVOf(stream, fromServer), queue);
  }

  /** The reader gets the next message whole, exactly when it is short enough to be read. */
  lemma ReadKeeps(stream: nat -> byte, fromServer: bool, sent: seq<Message>, pipe: Pipe, queue: seq<Message>)
    requires PipeInv(pipe, KeyOf(stream, fromServer), IVOf(stream, fromServer), queue, if Hello(sent) then 1 else 0)
    requires queue != [] && |queue[0].body| < BODY_LIMIT
    ensures var (input, pipe') := Read(stream, fromServer, sent, pipe);
            if Readable(queue[0]) then
              && input == Arrives(queue[0], true, false)
              && PipeInv(pipe', KeyOf(stream, fromServer), IVOf(stream, fromServer), queue[1..], 0)
              && pipe'.history == pipe.history
            else input == ReadFails
  {
    if Hello(sent) {
      var m := queue[0];
      var w := PlainRecord(Encode(m));
      var tail := pipe.pending[|w|..];
      assert pipe.pending == w + tail;
      hide Encode;
      hide KeyOf;
      hide IVOf;
      hide ReadPlain;
      hide Sealing;
      hide PlainRecord;
      PlaintextRoundTrip(m, tail, Closed);
    } else {
      hide PipeInv;
      hide Read;
      hide Readable;
      SealedReadKeeps(stream, fromServer, sent, pipe, queue);
    }
  }

  // The two machines run alike ----------------------------------------------------------------

  /** The key stream both ends hold once the hellos are exchanged. */
  function SceneStream(sc: Scene): nat -> byte
    requires Honest(sc)
  {
    HandshakeStream(sc.suite, sc.server, Opening(sc))
  }

  lemma StreamIs(sc: Scene, k: nat)
    requires Honest(sc) && 2 <= k <= |Script(sc)|
    ensures HandshakeStream(sc.suite, sc.client, Script(sc)[..k]) == SceneStream(sc)
    ensures HandshakeStream(sc.suite, sc.server, Script(sc)[..k]) == SceneStream(sc)
  {
    DerivedValues(sc, k);
    KeysFrom(sc, k);
  }

  /** Whether this direction's hello is still to be read, by an end that has so many messages. */
  function Hellos(fromServer: bool, read: nat): nat {
    if read == 0 || (read == 1 && fromServer) then 1 else 0
  }

  ghost predicate PipeOf(sc: Scene, pipe: Pipe, fromServer: bool, queue: seq<Message>, sent: nat, read: nat)
    requires Honest(sc)
  {
    && PipeInv(pipe, KeyOf(SceneStream(sc), fromServer), IVOf(SceneStream(sc), fromServer), queue,
       Hellos(fromServer, read))
    && |pipe.history| <= sent * (BODY_LIMIT + MESSAGE_HEADER_LEN)
  }

  /** The sessions are those of the message-level network, and the pipes hold its queues. */
  ghost predicate Same(sc: Scene, e: Ends, n: Exchange)
    requires Honest(sc)
  {
    && e.client == n.client && e.server == n.server
    && (n.client.status != Failed(ReadFailed) ==>
          PipeOf(sc, e.toClient, true, n.toClient, |n.server.msgs|, |n.client.msgs|))
    && (n.server.status != Failed(ReadFailed) ==>
          PipeOf(sc, e.toServer, false, n.toServer, |n.client.msgs|, |n.server.msgs|))
  }

  lemma ScriptIsShort(sc: Scene, k: nat)
    requires Honest(sc) && k < |Script(sc)|
    ensures |Script(sc)[k].body| < BODY_LIMIT
    ensures k <= 1 ==> |Encode(Script(sc)[k])| <= MAX_PLAINTEXT
  {
    hide ClientHello;
    hide ServerHello;
    hide Transcript;
    hide PeerPoint;
    hide Secret;
    hide HandshakeStream;
    hide EncodePoint;
    ScriptPrefixes(sc);
    Agreement.ShareOfHello(sc.suite, sc.client);
    Agreement.ShareOfHello(sc.suite, sc.server);
    assert k < 5 ==> Script(sc)[k] == Script(sc)[..5][k];
    assert k < 6 ==> Script(sc)[k] == Script(sc)[..6][k];
  }

  lemma SameAble(sc: Scene, e: Ends, n: Exchange)
    requires Honest(sc) && Same(sc, e, n)
    ensures Able(sc.client, e.client, e.toClient) <==> Moves(sc, n, true)
    ensures Able(sc.server, e.server, e.toServer) <==> Moves(sc, n, false)
  {
    hide Sealing;
    hide Loaded;
    hide SceneStream;
    if n.client.status != Failed(ReadFailed) {
      LoadedEmpty(e.toClient.history[e.toClient.taken..], e.toClient.pending, n.toClient,
          Hellos(true, |n.client.msgs|));
    }
    if n.server.status != Failed(ReadFailed) {
      LoadedEmpty(e.toServer.history[e.toServer.taken..], e.toServer.pending, n.toServer,
          Hellos(false, |n.server.msgs|));
    }
  }

  lemma PipeGrows(sc: Scene, c: Cryptor, stream: nat -> byte, pipe: Pipe, fromServer: bool, queue: seq<Message>,
      sent: seq<Message>, read: nat)
    requires Honest(sc) && Expands(c) && |sent| < |Script(sc)| && sent == Script(sc)[..|sent|]
    requires PipeOf(sc, pipe, fromServer, queue, |sent|, read)
    requires |sent| >= 2 ==> stream == SceneStream(sc)
    requires if Hello(sent) then queue == [] && Hellos(fromServer, read) == 1 else Hellos(fromServer, read) <= |queue|
    ensures var m := Script(sc)[|sent|];
            PipeOf(sc, Write(c, stream, fromServer, sent, m, pipe), fromServer, queue + [m], |sent| + 1, read)
  {
    var m := Script(sc)[|sent|];
    ScriptIsShort(sc, |sent|);
    assert |Script(sc)| <= 9;
    hide Script;
    hide PipeInv;
    hide Encode;
    hide SceneStream;
    assert |Encode(m)| <= BODY_LIMIT + MESSAGE_HEADER_LEN;
    if Hello(sent) {
      WriteKeeps(c, SceneStream(sc), fromServer, sent, m, pipe, queue, Hellos(fromServer, read));
    } else {
      WriteKeeps(c, stream, fromServer, sent, m, pipe, queue, Hellos(fromServer, read));
    }
  }

  /** The other direction's pipe is not touched by a message counted as sent or read. */
  lemma PipeWaits(sc: Scene, pipe: Pipe, fromServer: bool, queue: seq<Message>, sent: nat, read: nat)
    requires Honest(sc) && PipeOf(sc, pipe, fromServer, queue, sent, read)
    ensures PipeOf(sc, pipe, fromServer, queue, sent + 1, read)
    ensures Hellos(fromServer, read + 1) == Hellos(fromServer, read) ==>
            PipeOf(sc, pipe, fromServer, queue, sent, read + 1)
  {
    hide PipeInv;
    hide SceneStream;
    hide Honest;
  }

  lemma ClientWritesAlike(sc: Scene, c: Cryptor, e: Ends, n: Exchange)
    requires Honest(sc) && Expands(c) && Inv(sc, n) && Same(sc, e, n)
    requires Moves(sc, n, true) && Sends(sc.client, n.client.msgs) && |n.client.msgs| < |Script(sc)|
    ensures Same(sc, MoveOnBytes(sc, c, e, true), Move(sc, n, true))
  {
    hide Honest;
    hide Script;
    hide PipeOf;
    hide Write;
    hide HandshakeStream;
    hide Send;
    hide Inv;
    hide PipeInv;
    hide SceneStream;
    var a := |n.client.msgs|;
    Roles(sc);
    Positions(sc, n);
    SameAble(sc, e, n);
    ClientSends(sc, n);
    ClientAhead(sc, n);
    if a >= 2 {
      StreamIs(sc, a);
    }
    var m, stream := Script(sc)[a], HandshakeStream(sc.suite, sc.client, n.client.msgs);
    var e', n' := MoveOnBytes(sc, c, e, true), Move(sc, n, true);
    assert n'.toServer == n.toServer + [m] && n'.client.msgs == n.client.msgs + [m];
    assert e'.client.msgs[a] == m;
    assert e'.toServer == Write(c, stream, false, n.client.msgs, m, e.toServer);
    if n.server.status != Failed(ReadFailed) {
      PipeGrows(sc, c, stream, e.toServer, false, n.toServer, n.client.msgs, |n.server.msgs|);
    }
    PipeWaits(sc, e.toClient, true, n.toClient, |n.server.msgs|, a);
  }

  lemma ClientGivesUpAlike(sc: Scene, c: Cryptor, e: Ends, n: Exchange)
    requires Honest(sc) && Inv(sc, n) && Same(sc, e, n)
    requires Moves(sc, n, true) && Sends(sc.client, n.client.msgs) && |n.client.msgs| == |Script(sc)|
    ensures Same(sc, MoveOnBytes(sc, c, e, true), Move(sc, n, true))
  {
    hide Honest;
    hide Script;
    hide PipeOf;
    hide Write;
    hide HandshakeStream;
    hide Send;
    hide Inv;
    Roles(sc);
    SameAble(sc, e, n);
    GivesUp(sc, n);
    assert n.client.msgs[|n.client.msgs|..] == [];
    assert n.toServer + [] == n.toServer;
  }

  lemma GivesUp(sc: Scene, n: Exchange)
    requires Honest(sc) && Inv(sc, n) && n.client.status == Running && |n.client.msgs| == |Script(sc)|
    ensures Sends(sc.client, n.client.msgs)
    ensures Step(sc.suite, sc.client, n.client, Goes(sc.clientSig, true)) == Fail(n.client, NoCredential)
  {
    hide Script;
    hide HandshakeStream;
    hide Readable;
    DerivedValues(sc, |n.client.msgs|);
    assert |Script(sc)| == if !Completes(sc) then 6 else if Negotiated(sc) then 9 else 7;
  }

  lemma ServerWritesAlike(sc: Scene, c: Cryptor, e: Ends, n: Exchange)
    requires Honest(sc) && Expands(c) && Inv(sc, n) && Same(sc, e, n)
    requires Moves(sc, n, false) && Sends(sc.server, n.server.msgs)
    ensures Same(sc, MoveOnBytes(sc, c, e, false), Move(sc, n, false))
  {
    hide Honest;
    hide Script;
    hide PipeOf;
    hide Write;
    hide HandshakeStream;
    hide Outgoing;
    hide Inv;
    hide PipeInv;
    hide SceneStream;
    var b := |n.server.msgs|;
    Roles(sc);
    Positions(sc, n);
    SameAble(sc, e, n);
    assert 1 <= b < 6 <= |Script(sc)|;
    NextSent(sc, b);
    if b >= 2 {
      StreamIs(sc, b);
    }
    if n.client.status != Failed(ReadFailed) {
      PipeGrows(sc, c, HandshakeStream(sc.suite, sc.server, n.server.msgs), e.toClient, true, n.toClient,
          n.server.msgs, |n.client.msgs|);
    }
    if n.server.status != Failed(ReadFailed) {
      PipeWaits(sc, e.toServer, false, n.toServer, |n.client.msgs|, b);
    }
  }

  lemma PipeShrinks(sc: Scene, stream: nat -> byte, pipe: Pipe, fromServer: bool, queue: seq<Message>, sent: nat,
      msgs: seq<Message>)
    requires Honest(sc) && PipeOf(sc, pipe, fromServer, queue, sent, |msgs|)
    requires |msgs| >= 2 ==> stream == SceneStream(sc)
    requires fromServer ==> |msgs| >= 1
    requires queue != [] && |queue[0].body| < BODY_LIMIT
    requires Hellos(fromServer, |msgs|) == if Hello(msgs) then 1 else 0
    requires Hello(msgs) ==> |Encode(queue[0])| <= MAX_PLAINTEXT
    ensures var (input, pipe') := Read(stream, fromServer, msgs, pipe);
            if Readable(queue[0]) then
              input == Arrives(queue[0], true, false) && PipeOf(sc, pipe', fromServer, queue[1..], sent, |msgs| + 1)
            else input == ReadFails
  {
    hide PipeInv;
    hide Encode;
    hide SceneStream;
    if Hello(msgs) {
      ReadKeeps(SceneStream(sc), fromServer, msgs, pipe, queue);
    } else {
      ReadKeeps(stream, fromServer, msgs, pipe, queue);
    }
  }

  lemma ClientReadsAlike(sc: Scene, c: Cryptor, e: Ends, n: Exchange)
    requires Honest(sc) && Expands(c) && Inv(sc, n) && Same(sc, e, n)
    requires Moves(sc, n, true) && !Sends(sc.client, n.client.msgs)
    ensures Same(sc, MoveOnBytes(sc, c, e, true), Move(sc, n, true))
  {
    hide Honest;
    hide Script;
    hide PipeOf;
    hide Read;
    hide HandshakeStream;
    hide Readable;
    hide Inv;
    hide PipeInv;
    hide SceneStream;
    var a, b := |n.client.msgs|, |n.server.msgs|;
    Roles(sc);
    Positions(sc, n);
    SameAble(sc, e, n);
    ScriptIsShort(sc, a);
    SliceShrinks(Script(sc), a, b);
    if a >= 2 {
      StreamIs(sc, a);
    }
    PipeShrinks(sc, HandshakeStream(sc.suite, sc.client, n.client.msgs), e.toClient, true, n.toClient, b,
        n.client.msgs);
    if Readable(n.toClient[0]) {
      NextReceived(sc, n.client, a, false);
    }
    if n.server.status != Failed(ReadFailed) {
      PipeWaits(sc, e.toServer, false, n.toServer, a, b);
    }
    assert n.toServer + [] == n.toServer;
  }

  lemma ServerReadsAlike(sc: Scene, c: Cryptor, e: Ends, n: Exchange)
    requires Honest(sc) && Expands(c) && Inv(sc, n) && Same(sc, e, n)
    requires Moves(sc, n, false) && !Sends(sc.server, n.server.msgs)
    ensures Same(sc, MoveOnBytes(sc, c, e, false), Move(sc, n, false))
  {
    hide Honest;
    hide Script;
    hide PipeOf;
    hide Read;
    hide HandshakeStream;
    hide Readable;
    hide Inv;
    hide PipeInv;
    hide SceneStream;
    var a, b := |n.client.msgs|, |n.server.msgs|;
    Roles(sc);
    Positions(sc, n);
    SameAble(sc, e, n);
    ScriptIsShort(sc, b);
    SliceShrinks(Script(sc), b, a);
    if b >= 2 {
      StreamIs(sc, b);
    }
    PipeShrinks(sc, HandshakeStream(sc.suite, sc.server, n.server.msgs), e.toServer, false, n.toServer, a,
        n.server.msgs);
    if Readable(n.toServer[0]) {
      NextReceived(sc, n.server, b, true);
    }
    if n.client.status != Failed(ReadFailed) {
      PipeWaits(sc, e.toClient, true, n.toClient, b, a);
    }
    assert n.toClient + [] == n.toClient;
  }

  lemma MoveAlike(sc: Scene, c: Cryptor, e: Ends, n: Exchange, clientMoves: bool)
    requires Honest(sc) && Expands(c) && Inv(sc, n) && Same(sc, e, n)
    ensures Same(sc, MoveOnBytes(sc, c, e, clientMoves), Move(sc, n, clientMoves))
  {
    SameAble(sc, e, n);
    hide Inv;
    if !Moves(sc, n, clientMoves) {
      hide Same;
    } else if clientMoves {
      if Sends(sc.client, n.client.msgs) {
        Positions(sc, n);
        if |n.client.msgs| < |Script(sc)| {
          ClientWritesAlike(sc, c, e, n);
        } else {
          ClientGivesUpAlike(sc, c, e, n);
        }
      } else {
        ClientReadsAlike(sc, c, e, n);
      }
    } else {
      if Sends(sc.server, n.server.msgs) {
        ServerWritesAlike(sc, c, e, n);
      } else {
        ServerReadsAlike(sc, c, e, n);
      }
    }
  }

  lemma {:induction false} RunAlike(sc: Scene, c: Cryptor, e: Ends, n: Exchange, schedule: seq<bool>)
    requires Honest(sc) && Expands(c) && Inv(sc, n) && Same(sc, e, n)
    ensures Same(sc, RunOnBytes(sc, c, e, schedule), Run(sc, n, schedule))
    ensures Inv(sc, Run(sc, n, schedule))
    decreases |schedule|
  {
    if schedule != [] {
      MoveAlike(sc, c, e, n, schedule[0]);
      MoveKeeps(sc, n, schedule[0]);
      hide Inv;
      hide Same;
      hide Move;
      hide MoveOnBytes;
      RunAlike(sc, c, MoveOnBytes(sc, c, e, schedule[0]), Move(sc, n, schedule[0]), schedule[1..]);
    }
  }

  /**
   The honest handshake over bytes: whatever ciphertexts the cipher makes and in whatever order
   the ends move, they are never both waiting for bytes; and when neither can move both have
   completed, on one transcript and with mirrored ciphers, if and only if mutual attestation was
   not negotiated or the client has credentials, and no certificate or signature sent is longer
   than a reader takes.
   */
  lemma HandshakeOverBytes(sc: Scene, c: Cryptor, schedule: seq<bool>)
    requires Honest(sc) && Expands(c)
    ensures var e := RunOnBytes(sc, c, OPENED, schedule);
            && !(e.client.status == Running && e.server.status == Running && StuckOnBytes(sc, e))
            && (StuckOnBytes(sc, e) ==>
                  (e.client.status == Done && e.server.status == Done <==>
                     (!Negotiated(sc) || sc.client.hasProvider || sc.client.hasPem) && AllReadable(sc)))
            && (e.client.status == Done && e.server.status == Done ==>
                  e.client.msgs == e.server.msgs == Script(sc)
                  && Agreement.Mirrored(TrafficCiphers(sc.suite, sc.client, e.client.msgs),
                                        TrafficCiphers(sc.suite, sc.server, e.server.msgs)))
  {
    StartKeeps(sc);
    StartAlike(sc);
    RunAlike(sc, c, OPENED, START, schedule);
    var e, n := RunOnBytes(sc, c, OPENED, schedule), Run(sc, START, schedule);
    hide RunOnBytes;
    hide Run;
    EndMeans(sc, n);
    SameAble(sc, e, n);
    hide Inv;
    hide Script;
    hide AllReadable;
    hide TrafficCiphers;
  }

  lemma StartAlike(sc: Scene)
    requires Honest(sc)
    ensures Same(sc, OPENED, START)
  {
    hide SceneStream;
    SealingStarts(map[], KeyOf(SceneStream(sc), true), IVOf(SceneStream(sc), true));
    SealingStarts(map[], KeyOf(SceneStream(sc), false), IVOf(SceneStream(sc), false));
    hide Sealing;
  }

  /** And such an end is always reached. */
  lemma BytesAlwaysFinish(sc: Scene, c: Cryptor) returns (schedule: seq<bool>)
    requires Honest(sc) && Expands(c)
    ensures StuckOnBytes(sc, RunOnBytes(sc, c, OPENED, schedule)) && |schedule| <= 20
  {
    StartKeeps(sc);
    StartAlike(sc);
    assert |Script(sc)| <= 9;
    schedule := AlwaysFinishes(sc, START);
    RunAlike(sc, c, OPENED, START, schedule);
    hide Script;
    SameAble(sc, RunOnBytes(sc, c, OPENED, schedule), Run(sc, START, schedule));
    hide Same;
  }
}
