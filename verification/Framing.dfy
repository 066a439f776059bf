/** Handshake messages carried by records: fragmenting writers and reassembling readers. */
module Framing {
  import opened Bytes
  import opened Record
  import opened Codec
  import opened Net

  datatype ReadMsgError =
    | MessageTooLong
    | RecordUnread(cause: RecordReadError)
    | NotOpened(reason: RecordError)
    | NotHandshake(contentType: byte)
    | BufferFull

  // Encrypted reader ----------------------------------------------------------

  /** hr.buf, the sequence number of hr.cipher, and what is left of the connection. */
  datatype Reader = Reader(buffer: bytes, sequence: nat, stream: Stream)

  datatype Parsed = NeedMore | TooLong | Complete(message: Message, rest: bytes)

  function Parse(buffer: bytes): Parsed {
    if |buffer| < MESSAGE_HEADER_LEN then NeedMore
    else
      var total := MESSAGE_HEADER_LEN + BE(buffer[1..4]);
      if total > BUFFER_LIMIT then TooLong
      else if |buffer| < total then NeedMore
      else Complete(Message(buffer[0], buffer[MESSAGE_HEADER_LEN..total]), buffer[total..])
  }

  /** One record into the buffer; its error, or None when the reader should look again. */
  function Pull(log: Log, key: bytes, iv: bytes, rd: Reader): (r: (Option<ReadMsgError>, Reader))
    requires ValidIV(iv)
    ensures r.0.None? ==> |r.1.stream.pending| < |rd.stream.pending|
  {
    var (record, stream) := NextRecord(rd.stream);
    if record.Err? then (Some(RecordUnread(record.error)), rd.(stream := stream))
    else
      var o := UnsealAt(log, key, iv, rd.sequence, record.value);
      if o.Err? then (Some(NotOpened(o.error)), rd.(stream := stream))
      else
        var rd' := rd.(sequence := rd.sequence + 1, stream := stream);
        if o.value.contentType != HANDSHAKE then (Some(NotHandshake(o.value.contentType)), rd')
        else if |rd.buffer| + |o.value.plaintext| > BUFFER_LIMIT then (Some(BufferFull), rd')
        else (None, rd'.(buffer := rd.buffer + o.value.plaintext))
  }

  function ReadNext(log: Log, key: bytes, iv: bytes, rd: Reader): (Result<Message, ReadMsgError>, Reader)
    requires ValidIV(iv)
    decreases |rd.stream.pending|
  {
    match Parse(rd.buffer)
    case TooLong => (Err(MessageTooLong), rd)
    case Complete(m, rest) => (Ok(m), rd.(buffer := rest))
    case NeedMore =>
      var (stop, rd') := Pull(log, key, iv, rd);
      if stop.Some? then (Err(stop.value), rd') else ReadNext(log, key, iv, rd')
  }

  class EncryptedHandshakeReader {
    const source: Source
    const cipher: RecordCipher
    var buffer: bytes

    constructor (source: Source, cipher: RecordCipher)
      ensures this.source == source && this.cipher == cipher && buffer == []
    {
      this.source, this.cipher, this.buffer := source, cipher, [];
    }

    ghost function State(): Reader
      reads this, source, cipher
    {
      Reader(buffer, cipher.sequence, source.stream)
    }

    method ReadMsg() returns (r: Result<Message, ReadMsgError>)
      requires cipher.Valid()
      modifies this`buffer, source, cipher`sequence
      ensures cipher.Valid()
      ensures (r, State()) == ReadNext(cipher.aead.log, cipher.key, cipher.iv, old(State()))
    {
      hide UnsealAt;
      hide NextRecord;
      while true
        invariant cipher.Valid()
        invariant ReadNext(cipher.aead.log, cipher.key, cipher.iv, State())
               == ReadNext(cipher.aead.log, cipher.key, cipher.iv, old(State()))
        decreases |source.stream.pending|
      {
        if |buffer| >= MESSAGE_HEADER_LEN {
          var totalLen := MESSAGE_HEADER_LEN + BE(buffer[1..4]);
          if totalLen > BUFFER_LIMIT {
            return Err(MessageTooLong);
          }
          if |buffer| >= totalLen {
            var m := Message(buffer[0], buffer[MESSAGE_HEADER_LEN..totalLen]);
            buffer := buffer[totalLen..];
            return Ok(m);
          }
        }
        assert Parse(buffer) == NeedMore;
        var record := source.ReadRecord();
        if record.Err? {
          return Err(RecordUnread(record.error));
        }
        var unsealed := cipher.Unseal(record.value);
        if unsealed.Err? {
          return Err(NotOpened(unsealed.error));
        }
        if unsealed.value.contentType != HANDSHAKE {
          return Err(NotHandshake(unsealed.value.contentType));
        }
        if |buffer| + |unsealed.value.plaintext| > BUFFER_LIMIT {
          return Err(BufferFull);
        }
        buffer := buffer + unsealed.value.plaintext;
      }
    }

    method HasRemaining() returns (b: bool)
      ensures b == (buffer != [])
    {
      b := |buffer| > 0;
    }
  }

  /** The plaintexts of a history of records, in order. */
  function PlainAll(sent: seq<Sealed>): bytes {
    if sent == [] then [] else sent[0].plaintext + PlainAll(sent[1..])
  }

  lemma {:induction false} PlainAllConcat(a: seq<Sealed>, b: seq<Sealed>)
    ensures PlainAll(a + b) == PlainAll(a) + PlainAll(b)
  {
    if a == [] {
      assert a + b == b;
    } else {
      PlainAllConcat(a[1..], b);
      ConcatHead(a, b);
      ConcatAssociates(a[0].plaintext, PlainAll(a[1..]), PlainAll(b));
    }
  }

  lemma PlainAllNext(sent: seq<Sealed>, i: nat)
    requires i < |sent|
    ensures PlainAll(sent[..i + 1]) == PlainAll(sent[..i]) + sent[i].plaintext
    ensures PlainAll(sent[i..]) == sent[i].plaintext + PlainAll(sent[i + 1..])
    ensures WireAll(sent[i..]) == Wire(sent[i]) + WireAll(sent[i + 1..])
  {
    assert sent[..i + 1] == sent[..i] + [sent[i]];
    PlainAllConcat(sent[..i], [sent[i]]);
    assert PlainAll([sent[i]]) == sent[i].plaintext + PlainAll([]);
  }

  /** Records whose content type is one of the known ones open as they were sealed. */
  ghost predicate KnownTypes(sent: seq<Sealed>) {
    forall i :: 0 <= i < |sent| ==> KnownType(sent[i].contentType)
  }

  lemma UnsealKnown(log: Log, key: bytes, iv: bytes, sent: seq<Sealed>, sequence: nat, record: bytes)
    requires Sealing(log, key, iv, sent) && KnownTypes(sent) && sequence <= MAX_SEQ
    ensures UnsealAt(log, key, iv, sequence, record).Ok? <==>
            sequence < |sent| && record == Wire(sent[sequence])
    ensures UnsealAt(log, key, iv, sequence, record).Ok? ==>
            UnsealAt(log, key, iv, sequence, record)
            == Ok(Opened(sent[sequence].contentType, sent[sequence].plaintext))
  {
    UnsealExactly(log, key, iv, sent, sequence, record);
    if sequence < |sent| {
      var s := sent[sequence];
      StripOfInner(s.contentType, s.plaintext, s.padding);
    }
  }

  /** One record taken in: of handshake type, or the reader stops there and says what it is. */
  lemma PullTakes(log: Log, key: bytes, iv: bytes, sent: seq<Sealed>, rd: Reader)
    requires Sealing(log, key, iv, sent) && KnownTypes(sent) && rd.sequence <= |sent|
    ensures ValidIV(iv)
    ensures var (stop, rd') := Pull(log, key, iv, rd);
            if rd'.sequence == rd.sequence then stop.Some? && !stop.value.NotHandshake?
            else
              && rd.sequence < |sent| && rd'.sequence == rd.sequence + 1
              && var t := sent[rd.sequence].contentType;
                 if t == HANDSHAKE then stop == None || stop == Some(BufferFull) else stop == Some(NotHandshake(t))
  {
    assert ValidIV(iv) && |sent| <= MAX_SEQ;
    hide Sealing;
    hide KnownTypes;
    hide NextRecord;
    hide UnsealAt;
    var (record, s') := NextRecord(rd.stream);
    if record.Ok? {
      UnsealKnown(log, key, iv, sent, rd.sequence, record.value);
    }
  }

  /** Records a to b - 1 are of handshake type, or the last of them is what the reader failed on. */
  ghost predicate TakenAlone(sent: seq<Sealed>, a: nat, b: nat, r: Result<Message, ReadMsgError>) {
    && a <= b <= |sent|
    && (forall i :: a <= i < b && sent[i].contentType != HANDSHAKE ==>
          i == b - 1 && r == Err(NotHandshake(sent[i].contentType)))
    && (r.Err? && r.error.NotHandshake? ==> a < b && sent[b - 1].contentType == r.error.contentType != HANDSHAKE)
  }

  lemma OneMoreTaken(sent: seq<Sealed>, a: nat, b: nat, r: Result<Message, ReadMsgError>)
    requires a < |sent| && sent[a].contentType == HANDSHAKE && TakenAlone(sent, a + 1, b, r)
    ensures TakenAlone(sent, a, b, r)
  {
  }

  lemma TakesOne(sent: seq<Sealed>, a: nat, stop: ReadMsgError)
    requires a < |sent|
    requires if sent[a].contentType == HANDSHAKE then !stop.NotHandshake? else stop == NotHandshake(sent[a].contentType)
    ensures TakenAlone(sent, a, a + 1, Err(stop))
  {
  }

  /**
   Only handshake records make up a message: a call that takes in a record of another type fails
   on it, naming the type, and takes in nothing after it.
   */
  lemma {:induction false} HandshakeRecordsAlone(log: Log, key: bytes, iv: bytes, sent: seq<Sealed>, rd: Reader)
    requires Sealing(log, key, iv, sent) && KnownTypes(sent) && rd.sequence <= |sent|
    ensures ValidIV(iv)
    ensures var (r, rd') := ReadNext(log, key, iv, rd); TakenAlone(sent, rd.sequence, rd'.sequence, r)
    decreases |rd.stream.pending|
  {
    hide Sealing;
    hide KnownTypes;
    hide Pull;
    hide Parse;
    PullTakes(log, key, iv, sent, rd);
    var (stop, rd') := Pull(log, key, iv, rd);
    if Parse(rd.buffer).NeedMore? {
      if stop.None? {
        HandshakeRecordsAlone(log, key, iv, sent, rd');
        OneMoreTaken(sent, rd.sequence, ReadNext(log, key, iv, rd').1.sequence, ReadNext(log, key, iv, rd').0);
      } else if rd'.sequence != rd.sequence {
        TakesOne(sent, rd.sequence, stop.value);
      }
    }
  }

  lemma ParseOfEncoding(m: Message, rest: bytes)
    requires |Encode(m)| <= BUFFER_LIMIT
    ensures Parse(Encode(m) + rest) == Complete(m, rest)
  {
    EncodedLength(m, rest);
  }

  lemma ParseOfPart(m: Message, n: nat)
    requires n < |Encode(m)| <= BUFFER_LIMIT
    ensures Parse(Encode(m)[..n]) == NeedMore
  {
    EncodedLength(m, []);
    assert Encode(m) + [] == Encode(m);
    if n >= MESSAGE_HEADER_LEN {
      assert Encode(m)[..n][1..4] == Encode(m)[1..4];
    }
  }

  lemma CompleteIsEncoding(buffer: bytes)
    requires Parse(buffer).Complete?
    ensures var p := Parse(buffer);
            Encode(p.message) + p.rest == buffer && |Encode(p.message)| <= BUFFER_LIMIT
  {
    var p := Parse(buffer);
    PutOfBE(buffer[1..4]);
    assert buffer == [buffer[0]] + buffer[1..4] + p.message.body + p.rest;
  }

  lemma ParseOfTooLong(m: Message, n: nat)
    requires BUFFER_LIMIT < |Encode(m)| && |m.body| < BODY_LIMIT && MESSAGE_HEADER_LEN <= n <= |Encode(m)|
    ensures Parse(Encode(m)[..n]) == TooLong
  {
    EncodedLength(m, []);
    assert Encode(m) + [] == Encode(m);
    assert Encode(m)[..n][1..4] == Encode(m)[1..4];
  }

  /** The next sealed record, delivered unharmed, goes into the buffer if there is room. */
  lemma PullSealed(log: Log, key: bytes, iv: bytes, history: seq<Sealed>, rd: Reader, tail: bytes)
    requires Sealing(log, key, iv, history) && rd.sequence < |history|
    requires history[rd.sequence].contentType == HANDSHAKE
    requires rd.stream.pending == Wire(history[rd.sequence]) + tail
    ensures ValidIV(iv)
    ensures var s := history[rd.sequence];
            var (stop, rd') := Pull(log, key, iv, rd);
            if |rd.buffer| + |s.plaintext| > BUFFER_LIMIT then stop == Some(BufferFull)
            else stop == None && rd' == Reader(rd.buffer + s.plaintext, rd.sequence + 1, Stream(tail, rd.stream.ending))
  {
    var s := history[rd.sequence];
    assert WellSealed(s) && |history| <= MAX_SEQ && ValidIV(iv);
    UnsealExactly(log, key, iv, history, rd.sequence, Wire(s));
    StripOfInner(s.contentType, s.plaintext, s.padding);
    hide Sealing;
    hide UnsealAt;
    NextRecordOfWire(s, tail, rd.stream.ending);
    hide NextRecord;
  }

  /** No plaintext was lost on the way here. */
  ghost predicate Conserved(sent: seq<Sealed>, rd: Reader, returned: bytes) {
    rd.sequence <= |sent| && returned + rd.buffer == PlainAll(sent[..rd.sequence])
  }

  predicate DropsPlaintext(e: ReadMsgError) {
    e.NotHandshake? || e.BufferFull?
  }

  lemma PullConserves(log: Log, key: bytes, iv: bytes, sent: seq<Sealed>, rd: Reader, returned: bytes)
    requires Sealing(log, key, iv, sent) && KnownTypes(sent) && Conserved(sent, rd, returned)
    ensures var (stop, rd') := Pull(log, key, iv, rd);
            if stop.None? || !DropsPlaintext(stop.value) then Conserved(sent, rd', returned)
            else rd'.buffer == rd.buffer && rd'.sequence == rd.sequence + 1 <= |sent|
  {
    hide UnsealAt;
    hide NextRecord;
    hide KnownTypes;
    hide PlainAll;
    assert ValidIV(iv) && rd.sequence <= |sent| <= MAX_SEQ;
    var (record, stream) := NextRecord(rd.stream);
    if record.Ok? {
      UnsealKnown(log, key, iv, sent, rd.sequence, record.value);
      if UnsealAt(log, key, iv, rd.sequence, record.value).Ok? {
        ConservedNext(sent, rd, returned);
      }
    }
  }

  /** Taking in the plaintext of the record at this sequence number loses nothing. */
  lemma ConservedNext(sent: seq<Sealed>, rd: Reader, returned: bytes)
    requires Conserved(sent, rd, returned) && rd.sequence < |sent|
    ensures returned + (rd.buffer + sent[rd.sequence].plaintext) == PlainAll(sent[..rd.sequence + 1])
  {
    PlainAllNext(sent, rd.sequence);
    ConcatAssociates(returned, rd.buffer, sent[rd.sequence].plaintext);
  }

  /**
   Conservation: against any incoming bytes, a message is returned only out of plaintext the
   peer sealed. Encodings returned followed by the buffer are all plaintext unsealed so far,
   unless the call failed on a record whose plaintext it drops.
   */
  lemma {:induction false} ReadMsgConserves(log: Log, key: bytes, iv: bytes, sent: seq<Sealed>, rd: Reader,
      returned: bytes)
    requires Sealing(log, key, iv, sent) && KnownTypes(sent) && Conserved(sent, rd, returned)
    ensures var (r, rd') := ReadNext(log, key, iv, rd);
            match r
            case Ok(m) => |Encode(m)| <= BUFFER_LIMIT && Conserved(sent, rd', returned + Encode(m))
            case Err(e) => DropsPlaintext(e) || Conserved(sent, rd', returned)
    decreases |rd.stream.pending|
  {
    assert ValidIV(iv);
    hide Sealing;
    hide Pull;
    match Parse(rd.buffer)
    case TooLong =>
    case Complete(m, rest) =>
      CompleteIsEncoding(rd.buffer);
      assert returned + Encode(m) + rest == returned + rd.buffer;
    case NeedMore =>
      PullConserves(log, key, iv, sent, rd, returned);
      var (stop, rd') := Pull(log, key, iv, rd);
      if stop.None? {
        ReadMsgConserves(log, key, iv, sent, rd', returned);
      }
  }

  // Fragmentation invariance ----------------------------------------------------

  /** The connection delivers exactly `sent`, whose plaintexts spell out the messages in some cutting. */
  ghost predicate Carries(log: Log, key: bytes, iv: bytes, sent: seq<Sealed>, rd: Reader, ms: seq<Message>,
      tail: bytes) {
    && Sealing(log, key, iv, sent)
    && rd.sequence <= |sent|
    && (forall i :: rd.sequence <= i < |sent| ==> sent[i].contentType == HANDSHAKE)
    && rd.stream.pending == WireAll(sent[rd.sequence..]) + tail
    && rd.buffer + PlainAll(sent[rd.sequence..]) == EncodeAll(ms)
  }

  /** Either every message leaves room for one more record, or everything fits at once. */
  const MESSAGE_LIMIT := BUFFER_LIMIT - MAX_PLAINTEXT + 1

  ghost predicate Fits(ms: seq<Message>) {
    || |EncodeAll(ms)| <= BUFFER_LIMIT
    || forall i :: 0 <= i < |ms| ==> |Encode(ms[i])| <= MESSAGE_LIMIT
  }

  lemma FitsEach(ms: seq<Message>)
    requires Fits(ms) && ms != []
    ensures |Encode(ms[0])| <= BUFFER_LIMIT && Fits(ms[1..])
    ensures |Encode(ms[0])| <= MESSAGE_LIMIT || |EncodeAll(ms)| <= BUFFER_LIMIT
  {
  }

  /** While the first message is incomplete there is a next record, and it goes into the buffer. */
  lemma PullCarried(log: Log, key: bytes, iv: bytes, sent: seq<Sealed>, rd: Reader, ms: seq<Message>, tail: bytes)
    requires Carries(log, key, iv, sent, rd, ms, tail) && Fits(ms) && ms != []
    requires |rd.buffer| < |Encode(ms[0])|
    ensures var (stop, rd') := Pull(log, key, iv, rd);
            stop == None && Carries(log, key, iv, sent, rd', ms, tail)
  {
    var i := rd.sequence;
    FitsEach(ms);
    assert |EncodeAll(ms)| >= |Encode(ms[0])|;
    assert PlainAll(sent[i..]) != [];
    PlainAllNext(sent, i);
    assert WellSealed(sent[i]) && sent[i].contentType == HANDSHAKE;
    hide Fits;
    hide Encode;
    hide EncodeAll;
    hide PlainAll;
    hide WireAll;
    var behind := sent[i + 1..];
    ConcatAssociates(Wire(sent[i]), WireAll(behind), tail);
    ConcatAssociates(rd.buffer, sent[i].plaintext, PlainAll(behind));
    PullSealed(log, key, iv, sent, rd, WireAll(behind) + tail);
    assert |rd.buffer + sent[i].plaintext| <= |rd.buffer + sent[i].plaintext + PlainAll(behind)|;
    hide Pull;
    hide Sealing;
    hide Wire;
  }

  lemma {:induction false} ReadMsgCarried(log: Log, key: bytes, iv: bytes, sent: seq<Sealed>, rd: Reader,
      ms: seq<Message>, tail: bytes)
    requires Carries(log, key, iv, sent, rd, ms, tail) && Fits(ms) && ms != []
    ensures var (r, rd') := ReadNext(log, key, iv, rd);
            r == Ok(ms[0]) && Carries(log, key, iv, sent, rd', ms[1..], tail)
    decreases |rd.stream.pending|
  {
    assert ValidIV(iv);
    FitsEach(ms);
    hide Pull;
    hide Sealing;
    hide Fits;
    var e := Encode(ms[0]);
    var plain := PlainAll(sent[rd.sequence..]);
    if |rd.buffer| >= |e| {
      var rest := rd.buffer[|e|..];
      assert rd.buffer[..|e|] == (rd.buffer + plain)[..|e|] == e;
      assert rd.buffer == e + rest;
      ParseOfEncoding(ms[0], rest);
      assert rest + plain == (rd.buffer + plain)[|e|..] == EncodeAll(ms[1..]);
    } else {
      assert rd.buffer == (rd.buffer + plain)[..|rd.buffer|] == e[..|rd.buffer|];
      ParseOfPart(ms[0], |rd.buffer|);
      PullCarried(log, key, iv, sent, rd, ms, tail);
      ReadMsgCarried(log, key, iv, sent, Pull(log, key, iv, rd).1, ms, tail);
    }
  }

  /** Successive ReadMsg calls, stopping at the first error. */
  function ReadMsgs(log: Log, key: bytes, iv: bytes, rd: Reader,
      count: nat): (Result<seq<Message>, ReadMsgError>, Reader)
    requires ValidIV(iv)
    decreases count
  {
    if count == 0 then (Ok([]), rd)
    else
      var (r, rd') := ReadNext(log, key, iv, rd);
      if r.Err? then (Err(r.error), rd')
      else
        var (rs, rd'') := ReadMsgs(log, key, iv, rd', count - 1);
        (if rs.Err? then rs else Ok([r.value] + rs.value), rd'')
  }

  /**
   Fragmentation invariance: however the messages were cut into handshake records of at most
   16384 bytes, empty ones included, the reader returns exactly those messages and is then empty.
   */
  lemma {:induction false} FragmentationInvariance(log: Log, key: bytes, iv: bytes, sent: seq<Sealed>, rd: Reader,
      ms: seq<Message>, tail: bytes)
    requires Carries(log, key, iv, sent, rd, ms, tail) && Fits(ms)
    ensures var (r, rd') := ReadMsgs(log, key, iv, rd, |ms|);
            r == Ok(ms) && rd'.buffer == [] && Carries(log, key, iv, sent, rd', [], tail)
    decreases |ms|
  {
    hide ReadNext;
    hide Fits;
    if ms == [] {
    } else {
      ReadMsgCarried(log, key, iv, sent, rd, ms, tail);
      FitsEach(ms);
      var (r, rd') := ReadNext(log, key, iv, rd);
      FragmentationInvariance(log, key, iv, sent, rd', ms[1..], tail);
      assert ms == [ms[0]] + ms[1..];
    }
  }

  /** One byte more than MESSAGE_LIMIT, and a legal cutting makes the reader give up. */
  lemma MessageLimitIsExact(log: Log, key: bytes, iv: bytes, sent: seq<Sealed>, rd: Reader, m: Message, more: bytes,
      tail: bytes)
    requires MESSAGE_LIMIT < |Encode(m)| <= BUFFER_LIMIT
    requires Sealing(log, key, iv, sent) && rd.sequence < |sent|
    requires rd.buffer == Encode(m)[..|Encode(m)| - 1]
    requires sent[rd.sequence].contentType == HANDSHAKE
    requires sent[rd.sequence].plaintext == [Encode(m)[|Encode(m)| - 1]] + more
    requires |more| == MAX_PLAINTEXT - 1
    requires rd.stream.pending == Wire(sent[rd.sequence]) + tail
    ensures ReadNext(log, key, iv, rd).0 == Err(BufferFull)
  {
    ParseOfPart(m, |Encode(m)| - 1);
    PullSealed(log, key, iv, sent, rd, tail);
    hide Pull;
    hide Sealing;
  }

  // Encrypted writer -------------------------------------------------------------

  /** A byte string cut into pieces of MAX_PLAINTEXT bytes, the last one possibly shorter. */
  function Chunks(s: bytes): (cs: seq<bytes>)
    ensures forall i :: 0 <= i < |cs| ==> 0 < |cs[i]| <= MAX_PLAINTEXT
  {
    if s == [] then []
    else if |s| <= MAX_PLAINTEXT then [s]
    else [s[..MAX_PLAINTEXT]] + Chunks(s[MAX_PLAINTEXT..])
  }

  lemma ChunksHead(s: bytes, n: nat)
    requires s != [] && n == if |s| > MAX_PLAINTEXT then MAX_PLAINTEXT else |s|
    ensures Chunks(s) == [s[..n]] + Chunks(s[n..])
  {
    if n == |s| {
      assert s[..n] == s && s[n..] == [];
    }
  }

  /** A partly written record leaves the wire between the old bytes and the new ones. */
  lemma PartlyWritten(before: bytes, done: bytes, record: bytes, wire: bytes)
    requires before + done <= wire <= before + done + record
    ensures before <= wire <= before + (done + record)
  {
    ConcatAssociates(before, done, record);
    assert before == (before + done)[..|before|] == wire[..|before|];
  }

  /** One turn of a chunk loop takes the next chunk off what is left. */
  lemma NextChunk(all: seq<bytes>, k: nat, rest: bytes, n: nat)
    requires k <= |all| && all[k..] == Chunks(rest) && rest != []
    requires n == if |rest| > MAX_PLAINTEXT then MAX_PLAINTEXT else |rest|
    ensures k < |all| && all[k] == rest[..n] && all[k + 1..] == Chunks(rest[n..])
  {
    ChunksHead(rest, n);
    hide Chunks;
    assert all[k] == all[k..][0];
    assert all[k + 1..] == all[k..][1..];
  }

  /** These records carry these chunks, unpadded, under this content type. */
  ghost predicate CarryChunks(recs: seq<Sealed>, contentType: byte, chunks: seq<bytes>) {
    && |recs| == |chunks|
    && forall i :: 0 <= i < |recs| ==>
         recs[i].contentType == contentType && recs[i].plaintext == chunks[i] && recs[i].padding == 0
  }

  lemma {:induction false} ChunksSpellOut(s: bytes, recs: seq<Sealed>, contentType: byte)
    requires CarryChunks(recs, contentType, Chunks(s))
    ensures PlainAll(recs) == s
  {
    if |s| > MAX_PLAINTEXT {
      ChunksSpellOut(s[MAX_PLAINTEXT..], recs[1..], contentType);
    } else if s != [] {
      assert PlainAll(recs) == recs[0].plaintext + PlainAll(recs[1..]);
    }
  }

  /** The first |recs| chunks have been sealed, in order, on top of the history `sent`. */
  ghost predicate SealedSoFar(log: Log, key: bytes, iv: bytes, sequence: nat, sent: seq<Sealed>,
                              contentType: byte, chunks: seq<bytes>, recs: seq<Sealed>)
  {
    && Sealing(log, key, iv, sent + recs)
    && sequence == |sent| + |recs|
    && |recs| <= |chunks|
    && CarryChunks(recs, contentType, chunks[..|recs|])
  }

  lemma SealedNothingYet(log: Log, key: bytes, iv: bytes, sent: seq<Sealed>, contentType: byte, chunks: seq<bytes>)
    requires Sealing(log, key, iv, sent)
    ensures SealedSoFar(log, key, iv, |sent|, sent, contentType, chunks, [])
  {
    assert sent + [] == sent;
  }

  lemma SealedOneMore(log: Log, key: bytes, iv: bytes, sequence: nat, sent: seq<Sealed>, contentType: byte,
                      chunks: seq<bytes>, recs: seq<Sealed>, s: Sealed)
    requires SealedSoFar(log, key, iv, sequence, sent, contentType, chunks, recs)
    requires |recs| < |chunks| && WellSealed(s) && sequence < MAX_SEQ
    requires s.contentType == contentType && s.plaintext == chunks[|recs|] && s.padding == 0
    ensures SealedSoFar(log[Entry(key, iv, sequence, s) := InnerOf(s)], key, iv, sequence + 1, sent,
                        contentType, chunks, recs + [s])
    ensures WireAll(recs + [s]) == WireAll(recs) + Wire(s)
  {
    assert |sent + recs| == sequence && ValidIV(iv);
    hide Sealing;
    CarryOneMore(recs, contentType, chunks, s);
    hide CarryChunks;
    SealExtends(log, key, iv, sent + recs, s);
    HistoryAssociates(sent, recs, s);
    WireAllAppend(recs, s);
  }

  lemma CarryOneMore(recs: seq<Sealed>, contentType: byte, chunks: seq<bytes>, s: Sealed)
    requires |recs| < |chunks| && CarryChunks(recs, contentType, chunks[..|recs|])
    requires s.contentType == contentType && s.plaintext == chunks[|recs|] && s.padding == 0
    ensures CarryChunks(recs + [s], contentType, chunks[..|recs + [s]|])
  {
  }

  lemma HistoryAssociates(sent: seq<Sealed>, recs: seq<Sealed>, s: Sealed)
    ensures sent + (recs + [s]) == sent + recs + [s]
  {
  }

  lemma NothingToWrite()
    ensures WireAll([]) == [] && Chunks([]) == []
  {
  }

  /** Why a message or data did not all go out. */
  datatype WriteFailure = TooLongForRecord | NotSealed(reason: RecordError) | NotWritten(cause: WriteError)

  /**
   What such a failure says: that the sequence numbers are used up, or that the raw write that
   came last failed like this.
   */
  ghost predicate Explains(why: WriteFailure, sequence: nat, history: seq<Io>) {
    match why
    case TooLongForRecord => false
    case NotSealed(reason) => reason == SequenceOverflow && sequence == MAX_SEQ
    case NotWritten(cause) =>
      history != [] && history[|history| - 1].Wrote? && history[|history| - 1].err == Some(cause)
  }

  /** A chunk is refused for one reason alone. */
  lemma SealRefusedForSequence(chunk: bytes, sequence: nat)
    requires |chunk| <= MAX_PLAINTEXT && sequence <= MAX_SEQ
    ensures SealRefusal(|chunk|, 0, sequence) in {None, Some(SequenceOverflow)}
    ensures SealRefusal(|chunk|, 0, sequence) == Some(SequenceOverflow) ==> sequence == MAX_SEQ
  {
  }

  /**
   writeEncryptedHandshakeMsg. On success the wire gained exactly one record per chunk; the
   ghost results are the records sealed, of which a failed write may have taken only a part.
   */
  method WriteEncryptedMsg(sink: Sink, cipher: RecordCipher, m: Message, ghost sent: seq<Sealed>)
    returns (why: Option<WriteFailure>, ghost recs: seq<Sealed>)
    requires cipher.Valid()
    requires Sealing(cipher.aead.log, cipher.key, cipher.iv, sent) && cipher.sequence == |sent|
    modifies sink, cipher`sequence, cipher.aead
    ensures cipher.Valid()
    ensures SealedSoFar(cipher.aead.log, cipher.key, cipher.iv, cipher.sequence, sent,
                        HANDSHAKE, Chunks(Encode(m)), recs)
    ensures why == None ==> |recs| == |Chunks(Encode(m))| && sink.wire == old(sink.wire) + WireAll(recs)
    ensures why.Some? ==> Explains(why.value, cipher.sequence, sink.history)
    ensures why.Some? ==> old(sink.wire) <= sink.wire <= old(sink.wire) + WireAll(recs)
  {
    hide Sealing;
    hide CarryChunks;
    hide WireAll;
    hide Encode;
    hide Chunks;
    var hsMsg := Encode(m);
    recs := [];
    ghost var all := Chunks(hsMsg);
    NothingToWrite();
    SealedNothingYet(cipher.aead.log, cipher.key, cipher.iv, sent, HANDSHAKE, all);
    while |hsMsg| > 0
      invariant cipher.Valid()
      invariant SealedSoFar(cipher.aead.log, cipher.key, cipher.iv, cipher.sequence, sent, HANDSHAKE, all, recs)
      invariant all[|recs|..] == Chunks(hsMsg)
      invariant sink.wire == old(sink.wire) + WireAll(recs)
      decreases |hsMsg|
    {
      var chunkSize := if |hsMsg| > MAX_PLAINTEXT then MAX_PLAINTEXT else |hsMsg|;
      var chunk := hsMsg[..chunkSize];
      NextChunk(all, |recs|, hsMsg, chunkSize);
      ghost var log := cipher.aead.log;
      ghost var sequence := cipher.sequence;
      var record := cipher.Seal(HANDSHAKE, chunk);
      if record.Err? {
        SealRefusedForSequence(chunk, cipher.sequence);
        return Some(NotSealed(record.error)), recs;
      }
      ghost var s := Sealed(HANDSHAKE, chunk, 0, record.value[HEADER_LEN..]);
      SealedOneMore(log, cipher.key, cipher.iv, sequence, sent, HANDSHAKE, all, recs, s);
      ghost var done := recs;
      recs := recs + [s];
      var err := sink.WriteFull(record.value);
      if err.Some? {
        PartlyWritten(old(sink.wire), WireAll(done), record.value, sink.wire);
        return Some(NotWritten(err.value)), recs;
      }
      hsMsg := hsMsg[chunkSize..];
    }
    why := None;
  }

  lemma {:induction false} ReturnedIsSmall(log: Log, key: bytes, iv: bytes, rd: Reader)
    requires ValidIV(iv)
    ensures var (r, _) := ReadNext(log, key, iv, rd); r.Ok? ==> |Encode(r.value)| <= BUFFER_LIMIT
    decreases |rd.stream.pending|
  {
    hide Pull;
    match Parse(rd.buffer)
    case TooLong =>
    case Complete(m, rest) =>
      CompleteIsEncoding(rd.buffer);
    case NeedMore =>
      var (stop, rd') := Pull(log, key, iv, rd);
      if stop.None? {
        ReturnedIsSmall(log, key, iv, rd');
      }
  }

  /** These records are the next ones of the history and nothing else is in front of `tail`. */
  ghost predicate NextOf(log: Log, key: bytes, iv: bytes, history: seq<Sealed>, rd: Reader, recs: seq<Sealed>,
      tail: bytes) {
    && Sealing(log, key, iv, history)
    && rd.sequence + |recs| <= |history|
    && history[rd.sequence..rd.sequence + |recs|] == recs
    && (forall i :: 0 <= i < |recs| ==> recs[i].contentType == HANDSHAKE && recs[i].plaintext != [])
    && rd.stream.pending == WireAll(recs) + tail
  }

  lemma NextOfTail(log: Log, key: bytes, iv: bytes, history: seq<Sealed>, rd: Reader, recs: seq<Sealed>, tail: bytes,
      buffer: bytes)
    requires NextOf(log, key, iv, history, rd, recs, tail) && recs != []
    ensures recs[0] == history[rd.sequence] && recs[0].contentType == HANDSHAKE && recs[0].plaintext != []
    ensures rd.stream.pending == Wire(recs[0]) + (WireAll(recs[1..]) + tail)
    ensures var rd' := Reader(buffer, rd.sequence + 1, Stream(WireAll(recs[1..]) + tail, rd.stream.ending));
            NextOf(log, key, iv, history, rd', recs[1..], tail)
  {
    hide Sealing;
    hide Wire;
    ConcatAssociates(Wire(recs[0]), WireAll(recs[1..]), tail);
    assert recs[0] == history[rd.sequence..rd.sequence + |recs|][0];
    assert recs[1..] == history[rd.sequence + 1..rd.sequence + |recs|];
  }

  lemma PartOf(buffer: bytes, next: bytes, rest: bytes, whole: bytes)
    requires buffer + (next + rest) == whole && next != []
    ensures |buffer| < |whole| && buffer == whole[..|buffer|] && buffer + next + rest == whole
  {
  }

  /** One turn of the reader on a message that is not complete yet. */
  lemma ReadsOn(log: Log, key: bytes, iv: bytes, history: seq<Sealed>, rd: Reader, recs: seq<Sealed>, m: Message,
      tail: bytes) returns (rd': Reader)
    requires NextOf(log, key, iv, history, rd, recs, tail) && rd.buffer + PlainAll(recs) == Encode(m)
    requires |Encode(m)| <= BUFFER_LIMIT && recs != []
    ensures ValidIV(iv) && ReadNext(log, key, iv, rd) == ReadNext(log, key, iv, rd')
    ensures NextOf(log, key, iv, history, rd', recs[1..], tail) && rd'.buffer + PlainAll(recs[1..]) == Encode(m)
    ensures rd'.sequence == rd.sequence + 1 && rd'.stream.ending == rd.stream.ending
  {
    assert ValidIV(iv);
    var plaintext := recs[0].plaintext;
    rd' := Reader(rd.buffer + plaintext, rd.sequence + 1, Stream(WireAll(recs[1..]) + tail, rd.stream.ending));
    NextOfTail(log, key, iv, history, rd, recs, tail, rd'.buffer);
    PartOf(rd.buffer, plaintext, PlainAll(recs[1..]), Encode(m));
    ParseOfPart(m, |rd.buffer|);
    PullSealed(log, key, iv, history, rd, WireAll(recs[1..]) + tail);
    assert |rd'.buffer| <= |Encode(m)|;
    hide Sealing;
    hide Pull;
    hide Encode;
    hide NextOf;
    hide Parse;
    hide PlainAll;
    hide WireAll;
  }

  lemma ReadsComplete(log: Log, key: bytes, iv: bytes, rd: Reader, m: Message)
    requires ValidIV(iv) && rd.buffer == Encode(m) && |Encode(m)| <= BUFFER_LIMIT
    ensures ReadNext(log, key, iv, rd) == (Ok(m), rd.(buffer := []))
  {
    assert Encode(m) + [] == Encode(m);
    ParseOfEncoding(m, []);
    hide Parse;
    hide Pull;
    hide Encode;
  }

  lemma NothingNext(log: Log, key: bytes, iv: bytes, history: seq<Sealed>, rd: Reader, m: Message, tail: bytes)
    requires NextOf(log, key, iv, history, rd, [], tail) && rd.buffer + PlainAll([]) == Encode(m)
    ensures ValidIV(iv) && rd == Reader(Encode(m), rd.sequence, Stream(tail, rd.stream.ending))
  {
    hide Encode;
    assert rd.buffer + [] == rd.buffer;
    assert [] + tail == tail;
  }

  /** Reading on from part of a message through the records that hold the rest of it. */
  lemma {:induction false} ReadsRecords(log: Log, key: bytes, iv: bytes, history: seq<Sealed>, rd: Reader,
      recs: seq<Sealed>, m: Message, tail: bytes)
    requires NextOf(log, key, iv, history, rd, recs, tail)
    requires rd.buffer + PlainAll(recs) == Encode(m) && |Encode(m)| <= BUFFER_LIMIT
    ensures ValidIV(iv)
    ensures ReadNext(log, key, iv, rd) == (Ok(m), Reader([], rd.sequence + |recs|, Stream(tail, rd.stream.ending)))
    decreases |recs|
  {
    hide *;
    if recs == [] {
      NothingNext(log, key, iv, history, rd, m, tail);
      ReadsComplete(log, key, iv, rd, m);
    } else {
      var rd' := ReadsOn(log, key, iv, history, rd, recs, m, tail);
      ReadsRecords(log, key, iv, history, rd', recs[1..], m, tail);
    }
  }

  /** A message too long for the buffer is refused on its first record. */
  lemma RefusesRecords(log: Log, key: bytes, iv: bytes, history: seq<Sealed>, rd: Reader, recs: seq<Sealed>,
      m: Message, tail: bytes)
    requires NextOf(log, key, iv, history, rd, recs, tail) && rd.buffer == [] && PlainAll(recs) == Encode(m)
    requires recs != [] && MESSAGE_HEADER_LEN <= |recs[0].plaintext| <= MAX_PLAINTEXT
    requires BUFFER_LIMIT < |Encode(m)| && |m.body| < BODY_LIMIT
    ensures ValidIV(iv)
    ensures ReadNext(log, key, iv, rd).0 == Err(MessageTooLong)
  {
    var plaintext := recs[0].plaintext;
    NextOfTail(log, key, iv, history, rd, recs, tail, plaintext);
    assert plaintext == Encode(m)[..|plaintext|];
    ParseOfTooLong(m, |plaintext|);
    assert Parse([]) == NeedMore;
    hide Parse;
    hide NextOf;
    hide Encode;
    assert [] + plaintext == plaintext;
    PullSealed(log, key, iv, history, rd, WireAll(recs[1..]) + tail);
    hide Pull;
    hide Sealing;
  }

  /**
   Writer then reader: the records writeEncryptedHandshakeMsg made of a message, read at their
   place in the sender's history whatever comes before and after, give the same message exactly
   when it is at most 2 MiB with its header; both sequence numbers then agree, the buffer is
   empty and nothing behind the message was read. A longer one is refused for its length.
   */
  lemma WriterReaderRoundTrip(log: Log, key: bytes, iv: bytes, history: seq<Sealed>, start: nat, recs: seq<Sealed>,
      m: Message, tail: bytes, ending: Ending)
    requires Sealing(log, key, iv, history) && start + |recs| <= |history| && history[start..start + |recs|] == recs
    requires CarryChunks(recs, HANDSHAKE, Chunks(Encode(m)))
    ensures var (r, rd') := ReadNext(log, key, iv, Reader([], start, Stream(WireAll(recs) + tail, ending)));
            && (r == Ok(m) <==> |Encode(m)| <= BUFFER_LIMIT)
            && (r == Ok(m) ==> rd' == Reader([], start + |recs|, Stream(tail, ending)))
            && (|Encode(m)| > BUFFER_LIMIT && |m.body| < BODY_LIMIT ==> r == Err(MessageTooLong))
  {
    var rd := Reader([], start, Stream(WireAll(recs) + tail, ending));
    ChunksSpellOut(Encode(m), recs, HANDSHAKE);
    assert NextOf(log, key, iv, history, rd, recs, tail);
    if |Encode(m)| <= BUFFER_LIMIT {
      hide Sealing;
      hide NextOf;
      hide ReadNext;
      assert [] + PlainAll(recs) == PlainAll(recs);
      ReadsRecords(log, key, iv, history, rd, recs, m, tail);
    } else {
      ReturnedIsSmall(log, key, iv, rd);
      ChunksHead(Encode(m), MAX_PLAINTEXT);
      hide Sealing;
      hide NextOf;
      hide ReadNext;
      if |m.body| < BODY_LIMIT {
        RefusesRecords(log, key, iv, history, rd, recs, m, tail);
      }
    }
  }

  // Plaintext messages (the two hellos) --------------------------------------------

  datatype PlainError =
    | PlainHeaderUnread(cause: ReadError)
    | NotHandshakeRecord
    | BadPayloadLength
    | PlainPayloadUnread(cause: ReadError)
    | PlainBufferFull
    | ExcessData

  /** One plaintext handshake record; its version bytes are not looked at. */
  function NextPlainRecord(s: Stream): (r: (Result<bytes, PlainError>, Stream))
    ensures r.0.Ok? ==> 0 < |r.0.value| && |r.1.pending| < |s.pending|
  {
    var (h, s1) := ReadFull(s, HEADER_LEN);
    if h.Err? then (Err(PlainHeaderUnread(h.error)), s1)
    else if h.value[0] != HANDSHAKE then (Err(NotHandshakeRecord), s1)
    else
      var n := BE(h.value[3..5]);
      if n == 0 || n > MAX_PLAINTEXT then (Err(BadPayloadLength), s1)
      else
        var (p, s2) := ReadFull(s1, n);
        if p.Err? then (Err(PlainPayloadUnread(p.error)), s2) else (Ok(p.value), s2)
  }

  /** A handshake record in plaintext, with any version bytes. */
  function PlainFrame(major: byte, minor: byte, payload: bytes): bytes {
    [HANDSHAKE, major, minor] + PutBE(|payload|, 2) + payload
  }

  lemma PlainFrameParts(major: byte, minor: byte, payload: bytes, tail: bytes)
    requires |payload| <= MAX_PLAINTEXT
    ensures var w := PlainFrame(major, minor, payload) + tail;
            && |w| == HEADER_LEN + |payload| + |tail| && w[..HEADER_LEN][0] == HANDSHAKE
            && BE(w[..HEADER_LEN][3..5]) == |payload|
            && w[HEADER_LEN..][..|payload|] == payload && w[HEADER_LEN..][|payload|..] == tail
  {
    Pow256Values();
    BEOfPut(|payload|, 2);
    hide BE;
    hide PutBE;
    var w := PlainFrame(major, minor, payload) + tail;
    var header := [HANDSHAKE, major, minor] + PutBE(|payload|, 2);
    assert w[..HEADER_LEN] == header && header[3..5] == PutBE(|payload|, 2);
    assert w[HEADER_LEN..] == payload + tail;
  }

  lemma PlainFrameTaken(s: Stream)
    requires NextPlainRecord(s).0.Ok?
    ensures var (p, s') := NextPlainRecord(s);
            && p.value != [] && |p.value| <= MAX_PLAINTEXT && s'.ending == s.ending
            && s.pending == PlainFrame(s.pending[1], s.pending[2], p.value) + s'.pending
  {
    var h, rest := s.pending[..HEADER_LEN], s.pending[HEADER_LEN..];
    assert s.pending == h + rest;
    PutOfBE(h[3..5]);
    var n := BE(h[3..5]);
    hide BE;
    hide PutBE;
    assert h == [h[0], h[1], h[2]] + h[3..5];
    assert rest == rest[..n] + rest[n..];
    ConcatAssociates(h, rest[..n], rest[n..]);
  }

  /** Exactly a record of handshake type and of 1 to 16384 bytes is taken, whatever its version bytes. */
  lemma NextPlainRecordExactly(s: Stream, payload: bytes, s': Stream)
    ensures NextPlainRecord(s) == (Ok(payload), s') <==>
            && 0 < |payload| <= MAX_PLAINTEXT && s.ending == s'.ending
            && exists major: byte, minor: byte :: s.pending == PlainFrame(major, minor, payload) + s'.pending
  {
    if NextPlainRecord(s) == (Ok(payload), s') {
      PlainFrameTaken(s);
    }
    forall major: byte, minor: byte |
      0 < |payload| <= MAX_PLAINTEXT && s.ending == s'.ending
      && s.pending == PlainFrame(major, minor, payload) + s'.pending
      ensures NextPlainRecord(s) == (Ok(payload), s')
    {
      PlainFrameParts(major, minor, payload, s'.pending);
      hide PlainFrame;
      hide BE;
    }
  }

  function ReadPlain(assembled: bytes, s: Stream): (Result<Message, PlainError>, Stream)
    decreases |s.pending|
  {
    var (p, s') := NextPlainRecord(s);
    if p.Err? then (Err(p.error), s')
    else if |assembled| + |p.value| > BUFFER_LIMIT then (Err(PlainBufferFull), s')
    else
      var a := assembled + p.value;
      if Unfinished(a) then ReadPlain(a, s')
      else if |a| > MESSAGE_HEADER_LEN + BE(a[1..4]) then (Err(ExcessData), s')
      else (Ok(Message(a[0], a[MESSAGE_HEADER_LEN..])), s')
  }

  /** Too short to hold its header, or shorter than the header says. */
  predicate Unfinished(a: bytes) {
    |a| < MESSAGE_HEADER_LEN || |a| < MESSAGE_HEADER_LEN + BE(a[1..4])
  }

  /** readPlaintextHandshakeMsg. */
  method ReadPlaintextMsg(source: Source) returns (r: Result<Message, PlainError>)
    modifies source
    ensures (r, source.stream) == ReadPlain([], old(source.stream))
  {
    hide NextPlainRecord;
    var assembled: bytes := [];
    var msgType: byte := 0;
    var expectedTotalLen: nat := 0;
    while true
      invariant ReadPlain(assembled, source.stream) == ReadPlain([], old(source.stream))
      invariant expectedTotalLen == 0 <==> |assembled| < MESSAGE_HEADER_LEN
      invariant expectedTotalLen > 0 ==>
                  && msgType == assembled[0]
                  && expectedTotalLen == MESSAGE_HEADER_LEN + BE(assembled[1..4])
                  && |assembled| < expectedTotalLen
      decreases |source.stream.pending|
    {
      var record := ReadPlainRecord(source);
      if record.Err? {
        return Err(record.error);
      }
      if |assembled| + |record.value| > BUFFER_LIMIT {
        return Err(PlainBufferFull);
      }
      ghost var before := assembled;
      assembled := assembled + record.value;
      if expectedTotalLen == 0 && |assembled| >= MESSAGE_HEADER_LEN {
        msgType := assembled[0];
        expectedTotalLen := MESSAGE_HEADER_LEN + BE(assembled[1..4]);
      }
      assert |before| >= MESSAGE_HEADER_LEN ==> assembled[0] == before[0] && assembled[1..4] == before[1..4];
      assert Unfinished(assembled) <==> expectedTotalLen == 0 || |assembled| < expectedTotalLen;
      if expectedTotalLen > 0 && |assembled| >= expectedTotalLen {
        if |assembled| > expectedTotalLen {
          return Err(ExcessData);
        }
        assert assembled[MESSAGE_HEADER_LEN..expectedTotalLen] == assembled[MESSAGE_HEADER_LEN..];
        return Ok(Message(msgType, assembled[MESSAGE_HEADER_LEN..expectedTotalLen]));
      }
    }
  }

  method ReadPlainRecord(source: Source) returns (r: Result<bytes, PlainError>)
    modifies source
    ensures (r, source.stream) == NextPlainRecord(old(source.stream))
  {
    var header := source.ReadExactly(HEADER_LEN);
    if header.Err? {
      return Err(PlainHeaderUnread(header.error));
    }
    if header.value[0] != HANDSHAKE {
      return Err(NotHandshakeRecord);
    }
    var payloadLen := BE(header.value[3..5]);
    if payloadLen <= 0 || payloadLen > MAX_PLAINTEXT {
      return Err(BadPayloadLength);
    }
    var payload := source.ReadExactly(payloadLen);
    if payload.Err? {
      return Err(PlainPayloadUnread(payload.error));
    }
    r := Ok(payload.value);
  }

  /** The payloads of the first k records, if those are all valid, and the stream behind them. */
  function Group(s: Stream, k: nat): Option<(bytes, Stream)>
    decreases k
  {
    if k == 0 then Some(([], s))
    else
      var (p, s') := NextPlainRecord(s);
      if p.Err? then None
      else
        var rest := Group(s', k - 1);
        if rest.None? then None else Some((p.value + rest.value.0, rest.value.1))
  }

  lemma UnfinishedPart(a: bytes, m: Message, n: nat)
    requires |m.body| < BODY_LIMIT && n < |Encode(m)| && a == Encode(m)[..n]
    ensures Unfinished(a)
  {
    EncodedLength(m, []);
    assert Encode(m) + [] == Encode(m);
    if n >= MESSAGE_HEADER_LEN {
      assert a[1..4] == Encode(m)[1..4];
    }
  }

  lemma {:induction false} GroupIsRead(assembled: bytes, s: Stream, k: nat, m: Message)
    requires |Encode(m)| <= BUFFER_LIMIT && k > 0
    requires Group(s, k).Some? && assembled + Group(s, k).value.0 == Encode(m)
    ensures ReadPlain(assembled, s) == (Ok(m), Group(s, k).value.1)
    decreases k
  {
    hide NextPlainRecord;
    var (p, s') := NextPlainRecord(s);
    var rest := Group(s', k - 1).value.0;
    var a := assembled + p.value;
    assert a + rest == Encode(m);
    if k == 1 {
      assert a + [] == a;
      EncodedLength(m, []);
      assert Encode(m) + [] == Encode(m);
    } else {
      assert rest != [];
      assert a == (a + rest)[..|a|];
      UnfinishedPart(a, m, |a|);
      GroupIsRead(a, s', k - 1, m);
    }
  }

  lemma {:induction false} ReadIsGroup(assembled: bytes, s: Stream) returns (k: nat)
    requires ReadPlain(assembled, s).0.Ok?
    ensures var (r, s') := ReadPlain(assembled, s);
            && k > 0 && Group(s, k).Some? && Group(s, k).value.1 == s'
            && assembled + Group(s, k).value.0 == Encode(r.value)
            && |Encode(r.value)| <= BUFFER_LIMIT
    decreases |s.pending|
  {
    hide NextPlainRecord;
    var (p, s') := NextPlainRecord(s);
    var a := assembled + p.value;
    if Unfinished(a) {
      var j := ReadIsGroup(a, s');
      k := j + 1;
      assert assembled + (p.value + Group(s', j).value.0) == a + Group(s', j).value.0;
    } else {
      k := 1;
      assert Group(s', 0) == Some(([], s'));
      assert p.value + [] == p.value;
      PutOfBE(a[1..4]);
      assert a == [a[0]] + a[1..4] + a[4..];
    }
  }

  /**
   Reassembly is exact: a message comes back, with that much of the stream consumed, if and
   only if the payloads of some first group of valid records spell out exactly its encoding
   and the encoding is at most 2 MiB.
   */
  lemma PlaintextReassembly(s: Stream, m: Message, s': Stream)
    ensures ReadPlain([], s) == (Ok(m), s') <==>
            |Encode(m)| <= BUFFER_LIMIT && exists k: nat :: k > 0 && Group(s, k) == Some((Encode(m), s'))
  {
    if ReadPlain([], s) == (Ok(m), s') {
      var k := ReadIsGroup([], s);
      assert [] + Group(s, k).value.0 == Group(s, k).value.0;
    }
    if |Encode(m)| <= BUFFER_LIMIT && exists k: nat :: k > 0 && Group(s, k) == Some((Encode(m), s')) {
      var k: nat :| k > 0 && Group(s, k) == Some((Encode(m), s'));
      assert [] + Group(s, k).value.0 == Group(s, k).value.0;
      GroupIsRead([], s, k, m);
    }
  }

  function PlainRecord(payload: bytes): bytes {
    [22, 3, 3] + PutBE(|payload|, 2) + payload
  }

  /** writePlaintextHandshakeMsg; refuses messages that do not fit one record. */
  method WritePlaintextMsg(sink: Sink, m: Message) returns (why: Option<WriteFailure>)
    modifies sink
    ensures why == None ==> |Encode(m)| <= MAX_PLAINTEXT && sink.wire == old(sink.wire) + PlainRecord(Encode(m))
    ensures why == Some(TooLongForRecord) <==> |Encode(m)| > MAX_PLAINTEXT
    ensures why == Some(TooLongForRecord) ==> sink.wire == old(sink.wire) && sink.history == old(sink.history)
    ensures why.Some? && why != Some(TooLongForRecord) ==> why.value.NotWritten? && Explains(why.value, 0, sink.history)
    ensures why.Some? ==> old(sink.wire) <= sink.wire <= old(sink.wire) + PlainRecord(Encode(m))
  {
    if |Encode(m)| > MAX_PLAINTEXT {
      return Some(TooLongForRecord);
    }
    var err := sink.WriteFull(PlainRecord(Encode(m)));
    why := if err.Some? then Some(NotWritten(err.value)) else None;
  }

  lemma NextPlainOfRecord(payload: bytes, tail: bytes, ending: Ending)
    requires 0 < |payload| <= MAX_PLAINTEXT
    ensures NextPlainRecord(Stream(PlainRecord(payload) + tail, ending)) == (Ok(payload), Stream(tail, ending))
  {
    var w := PlainRecord(payload) + tail;
    var header := [HANDSHAKE, 3, 3] + PutBE(|payload|, 2);
    assert w[..HEADER_LEN] == header && header[3..5] == PutBE(|payload|, 2);
    Pow256Values();
    BEOfPut(|payload|, 2);
    hide PutBE;
    hide BE;
    assert w[HEADER_LEN..] == payload + tail;
    assert (payload + tail)[..|payload|] == payload && (payload + tail)[|payload|..] == tail;
  }

  lemma PlaintextRoundTrip(m: Message, tail: bytes, ending: Ending)
    requires |Encode(m)| <= MAX_PLAINTEXT
    ensures ReadPlain([], Stream(PlainRecord(Encode(m)) + tail, ending)) == (Ok(m), Stream(tail, ending))
  {
    var payload := Encode(m);
    var s := Stream(PlainRecord(payload) + tail, ending);
    NextPlainOfRecord(payload, tail, ending);
    hide NextPlainRecord;
    hide PlainRecord;
    assert Group(Stream(tail, ending), 0) == Some(([], Stream(tail, ending)));
    assert payload + [] == payload;
    assert Group(s, 1) == Some((payload, Stream(tail, ending)));
    assert [] + payload == payload;
    hide Group;
    GroupIsRead([], s, 1, m);
  }
}
