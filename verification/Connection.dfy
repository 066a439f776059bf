/** The byte stream over records: Read, Write and Close of a connection whose handshake has been attempted. */
module Connection {
  import opened Bytes
  import opened Record
  import opened Net
  import opened Framing

  const CLOSE_NOTIFY: bytes := [1, 0]

  datatype Failure =
    | HandshakeFailed
    | NoCloseNotify
    | TruncatedRecord
    | RawFault
    | BadOuterType
    | BadLength
    | NotAuthentic(reason: RecordError)
    | MalformedAlert(length: nat)
    | OtherAlert(level: byte, description: byte)
    | UnexpectedType(contentType: byte)

  datatype ReadResult = Data(bytes: bytes) | EndOfStream | Failed(why: Failure)

  /** The reader's state: readBuf, the sequence number of inCipher, closeNotifyReceived. */
  datatype ReadState = ReadState(buffer: bytes, sequence: nat, closeNotify: bool)

  function Min(a: nat, b: nat): nat {
    if a <= b then a else b
  }

  /** How a failed record read is reported. */
  function RecordFailure(e: RecordReadError, closeNotify: bool): ReadResult {
    match e
    case HeaderUnread(Fault) => Failed(RawFault)
    case HeaderUnread(_) => if closeNotify then EndOfStream else Failed(NoCloseNotify)
    case WrongOuterType => Failed(BadOuterType)
    case WrongLength => Failed(BadLength)
    case PayloadUnread(Fault) => Failed(RawFault)
    case PayloadUnread(_) => Failed(TruncatedRecord)
  }

  /** What an opened record means to the reader; None for an empty data record, which is skipped. */
  function Meaning(o: Opened, size: nat): Option<(ReadResult, bytes)> {
    if o.contentType == ALERT then
      if |o.plaintext| != 2 then Some((Failed(MalformedAlert(|o.plaintext|)), []))
      else if o.plaintext == CLOSE_NOTIFY then Some((EndOfStream, []))
      else Some((Failed(OtherAlert(o.plaintext[0], o.plaintext[1])), []))
    else if o.contentType != APPLICATION_DATA then Some((Failed(UnexpectedType(o.contentType)), []))
    else if o.plaintext == [] then None
    else
      var n := Min(size, |o.plaintext|);
      Some((Data(o.plaintext[..n]), o.plaintext[n..]))
  }

  /** Read with an empty buffer: take records off the connection until one settles the call. */
  function ReadRecords(log: Log, key: bytes, iv: bytes, size: nat, st: ReadState,
      s: Stream): (r: (ReadResult, ReadState, Stream))
    requires ValidIV(iv)
    decreases |s.pending|
  {
    var (record, s') := NextRecord(s);
    if record.Err? then (RecordFailure(record.error, st.closeNotify), st, s')
    else
      var o := UnsealAt(log, key, iv, st.sequence, record.value);
      if o.Err? then (Failed(NotAuthentic(o.error)), st, s')
      else
        var st' := st.(sequence := st.sequence + 1);
        match Meaning(o.value, size)
        case None => ReadRecords(log, key, iv, size, st', s')
        case Some((EndOfStream, _)) => (EndOfStream, st'.(closeNotify := true), s')
        case Some((r, rest)) => (r, st'.(buffer := rest), s')
  }

  /** The two ends of the loop that come before a record's meaning. */
  lemma ReadRecordsStops(log: Log, key: bytes, iv: bytes, size: nat, st: ReadState, s: Stream)
    requires ValidIV(iv)
    ensures var (record, s') := NextRecord(s);
            && (record.Err? ==>
                  ReadRecords(log, key, iv, size, st, s) == (RecordFailure(record.error, st.closeNotify), st, s'))
            && (record.Ok? && UnsealAt(log, key, iv, st.sequence, record.value).Err? ==>
                  var o := UnsealAt(log, key, iv, st.sequence, record.value);
                  ReadRecords(log, key, iv, size, st, s) == (Failed(NotAuthentic(o.error)), st, s'))
  {
    hide NextRecord;
    hide UnsealAt;
  }

  /** One turn of the loop, on a record that arrived and opened. */
  lemma ReadRecordsTurn(log: Log, key: bytes, iv: bytes, size: nat, st: ReadState, s: Stream, record: bytes,
      s': Stream, o: Opened)
    requires ValidIV(iv) && NextRecord(s) == (Ok(record), s') && UnsealAt(log, key, iv, st.sequence, record) == Ok(o)
    ensures var st' := st.(sequence := st.sequence + 1);
            ReadRecords(log, key, iv, size, st, s) ==
            match Meaning(o, size)
            case None => ReadRecords(log, key, iv, size, st', s')
            case Some((EndOfStream, _)) => (EndOfStream, st'.(closeNotify := true), s')
            case Some((r, rest)) => (r, st'.(buffer := rest), s')
  {
  }

  function ReadOnce(log: Log, key: bytes, iv: bytes, size: nat, st: ReadState,
      s: Stream): (ReadResult, ReadState, Stream)
    requires ValidIV(iv)
  {
    if size == 0 then (Data([]), st, s)
    else if st.buffer != [] then
      var n := Min(size, |st.buffer|);
      (Data(st.buffer[..n]), st.(buffer := st.buffer[n..]), s)
    else ReadRecords(log, key, iv, size, st, s)
  }

  lemma {:induction false} DataFits(log: Log, key: bytes, iv: bytes, size: nat, st: ReadState, s: Stream)
    requires ValidIV(iv)
    ensures |DataOf(ReadRecords(log, key, iv, size, st, s).0)| <= size
    decreases |s.pending|
  {
    hide UnsealAt;
    hide NextRecord;
    var (record, s') := NextRecord(s);
    if record.Ok? {
      var o := UnsealAt(log, key, iv, st.sequence, record.value);
      if o.Ok? && Meaning(o.value, size) == None {
        DataFits(log, key, iv, size, st.(sequence := st.sequence + 1), s');
      }
    }
  }

  // Safety of the stream ---------------------------------------------------------

  /** The application data in a history of records. */
  function AppData(sent: seq<Sealed>): bytes {
    if sent == [] then []
    else (if sent[0].contentType == APPLICATION_DATA then sent[0].plaintext else []) + AppData(sent[1..])
  }

  lemma {:induction false} AppDataConcat(a: seq<Sealed>, b: seq<Sealed>)
    ensures AppData(a + b) == AppData(a) + AppData(b)
  {
    if a == [] {
      assert a + b == b;
    } else {
      AppDataConcat(a[1..], b);
      ConcatHead(a, b);
      var front := if a[0].contentType == APPLICATION_DATA then a[0].plaintext else [];
      ConcatAssociates(front, AppData(a[1..]), AppData(b));
    }
  }

  lemma AppDataNext(sent: seq<Sealed>, i: nat)
    requires i < |sent|
    ensures AppData(sent[..i + 1])
         == AppData(sent[..i]) + if sent[i].contentType == APPLICATION_DATA then sent[i].plaintext else []
  {
    assert sent[..i + 1] == sent[..i] + [sent[i]];
    AppDataConcat(sent[..i], [sent[i]]);
    assert AppData([sent[i]])
        == (if sent[i].contentType == APPLICATION_DATA then sent[i].plaintext else []) + AppData([]);
  }

  /** Everything handed out, then the carry-over, is the data of the records accepted so far. */
  ghost predicate Faithful(sent: seq<Sealed>, st: ReadState, delivered: bytes) {
    && st.sequence <= |sent|
    && delivered + st.buffer == AppData(sent[..st.sequence])
  }

  function DataOf(r: ReadResult): bytes {
    if r.Data? then r.bytes else []
  }

  predicate IsCloseNotify(s: Sealed) {
    s.contentType == ALERT && s.plaintext == CLOSE_NOTIFY
  }

  /** The record a receiver accepts at its sequence number is the one sealed there. */
  lemma AcceptsInOrder(log: Log, key: bytes, iv: bytes, sent: seq<Sealed>, m: nat, sequence: nat, record: bytes)
    requires m <= |sent| && Sealing(log, key, iv, sent[..m]) && KnownTypes(sent) && sequence <= |sent| <= MAX_SEQ
    ensures UnsealAt(log, key, iv, sequence, record).Ok? ==>
              sequence < |sent| && UnsealAt(log, key, iv, sequence, record)
                                == Ok(Opened(sent[sequence].contentType, sent[sequence].plaintext))
  {
    UnsealKnown(log, key, iv, sent[..m], sequence, record);
  }

  lemma MeaningDelivers(sent: seq<Sealed>, i: nat, size: nat, delivered: bytes)
    requires i < |sent| && delivered == AppData(sent[..i])
    ensures match Meaning(Opened(sent[i].contentType, sent[i].plaintext), size)
            case None => delivered == AppData(sent[..i + 1])
            case Some((r, rest)) => delivered + DataOf(r) + rest == AppData(sent[..i + 1])
                                    && (r == EndOfStream ==> rest == [] && IsCloseNotify(sent[i]))
  {
    AppDataNext(sent, i);
    var p := sent[i].plaintext;
    assert forall n | 0 <= n <= |p| :: delivered + p[..n] + p[n..] == delivered + p;
  }

  /** One read against arbitrary incoming bytes, while the peer has sealed the first m records. */
  ghost predicate ReadKeeps(sent: seq<Sealed>, st: ReadState, delivered: bytes, r: ReadResult, st': ReadState) {
    && Faithful(sent, st', delivered + DataOf(r))
    && (!st.closeNotify ==> st'.closeNotify == (r == EndOfStream))
    && (!st.closeNotify && r == EndOfStream ==>
          st'.buffer == [] && st'.sequence > 0 && IsCloseNotify(sent[st'.sequence - 1]))
  }

  /** What an accepted record does to the invariant, whatever it means. */
  lemma TurnSafe(sent: seq<Sealed>, st: ReadState, size: nat, delivered: bytes, o: Opened)
    requires Faithful(sent, st, delivered) && st.buffer == [] && st.sequence < |sent|
    requires o == Opened(sent[st.sequence].contentType, sent[st.sequence].plaintext)
    ensures var st' := st.(sequence := st.sequence + 1);
            match Meaning(o, size)
            case None => Faithful(sent, st', delivered)
            case Some((EndOfStream, _)) => ReadKeeps(sent, st, delivered, EndOfStream, st'.(closeNotify := true))
            case Some((r, rest)) => ReadKeeps(sent, st, delivered, r, st'.(buffer := rest))
  {
    hide AppData;
    assert delivered + [] == delivered;
    MeaningDelivers(sent, st.sequence, size, delivered);
  }

  lemma {:induction false} ReadRecordsSafe(log: Log, key: bytes, iv: bytes, sent: seq<Sealed>, m: nat, size: nat,
      st: ReadState, s: Stream, delivered: bytes)
    requires m <= |sent| <= MAX_SEQ && Sealing(log, key, iv, sent[..m]) && KnownTypes(sent)
    requires Faithful(sent, st, delivered) && st.buffer == []
    ensures var (r, st', _) := ReadRecords(log, key, iv, size, st, s); ReadKeeps(sent, st, delivered, r, st')
    decreases |s.pending|
  {
    assert ValidIV(iv) && st.sequence <= |sent|;
    hide Sealing;
    hide KnownTypes;
    hide UnsealAt;
    hide NextRecord;
    hide AppData;
    hide Meaning;
    var (record, s') := NextRecord(s);
    if record.Ok? && UnsealAt(log, key, iv, st.sequence, record.value).Ok? {
      var o := UnsealAt(log, key, iv, st.sequence, record.value).value;
      AcceptsInOrder(log, key, iv, sent, m, st.sequence, record.value);
      ReadRecordsTurn(log, key, iv, size, st, s, record.value, s', o);
      TurnSafe(sent, st, size, delivered, o);
      hide ReadRecords;
      if Meaning(o, size) == None {
        ReadRecordsSafe(log, key, iv, sent, m, size, st.(sequence := st.sequence + 1), s', delivered);
        hide Faithful;
      } else {
        hide ReadKeeps;
      }
    } else {
      assert delivered + [] == delivered;
    }
  }

  lemma ReadSafe(log: Log, key: bytes, iv: bytes, sent: seq<Sealed>, m: nat, size: nat, st: ReadState, s: Stream,
      delivered: bytes)
    requires m <= |sent| <= MAX_SEQ && Sealing(log, key, iv, sent[..m]) && KnownTypes(sent)
    requires Faithful(sent, st, delivered)
    ensures var (r, st', _) := ReadOnce(log, key, iv, size, st, s); ReadKeeps(sent, st, delivered, r, st')
  {
    if size == 0 {
      assert delivered + [] == delivered;
    } else if st.buffer != [] {
      var n := Min(size, |st.buffer|);
      assert delivered + st.buffer[..n] + st.buffer[n..] == delivered + st.buffer;
    } else {
      ReadRecordsSafe(log, key, iv, sent, m, size, st, s, delivered);
    }
  }

  /** One call of Read: its buffer size, what the network holds then, what has been sealed by then. */
  datatype Call = Call(size: nat, stream: Stream, log: Log)

  function Run(key: bytes, iv: bytes, st: ReadState, calls: seq<Call>): (r: (seq<ReadResult>, ReadState))
    requires ValidIV(iv)
    ensures |r.0| == |calls|
    decreases |calls|
  {
    if calls == [] then ([], st)
    else
      var (first, st', _) := ReadOnce(calls[0].log, key, iv, calls[0].size, st, calls[0].stream);
      var (rest, end) := Run(key, iv, st', calls[1..]);
      ([first] + rest, end)
  }

  function Delivered(rs: seq<ReadResult>): bytes {
    if rs == [] then [] else DataOf(rs[0]) + Delivered(rs[1..])
  }

  /** The peer seals `sent`, at its own pace; nobody else seals under this key. */
  ghost predicate FedBy(key: bytes, iv: bytes, sent: seq<Sealed>, calls: seq<Call>) {
    && |sent| <= MAX_SEQ && KnownTypes(sent)
    && forall i :: 0 <= i < |calls| ==> exists m :: 0 <= m <= |sent| && Sealing(calls[i].log, key, iv, sent[..m])
  }

  lemma {:induction false} RunKeeps(key: bytes, iv: bytes, sent: seq<Sealed>, st: ReadState, calls: seq<Call>,
      delivered: bytes)
    requires ValidIV(iv) && FedBy(key, iv, sent, calls) && Faithful(sent, st, delivered)
    ensures var (rs, st') := Run(key, iv, st, calls); Faithful(sent, st', delivered + Delivered(rs))
    decreases |calls|
  {
    if calls == [] {
      assert delivered + [] == delivered;
    } else {
      var c := calls[0];
      var m :| 0 <= m <= |sent| && Sealing(c.log, key, iv, sent[..m]);
      hide Sealing;
      hide ReadOnce;
      ReadSafe(c.log, key, iv, sent, m, c.size, st, c.stream, delivered);
      var (r, st', _) := ReadOnce(c.log, key, iv, c.size, st, c.stream);
      assert forall i :: 0 <= i < |calls[1..]| ==> calls[1..][i] == calls[i + 1];
      RunKeeps(key, iv, sent, st', calls[1..], delivered + DataOf(r));
      hide Faithful;
      hide FedBy;
      var (rs, _) := Run(key, iv, st', calls[1..]);
      DeliveredNext(r, rs);
      ConcatAssociates(delivered, DataOf(r), Delivered(rs));
    }
  }

  lemma DeliveredNext(r: ReadResult, rs: seq<ReadResult>)
    ensures Delivered([r] + rs) == DataOf(r) + Delivered(rs)
  {
    assert ([r] + rs)[1..] == rs;
  }

  lemma PrefixOfWhole(a: bytes, rest: bytes, whole: bytes, more: bytes)
    requires a + rest == whole
    ensures a <= whole + more
  {
    assert a <= a + rest;
  }

  const FRESH_READER := ReadState([], 0, false)

  /**
   Stream safety: whatever bytes arrive and however many reads fail, the bytes handed out plus
   the carry-over are the application data of the peer's first `sequence` records, so what has
   been handed out is a prefix of what the peer wrote.
   */
  lemma StreamSafety(key: bytes, iv: bytes, sent: seq<Sealed>, calls: seq<Call>)
    requires ValidIV(iv) && FedBy(key, iv, sent, calls)
    ensures var (rs, st) := Run(key, iv, FRESH_READER, calls);
            && st.sequence <= |sent|
            && Delivered(rs) + st.buffer == AppData(sent[..st.sequence])
            && Delivered(rs) <= AppData(sent)
  {
    RunKeeps(key, iv, sent, FRESH_READER, calls, []);
    hide FedBy;
    hide Run;
    hide AppData;
    hide Delivered;
    var (rs, st) := Run(key, iv, FRESH_READER, calls);
    assert [] + Delivered(rs) == Delivered(rs);
    DeliveredIsPrefix(sent, st.sequence, Delivered(rs), st.buffer);
  }

  lemma DeliveredIsPrefix(sent: seq<Sealed>, i: nat, delivered: bytes, buffer: bytes)
    requires i <= |sent| && delivered + buffer == AppData(sent[..i])
    ensures delivered <= AppData(sent)
  {
    hide AppData;
    AppDataConcat(sent[..i], sent[i..]);
    assert sent == sent[..i] + sent[i..];
    PrefixOfWhole(delivered, buffer, AppData(sent[..i]), AppData(sent[i..]));
  }

  lemma {:induction false} RunSplit(key: bytes, iv: bytes, st: ReadState, calls: seq<Call>, k: nat)
    requires ValidIV(iv) && k < |calls|
    ensures var (before, mid) := Run(key, iv, st, calls[..k]);
            && Run(key, iv, st, calls).0[..k] == before
            && Run(key, iv, st, calls).0[k] == ReadOnce(calls[k].log, key, iv, calls[k].size, mid, calls[k].stream).0
    decreases k
  {
    hide ReadOnce;
    if k > 0 {
      var c := calls[0];
      var (r, st', _) := ReadOnce(c.log, key, iv, c.size, st, c.stream);
      RunSplit(key, iv, st', calls[1..], k - 1);
      assert calls[..k][1..] == calls[1..][..k - 1];
      assert calls[..k][0] == c;
    } else {
      assert calls[..k] == [];
    }
  }

  lemma {:induction false} NoEndNoCloseNotify(key: bytes, iv: bytes, sent: seq<Sealed>, st: ReadState,
      calls: seq<Call>, delivered: bytes)
    requires ValidIV(iv) && FedBy(key, iv, sent, calls) && Faithful(sent, st, delivered) && !st.closeNotify
    requires forall i :: 0 <= i < |calls| ==> Run(key, iv, st, calls).0[i] != EndOfStream
    ensures !Run(key, iv, st, calls).1.closeNotify
    decreases |calls|
  {
    if calls != [] {
      var c := calls[0];
      var m :| 0 <= m <= |sent| && Sealing(c.log, key, iv, sent[..m]);
      hide Sealing;
      hide ReadOnce;
      ReadSafe(c.log, key, iv, sent, m, c.size, st, c.stream, delivered);
      var (r, st', _) := ReadOnce(c.log, key, iv, c.size, st, c.stream);
      var whole := Run(key, iv, st, calls).0;
      var rest := Run(key, iv, st', calls[1..]).0;
      assert whole == [r] + rest && whole[0] == r;
      assert forall i :: 0 <= i < |rest| ==> rest[i] == whole[i + 1];
      assert forall i :: 0 <= i < |calls[1..]| ==> calls[1..][i] == calls[i + 1];
      NoEndNoCloseNotify(key, iv, sent, st', calls[1..], delivered + DataOf(r));
    }
  }

  /**
   Truncation detection: the first end of stream a reader ever reports comes from a
   close_notify record the peer sealed, with nothing left in the carry-over and everything
   sealed before that record delivered.
   */
  lemma FirstEndIsCloseNotify(key: bytes, iv: bytes, sent: seq<Sealed>, calls: seq<Call>, k: nat) returns (at: nat)
    requires ValidIV(iv) && FedBy(key, iv, sent, calls) && k < |calls|
    requires var (rs, _) := Run(key, iv, FRESH_READER, calls);
             rs[k] == EndOfStream && forall i :: 0 <= i < k ==> rs[i] != EndOfStream
    ensures at < |sent| && IsCloseNotify(sent[at])
    ensures Delivered(Run(key, iv, FRESH_READER, calls).0[..k]) == AppData(sent[..at])
    ensures Run(key, iv, FRESH_READER, calls[..k + 1]).1 == ReadState([], at + 1, true)
  {
    var before := calls[..k];
    RunSplit(key, iv, FRESH_READER, calls, k);
    assert forall i :: 0 <= i < |before| ==> before[i] == calls[i];
    var whole := Run(key, iv, FRESH_READER, calls).0;
    var (rs, mid) := Run(key, iv, FRESH_READER, before);
    assert forall i :: 0 <= i < |before| ==> rs[i] == whole[i];
    RunKeeps(key, iv, sent, FRESH_READER, before, []);
    assert [] + Delivered(rs) == Delivered(rs);
    NoEndNoCloseNotify(key, iv, sent, FRESH_READER, before, []);
    var c := calls[k];
    var m :| 0 <= m <= |sent| && Sealing(c.log, key, iv, sent[..m]);
    hide Sealing;
    hide ReadOnce;
    ReadSafe(c.log, key, iv, sent, m, c.size, mid, c.stream, Delivered(rs));
    var (r, st', _) := ReadOnce(c.log, key, iv, c.size, mid, c.stream);
    at := st'.sequence - 1;
    AppDataNext(sent, at);
    assert Delivered(rs) + [] + [] == Delivered(rs);
    RunLast(key, iv, FRESH_READER, calls, k);
  }

  lemma {:induction false} RunLast(key: bytes, iv: bytes, st: ReadState, calls: seq<Call>, k: nat)
    requires ValidIV(iv) && k < |calls|
    ensures var mid := Run(key, iv, st, calls[..k]).1;
            Run(key, iv, st, calls[..k + 1]).1 == ReadOnce(calls[k].log, key, iv, calls[k].size, mid, calls[k].stream).1
    decreases k
  {
    hide ReadOnce;
    var longer, shorter := calls[..k + 1], calls[..k];
    if k > 0 {
      var c := calls[0];
      var st' := ReadOnce(c.log, key, iv, c.size, st, c.stream).1;
      RunLast(key, iv, st', calls[1..], k - 1);
      assert longer[1..] == calls[1..][..k] && shorter[1..] == calls[1..][..k - 1];
      assert longer[0] == c && shorter[0] == c;
    } else {
      assert longer[0] == calls[0] && longer[1..] == [] && shorter == [];
    }
  }

  /** A finished Write contributes exactly its argument, an interrupted one a prefix of it. */
  lemma {:induction false} AppDataOfWrite(data: bytes, recs: seq<Sealed>)
    requires |recs| <= |Chunks(data)| && CarryChunks(recs, APPLICATION_DATA, Chunks(data)[..|recs|])
    ensures AppData(recs) <= data
    ensures |recs| == |Chunks(data)| ==> AppData(recs) == data
    decreases |data|
  {
    if recs != [] {
      var n := if |data| > MAX_PLAINTEXT then MAX_PLAINTEXT else |data|;
      ChunksHead(data, n);
      var chunks := Chunks(data)[..|recs|];
      assert recs[0].plaintext == chunks[0] == data[..n];
      assert chunks[1..] == Chunks(data[n..])[..|recs| - 1];
      AppDataOfWrite(data[n..], recs[1..]);
      assert data == data[..n] + data[n..];
    }
  }

  // An honest network delivers everything -------------------------------------------

  /** The peer wrote data, closed, and the network delivers the unread records unharmed. */
  ghost predicate Honest(log: Log, key: bytes, iv: bytes, sent: seq<Sealed>, st: ReadState, s: Stream) {
    && Sealing(log, key, iv, sent)
    && sent != [] && IsCloseNotify(sent[|sent| - 1])
    && (forall i :: 0 <= i < |sent| - 1 ==> sent[i].contentType == APPLICATION_DATA)
    && st.sequence < |sent|
    && s.pending == WireAll(sent[st.sequence..])
  }

  lemma RecordIsLonger(s: Sealed)
    requires WellSealed(s)
    ensures |Wire(s)| > |s.plaintext|
  {
  }

  lemma NothingAfter(sent: seq<Sealed>)
    ensures WireAll(sent[|sent|..]) == []
  {
    assert sent[|sent|..] == [];
  }

  /** The next record comes off the connection and opens, and the rest is still honest. */
  lemma HonestNext(log: Log, key: bytes, iv: bytes, sent: seq<Sealed>, st: ReadState, s: Stream)
    requires Honest(log, key, iv, sent, st, s)
    ensures var i := st.sequence;
            var s' := Stream(WireAll(sent[i + 1..]), s.ending);
            && ValidIV(iv)
            && NextRecord(s) == (Ok(Wire(sent[i])), s')
            && UnsealAt(log, key, iv, i, Wire(sent[i])) == Ok(Opened(sent[i].contentType, sent[i].plaintext))
            && |s'.pending| + |sent[i].plaintext| < |s.pending|
            && (if i < |sent| - 1 then
                  sent[i].contentType == APPLICATION_DATA && Honest(log, key, iv, sent, st.(sequence := i + 1), s')
                else IsCloseNotify(sent[i]) && s'.pending == [])
  {
    hide Sealing;
    hide WellSealed;
    hide NextRecord;
    hide UnsealAt;
    hide WireAll;
    hide PlainAll;
    var i := st.sequence;
    SealedRecord(log, key, iv, sent, i);
    PlainAllNext(sent, i);
    assert KnownTypes(sent);
    UnsealKnown(log, key, iv, sent, i, Wire(sent[i]));
    NextRecordOfWire(sent[i], WireAll(sent[i + 1..]), s.ending);
    RecordIsLonger(sent[i]);
    NothingAfter(sent);
  }

  lemma MeaningOfData(plaintext: bytes, size: nat)
    requires size > 0
    ensures var n := Min(size, |plaintext|);
            if plaintext == [] then Meaning(Opened(APPLICATION_DATA, plaintext), size) == None
            else Meaning(Opened(APPLICATION_DATA, plaintext), size) == Some((Data(plaintext[..n]), plaintext[n..]))
                 && plaintext[..n] != [] && |plaintext[n..]| < |plaintext|
  {
  }

  lemma {:induction false} HonestRecords(log: Log, key: bytes, iv: bytes, sent: seq<Sealed>, size: nat, st: ReadState,
      s: Stream)
    requires Honest(log, key, iv, sent, st, s) && size > 0 && st.buffer == []
    ensures ValidIV(iv) && HonestOutcome(log, key, iv, sent, st, s, ReadRecords(log, key, iv, size, st, s))
    decreases |s.pending|
  {
    hide UnsealAt;
    hide NextRecord;
    hide WireAll;
    hide ReadRecords;
    HonestNext(log, key, iv, sent, st, s);
    var i := st.sequence;
    var s' := Stream(WireAll(sent[i + 1..]), s.ending);
    ReadRecordsTurn(log, key, iv, size, st, s, Wire(sent[i]), s', Opened(sent[i].contentType, sent[i].plaintext));
    if sent[i].contentType == APPLICATION_DATA {
      MeaningOfData(sent[i].plaintext, size);
    }
    if i < |sent| - 1 {
      if sent[i].plaintext == [] {
        HonestRecords(log, key, iv, sent, size, st.(sequence := i + 1), s');
      } else {
        HonestWithBuffer(log, key, iv, sent, st.(sequence := i + 1), s',
            sent[i].plaintext[Min(size, |sent[i].plaintext|)..]);
      }
    }
  }

  /** Data, and the rest is still honest and less of it is left; or the end, with everything read. */
  ghost predicate HonestOutcome(log: Log, key: bytes, iv: bytes, sent: seq<Sealed>, st: ReadState, s: Stream,
                                outcome: (ReadResult, ReadState, Stream))
    requires ValidIV(iv)
  {
    var (r, st', s') := outcome;
    match r
    case Data(d) => d != [] && Honest(log, key, iv, sent, st', s') && st'.closeNotify == st.closeNotify
                    && |st'.buffer| + |s'.pending| < |st.buffer| + |s.pending|
    case EndOfStream => st'.sequence == |sent| && st'.buffer == []
    case Failed(_) => false
  }

  lemma HonestWithBuffer(log: Log, key: bytes, iv: bytes, sent: seq<Sealed>, st: ReadState, s: Stream, buffer: bytes)
    requires Honest(log, key, iv, sent, st, s)
    ensures Honest(log, key, iv, sent, st.(buffer := buffer), s)
  {
  }

  lemma HonestRead(log: Log, key: bytes, iv: bytes, sent: seq<Sealed>, size: nat, st: ReadState, s: Stream)
    requires Honest(log, key, iv, sent, st, s) && size > 0
    ensures ValidIV(iv) && HonestOutcome(log, key, iv, sent, st, s, ReadOnce(log, key, iv, size, st, s))
  {
    assert ValidIV(iv);
    hide Sealing;
    hide WireAll;
    if st.buffer == [] {
      HonestRecords(log, key, iv, sent, size, st, s);
      hide ReadRecords;
    } else {
      HonestWithBuffer(log, key, iv, sent, st, s, st.buffer[Min(size, |st.buffer|)..]);
    }
  }

  lemma HonestHistory(log: Log, key: bytes, iv: bytes, sent: seq<Sealed>, st: ReadState, s: Stream)
    requires Honest(log, key, iv, sent, st, s)
    ensures Sealing(log, key, iv, sent[..|sent|]) && KnownTypes(sent) && |sent| <= MAX_SEQ && ValidIV(iv)
  {
    assert sent[..|sent|] == sent;
  }

  /** One Read: the size of its buffer, and the bytes that come in before it returns. */
  datatype Turn = Turn(size: nat, arrived: bytes)

  function Arrived(turns: seq<Turn>): bytes {
    if turns == [] then [] else turns[0].arrived + Arrived(turns[1..])
  }

  /** The read used up what was there in the middle of a record: in truth it waits for more. */
  predicate RanOut(r: ReadResult) {
    r == Failed(NoCloseNotify) || r == Failed(TruncatedRecord)
  }

  /** What a series of reads hands out, and how it ends if it does. */
  function Drain(log: Log, key: bytes, iv: bytes, st: ReadState, pending: bytes,
      turns: seq<Turn>): (bytes, Option<ReadResult>)
    requires ValidIV(iv)
    decreases |turns|
  {
    if turns == [] then ([], None)
    else
      var (r, st', s') := ReadOnce(log, key, iv, turns[0].size, st, Stream(pending + turns[0].arrived, Closed));
      if !r.Data? then ([], Some(r))
      else
        var (more, end) := Drain(log, key, iv, st', s'.pending, turns[1..]);
        (r.bytes + more, end)
  }

  /** Each read returns only once enough has arrived for it. */
  ghost predicate Patient(log: Log, key: bytes, iv: bytes, st: ReadState, pending: bytes, turns: seq<Turn>)
    requires ValidIV(iv)
    decreases |turns|
  {
    turns == [] ||
    (var (r, st', s') := ReadOnce(log, key, iv, turns[0].size, st, Stream(pending + turns[0].arrived, Closed));
     !RanOut(r) && (r.Data? ==> Patient(log, key, iv, st', s'.pending, turns[1..])))
  }

  lemma FullReadAhead(p: bytes, more: bytes, ending: Ending, n: nat)
    requires n <= |p|
    ensures ReadFull(Stream(p, Closed), n) == (Ok(p[..n]), Stream(p[n..], Closed))
    ensures ReadFull(Stream(p + more, ending), n) == (Ok(p[..n]), Stream(p[n..] + more, ending))
  {
    assert (p + more)[..n] == p[..n];
    assert (p + more)[n..] == p[n..] + more;
  }

  /** Reading a record does not depend on what comes behind it. */
  lemma RecordReadAhead(p: bytes, more: bytes, ending: Ending)
    ensures var (r, s') := NextRecord(Stream(p, Closed));
            || (r.Err? && (r.error.HeaderUnread? || r.error.PayloadUnread?))
            || NextRecord(Stream(p + more, ending)) == (r, Stream(s'.pending + more, ending))
    ensures var (r, s') := NextRecord(Stream(p, Closed));
            && s'.ending == Closed
            && r != Err(HeaderUnread(Fault)) && r != Err(PayloadUnread(Fault))
  {
    if |p| >= HEADER_LEN {
      FullReadAhead(p, more, ending, HEADER_LEN);
      var n := BE(p[..HEADER_LEN][3..5]);
      var rest := p[HEADER_LEN..];
      hide BE;
      if n <= |rest| {
        FullReadAhead(rest, more, ending, n);
      }
      hide ReadFull;
      if n > |rest| {
        ShortRead(rest, n);
      }
    } else {
      ShortRead(p, HEADER_LEN);
    }
  }

  lemma ShortRead(p: bytes, n: nat)
    requires |p| < n
    ensures ReadFull(Stream(p, Closed), n).0.Err? && ReadFull(Stream(p, Closed), n).0.error != Fault
    ensures ReadFull(Stream(p, Closed), n).1.ending == Closed
  {
  }

  /** Nor does a read that does not run out. */
  lemma {:induction false} RecordsReadAhead(log: Log, key: bytes, iv: bytes, size: nat, st: ReadState, p: bytes,
      more: bytes, ending: Ending)
    requires ValidIV(iv) && !st.closeNotify
    ensures var (r, st', s') := ReadRecords(log, key, iv, size, st, Stream(p, Closed));
            || RanOut(r)
            || ReadRecords(log, key, iv, size, st, Stream(p + more, ending))
                 == (r, st', Stream(s'.pending + more, ending))
    decreases |p|
  {
    RecordReadAhead(p, more, ending);
    hide NextRecord;
    hide UnsealAt;
    hide Meaning;
    var (record, s') := NextRecord(Stream(p, Closed));
    if record.Ok? {
      var o := UnsealAt(log, key, iv, st.sequence, record.value);
      if o.Ok? {
        ReadRecordsTurn(log, key, iv, size, st, Stream(p, Closed), record.value, s', o.value);
        ReadRecordsTurn(log, key, iv, size, st, Stream(p + more, ending), record.value,
            Stream(s'.pending + more, ending), o.value);
        if Meaning(o.value, size) == None {
          RecordsReadAhead(log, key, iv, size, st.(sequence := st.sequence + 1), s'.pending, more, ending);
        }
        hide ReadRecords;
      }
    }
  }

  lemma ReadAhead(log: Log, key: bytes, iv: bytes, size: nat, st: ReadState, p: bytes, more: bytes)
    requires ValidIV(iv) && !st.closeNotify
    ensures var (r, st', s') := ReadOnce(log, key, iv, size, st, Stream(p, Closed));
            || RanOut(r)
            || ReadOnce(log, key, iv, size, st, Stream(p + more, Closed))
                 == (r, st', Stream(s'.pending + more, Closed))
  {
    RecordsReadAhead(log, key, iv, size, st, p, more, Closed);
    hide ReadRecords;
  }

  lemma AllRead(sent: seq<Sealed>, st: ReadState, delivered: bytes)
    requires Faithful(sent, st, delivered + []) && st.sequence == |sent| && st.buffer == []
    ensures delivered + [] == AppData(sent)
  {
    assert sent[..|sent|] == sent;
    assert delivered + [] + [] == delivered + [];
  }

  /**
   Delivery: over an honest network, whatever the sizes of the reader's non-empty buffers and
   in whatever pieces the bytes come in, enough reads hand out exactly what was written and
   then the end of the stream.
   */
  lemma {:induction false} EverythingArrives(log: Log, key: bytes, iv: bytes, sent: seq<Sealed>, st: ReadState,
      pending: bytes, turns: seq<Turn>, delivered: bytes)
    requires Honest(log, key, iv, sent, st, Stream(pending + Arrived(turns), Closed)) && !st.closeNotify
    requires Faithful(sent, st, delivered)
    requires forall i :: 0 <= i < |turns| ==> turns[i].size > 0
    requires |turns| > |st.buffer| + |pending| + |Arrived(turns)|
    requires ValidIV(iv) && Patient(log, key, iv, st, pending, turns)
    ensures var (data, end) := Drain(log, key, iv, st, pending, turns);
            delivered + data == AppData(sent) && end == Some(EndOfStream)
    decreases |turns|
  {
    var turn, rest := turns[0], turns[1..];
    var now, more := pending + turn.arrived, Arrived(rest);
    assert Arrived(turns) == turn.arrived + more;
    ConcatAssociates(pending, turn.arrived, more);
    hide *;
    HonestTurn(log, key, iv, sent, turn.size, st, Stream(now + more, Closed), delivered);
    ReadAhead(log, key, iv, turn.size, st, now, more);
    PatientTurn(log, key, iv, st, pending, turns);
    var (r, st', s') := ReadOnce(log, key, iv, turn.size, st, Stream(now, Closed));
    if r.Data? {
      EverythingArrives(log, key, iv, sent, st', s'.pending, rest, delivered + r.bytes);
      ConcatAssociates(delivered, r.bytes, Drain(log, key, iv, st', s'.pending, rest).0);
    }
  }

  lemma PatientTurn(log: Log, key: bytes, iv: bytes, st: ReadState, pending: bytes, turns: seq<Turn>)
    requires ValidIV(iv) && turns != [] && Patient(log, key, iv, st, pending, turns)
    ensures var (r, st', s') := ReadOnce(log, key, iv, turns[0].size, st, Stream(pending + turns[0].arrived, Closed));
            && !RanOut(r)
            && Drain(log, key, iv, st, pending, turns) ==
               (if !r.Data? then ([], Some(r))
                else var (more, end) := Drain(log, key, iv, st', s'.pending, turns[1..]); (r.bytes + more, end))
            && (r.Data? ==> Patient(log, key, iv, st', s'.pending, turns[1..]))
  {
    hide ReadOnce;
  }

  /** One read: data, with everything still in order and less left to read; or the end, and that was all. */
  lemma HonestTurn(log: Log, key: bytes, iv: bytes, sent: seq<Sealed>, size: nat, st: ReadState, s: Stream,
      delivered: bytes)
    requires Honest(log, key, iv, sent, st, s) && size > 0 && !st.closeNotify && Faithful(sent, st, delivered)
    ensures ValidIV(iv)
    ensures var (r, st', s') := ReadOnce(log, key, iv, size, st, s);
            match r
            case Data(d) => Honest(log, key, iv, sent, st', s') && !st'.closeNotify
                            && Faithful(sent, st', delivered + d)
                            && |st'.buffer| + |s'.pending| < |st.buffer| + |s.pending|
            case EndOfStream => delivered + [] == AppData(sent)
            case Failed(_) => false
  {
    HonestHistory(log, key, iv, sent, st, s);
    hide Honest;
    hide Sealing;
    hide KnownTypes;
    hide ReadOnce;
    hide AppData;
    HonestRead(log, key, iv, sent, size, st, s);
    ReadSafe(log, key, iv, sent, |sent|, size, st, s, delivered);
    hide Faithful;
    var (r, st', _) := ReadOnce(log, key, iv, size, st, s);
    if r.EndOfStream? {
      AllRead(sent, st', delivered);
    }
  }

  // The connection object ---------------------------------------------------------------

  lemma OneOnWire(s: Sealed)
    ensures WireAll([s]) == Wire(s)
  {
    assert [s][1..] == [];
  }

  /** Sending close_notify: one record under a deadline, unless it cannot be sealed; what failed is reported. */
  ghost predicate NotifiesLike(refused: bool, recs: seq<Sealed>, did: seq<Io>, failed: bool) {
    if refused then recs == [] && did == [] && failed
    else
      && |recs| == 1 && IsCloseNotify(recs[0])
      && (|| (did == [DeadlineSet(false)] && failed)
          || (exists err :: did == [DeadlineSet(true), Wrote(Wire(recs[0]), err)] && failed == err.Some?))
  }

  /**
   The operations of one Close on the raw connection: a close_notify if the handshake is done,
   and in every case the raw close, last. It reports a failure exactly if one of these failed.
   */
  ghost predicate ClosesLike(done: bool, refused: bool, recs: seq<Sealed>, did: seq<Io>, failed: bool) {
    && did != [] && did[|did| - 1].RawClosed?
    && var before, closed := did[..|did| - 1], did[|did| - 1].ok;
    if !done then recs == [] && before == [] && failed == !closed
    else exists alertFailed :: NotifiesLike(refused, recs, before, alertFailed) && failed == (alertFailed || !closed)
  }

  lemma ClosesAs(done: bool, refused: bool, recs: seq<Sealed>, before: seq<Io>, alertFailed: bool, closed: bool)
    requires done ==> NotifiesLike(refused, recs, before, alertFailed)
    requires !done ==> recs == [] && before == [] && !alertFailed
    ensures ClosesLike(done, refused, recs, before + [RawClosed(closed)], alertFailed || !closed)
  {
    hide NotifiesLike;
    var did := before + [RawClosed(closed)];
    assert did[..|did| - 1] == before;
  }

  /** What the handshake yields when it is this call that runs it. */
  datatype HandshakeOutcome = Established(inCipher: RecordCipher, outCipher: RecordCipher) | Aborted

  class Conn {
    const source: Source
    const sink: Sink
    var handshakeDone: bool
    var handshakeFailed: bool
    var inCipher: RecordCipher?
    var outCipher: RecordCipher?
    var readBuf: bytes
    var closeNotifyReceived: bool
    var closeOnceDone: bool
    var closeFailed: bool
    var rawClosed: bool

    ghost predicate Valid()
      reads this, inCipher, outCipher
    {
      && !(handshakeDone && handshakeFailed)
      && (handshakeDone ==>
            inCipher != null && outCipher != null && inCipher != outCipher
            && inCipher.Valid() && outCipher.Valid())
    }

    constructor (source: Source, sink: Sink)
      ensures Valid() && !handshakeDone && !handshakeFailed
      ensures this.source == source && this.sink == sink
      ensures readBuf == [] && !closeNotifyReceived && !closeOnceDone
    {
      this.source, this.sink := source, sink;
      handshakeDone, handshakeFailed, inCipher, outCipher := false, false, null, null;
      readBuf, closeNotifyReceived := [], false;
      closeOnceDone, closeFailed, rawClosed := false, false, false;
    }

    /** Runs the handshake at most once; success and failure are both sticky. */
    method EnsureHandshake(h: HandshakeOutcome) returns (ok: bool)
      requires Valid()
      requires h.Established? ==> h.inCipher != h.outCipher && h.inCipher.Valid() && h.outCipher.Valid()
      modifies this`handshakeDone, this`handshakeFailed, this`inCipher, this`outCipher
      ensures Valid() && ok == handshakeDone
      ensures old(handshakeDone || handshakeFailed) ==> unchanged(this)
      ensures !old(handshakeDone || handshakeFailed) ==>
                match h
                case Established(i, o) => ok && inCipher == i && outCipher == o
                case Aborted => handshakeFailed && !ok
    {
      if handshakeDone {
        return true;
      }
      if handshakeFailed {
        return false;
      }
      match h
      case Aborted =>
        handshakeFailed := true;
        ok := false;
      case Established(i, o) =>
        inCipher, outCipher := i, o;
        handshakeDone := true;
        ok := true;
    }

    ghost function Reading(): ReadState
      reads this, inCipher, outCipher
      requires Valid() && handshakeDone
    {
      ReadState(readBuf, inCipher.sequence, closeNotifyReceived)
    }

    /** The record loop of Read: the result, and what of the last record does not fit it. */
    method FetchData(size: nat) returns (r: ReadResult, rest: bytes)
      requires Valid() && handshakeDone && readBuf == []
      modifies this`closeNotifyReceived, inCipher`sequence, source
      ensures Valid()
      ensures (r, Reading().(buffer := rest), source.stream)
           == ReadRecords(inCipher.aead.log, inCipher.key, inCipher.iv, size, old(Reading()), old(source.stream))
    {
      hide UnsealAt;
      hide NextRecord;
      hide ReadRecords;
      ghost var log, key, iv := inCipher.aead.log, inCipher.key, inCipher.iv;
      ghost var outcome := ReadRecords(log, key, iv, size, Reading(), source.stream);
      while true
        invariant Valid()
        invariant ReadRecords(log, key, iv, size, Reading(), source.stream) == outcome
        decreases |source.stream.pending|
      {
        ghost var st, s := Reading(), source.stream;
        ReadRecordsStops(log, key, iv, size, st, s);
        var record := source.ReadRecord();
        assert Reading() == st;
        if record.Err? {
          return RecordFailure(record.error, closeNotifyReceived), [];
        }
        var opening := inCipher.Unseal(record.value);
        if opening.Err? {
          assert Reading() == st;
          return Failed(NotAuthentic(opening.error)), [];
        }
        assert Reading() == st.(sequence := st.sequence + 1);
        ReadRecordsTurn(log, key, iv, size, st, s, record.value, source.stream, opening.value);
        var plaintext := opening.value.plaintext;
        if opening.value.contentType == ALERT {
          if |plaintext| != 2 {
            return Failed(MalformedAlert(|plaintext|)), [];
          }
          var level, desc := plaintext[0], plaintext[1];
          if level == 1 && desc == 0 {
            assert plaintext == CLOSE_NOTIFY;
            closeNotifyReceived := true;
            return EndOfStream, [];
          }
          return Failed(OtherAlert(level, desc)), [];
        }
        if opening.value.contentType != APPLICATION_DATA {
          return Failed(UnexpectedType(opening.value.contentType)), [];
        }
        if |plaintext| > 0 {
          var n := Min(size, |plaintext|);
          return Data(plaintext[..n]), plaintext[n..];
        }
      }
    }

    /** Read once the handshake is done: the buffer b receives the data of the result. */
    method ReadEstablished(b: array<byte>) returns (r: ReadResult)
      requires Valid() && handshakeDone
      modifies this`readBuf, this`closeNotifyReceived, inCipher`sequence, source, b
      ensures Valid()
      ensures (r, Reading(), source.stream)
           == ReadOnce(inCipher.aead.log, inCipher.key, inCipher.iv, b.Length, old(Reading()), old(source.stream))
      ensures |DataOf(r)| <= b.Length
      ensures b[..] == DataOf(r) + old(b[..])[|DataOf(r)|..]
    {
      if b.Length == 0 {
        return Data([]);
      }
      if |readBuf| > 0 {
        var n := Min(b.Length, |readBuf|);
        r := Data(readBuf[..n]);
        readBuf := readBuf[n..];
      } else {
        hide ReadRecords;
        DataFits(inCipher.aead.log, inCipher.key, inCipher.iv, b.Length, Reading(), source.stream);
        r, readBuf := FetchData(b.Length);
      }
      CopyInto(b, DataOf(r));
    }

    method Read(b: array<byte>, h: HandshakeOutcome) returns (r: ReadResult)
      requires Valid()
      requires h.Established? ==> h.inCipher != h.outCipher && h.inCipher.Valid() && h.outCipher.Valid()
      modifies this, source, b, if h.Established? then {h.inCipher} else {}, if inCipher != null then {inCipher} else {}
      ensures Valid()
      ensures !handshakeDone ==>
              r == Failed(HandshakeFailed) && b[..] == old(b[..]) && source.stream == old(source.stream)
      ensures handshakeDone ==>
                && (old(handshakeDone) || h.Established?)
                && inCipher == (if old(handshakeDone) then old(inCipher) else h.inCipher)
                && var before := if old(handshakeDone) then old(inCipher.sequence) else old(h.inCipher.sequence);
                && (r, Reading(), source.stream)
                   == ReadOnce(inCipher.aead.log, inCipher.key, inCipher.iv, b.Length,
                                      ReadState(old(readBuf), before, old(closeNotifyReceived)), old(source.stream))
                && |DataOf(r)| <= b.Length && b[..] == DataOf(r) + old(b[..])[|DataOf(r)|..]
    {
      var ok := EnsureHandshake(h);
      if !ok {
        return Failed(HandshakeFailed);
      }
      r := ReadEstablished(b);
    }

    /**
     Write once the handshake is done. `recs` are the records sealed for this call; on failure
     the last one may have been sealed without reaching the wire whole, and n counts the bytes
     of those that did.
     */
    method WriteEstablished(data: bytes, ghost sent: seq<Sealed>)
      returns (n: nat, why: Option<WriteFailure>, ghost recs: seq<Sealed>)
      requires Valid() && handshakeDone
      requires Sealing(outCipher.aead.log, outCipher.key, outCipher.iv, sent) && outCipher.sequence == |sent|
      modifies sink, outCipher`sequence, outCipher.aead
      ensures Valid() && handshakeDone
      ensures SealedSoFar(outCipher.aead.log, outCipher.key, outCipher.iv, outCipher.sequence, sent,
                          APPLICATION_DATA, Chunks(data), recs)
      ensures why == None ==> n == |data| && |recs| == |Chunks(data)| && sink.wire == old(sink.wire) + WireAll(recs)
      ensures why.Some? ==> Explains(why.value, outCipher.sequence, sink.history)
      ensures why.Some? ==> exists k: nat ::
                && k <= |recs| <= k + 1 && k < |Chunks(data)| && n == k * MAX_PLAINTEXT
                && old(sink.wire) + WireAll(recs[..k]) <= sink.wire <= old(sink.wire) + WireAll(recs)
    {
      hide Sealing;
      hide CarryChunks;
      hide WireAll;
      hide Chunks;
      var b := data;
      n := 0;
      recs := [];
      ghost var all := Chunks(data);
      NothingToWrite();
      SealedNothingYet(outCipher.aead.log, outCipher.key, outCipher.iv, sent, APPLICATION_DATA, all);
      while |b| > 0
        invariant Valid() && handshakeDone
        invariant SealedSoFar(outCipher.aead.log, outCipher.key, outCipher.iv, outCipher.sequence, sent,
                              APPLICATION_DATA, all, recs)
        invariant all[|recs|..] == Chunks(b)
        invariant sink.wire == old(sink.wire) + WireAll(recs)
        invariant n + |b| == |data|
        invariant |b| > 0 ==> n == |recs| * MAX_PLAINTEXT
        decreases |b|
      {
        var chunkSize := if |b| > MAX_PLAINTEXT then MAX_PLAINTEXT else |b|;
        var chunk := b[..chunkSize];
        NextChunk(all, |recs|, b, chunkSize);
        ghost var log, sequence := outCipher.aead.log, outCipher.sequence;
        var record := outCipher.Seal(APPLICATION_DATA, chunk);
        if record.Err? {
          assert recs[..|recs|] == recs;
          SealRefusedForSequence(chunk, outCipher.sequence);
          return n, Some(NotSealed(record.error)), recs;
        }
        ghost var s := Sealed(APPLICATION_DATA, chunk, 0, record.value[HEADER_LEN..]);
        SealedOneMore(log, outCipher.key, outCipher.iv, sequence, sent, APPLICATION_DATA, all, recs, s);
        ghost var done := recs;
        recs := recs + [s];
        var err := sink.WriteFull(record.value);
        if err.Some? {
          PartlyWritten(old(sink.wire), WireAll(done), record.value, sink.wire);
          assert recs[..|done|] == done;
          assert old(sink.wire) + WireAll(done) <= sink.wire;
          return n, Some(NotWritten(err.value)), recs;
        }
        n := n + chunkSize;
        b := b[chunkSize..];
      }
      why := None;
    }

    /** The part of Close under writeMu: `did` is what it did with the raw connection. */
    method SendCloseNotify(ghost sent: seq<Sealed>)
      returns (failed: bool, ghost recs: seq<Sealed>, ghost did: seq<Io>)
      requires Valid() && handshakeDone
      requires Sealing(outCipher.aead.log, outCipher.key, outCipher.iv, sent) && outCipher.sequence == |sent|
      modifies sink, outCipher`sequence, outCipher.aead
      ensures Valid() && handshakeDone
      ensures Sealing(outCipher.aead.log, outCipher.key, outCipher.iv, sent + recs)
      ensures outCipher.sequence == |sent| + |recs|
      ensures sink.history == old(sink.history) + did
      ensures NotifiesLike(|sent| == MAX_SEQ, recs, did, failed)
      ensures |recs| <= 1 && (recs != [] ==> IsCloseNotify(recs[0])) && (!failed ==> recs != [])
      ensures old(sink.wire) <= sink.wire <= old(sink.wire) + WireAll(recs)
      ensures !failed ==> sink.wire == old(sink.wire) + WireAll(recs)
    {
      hide Sealing;
      hide WireAll;
      hide Wire;
      hide WellSealed;
      hide Entry;
      hide InnerOf;
      failed, recs, did := true, [], [];
      NothingToWrite();
      assert sent + recs == sent;
      assert sink.wire + [] == sink.wire;
      ghost var log, sequence := outCipher.aead.log, outCipher.sequence;
      var record := outCipher.Seal(ALERT, [1, 0]);
      if record.Err? {
        return;
      }
      ghost var s := Sealed(ALERT, [1, 0], 0, record.value[HEADER_LEN..]);
      SealExtends(log, outCipher.key, outCipher.iv, sent, s);
      recs := [s];
      OneOnWire(s);
      var deadlineSet := sink.SetWriteDeadline();
      did := [DeadlineSet(deadlineSet)];
      if !deadlineSet {
        return;
      }
      var err := sink.WriteFull(record.value);
      did := did + [Wrote(record.value, err)];
      failed := err.Some?;
    }

    /** Close: at most one close_notify, whatever happens to it the raw connection is closed. */
    method Close(ghost sent: seq<Sealed>) returns (failed: bool, ghost recs: seq<Sealed>)
      requires Valid()
      requires handshakeDone ==>
                 Sealing(outCipher.aead.log, outCipher.key, outCipher.iv, sent) && outCipher.sequence == |sent|
      modifies this`closeOnceDone, this`closeFailed, this`rawClosed, sink
      modifies if outCipher != null then {outCipher, outCipher.aead} else {}
      ensures Valid() && closeOnceDone && failed == closeFailed
      ensures old(closeOnceDone) ==> recs == [] && unchanged(this) && sink.wire == old(sink.wire)
      ensures !old(closeOnceDone) ==> rawClosed
      ensures !handshakeDone ==> recs == [] && sink.wire == old(sink.wire)
      ensures |recs| <= 1 && (recs != [] ==> IsCloseNotify(recs[0]))
      ensures handshakeDone ==>
                && Sealing(outCipher.aead.log, outCipher.key, outCipher.iv, sent + recs)
                && outCipher.sequence == |sent| + |recs|
      ensures old(sink.wire) <= sink.wire <= old(sink.wire) + WireAll(recs)
      ensures old(closeOnceDone) ==> sink.history == old(sink.history)
      ensures !old(closeOnceDone) ==>
                && old(sink.history) <= sink.history
                && ClosesLike(handshakeDone, handshakeDone && |sent| == MAX_SEQ, recs,
                              sink.history[|old(sink.history)|..], failed)
      ensures !failed && !old(closeOnceDone) && handshakeDone ==>
                |recs| == 1 && sink.wire == old(sink.wire) + WireAll(recs)
    {
      hide Sealing;
      hide WireAll;
      hide Wire;
      hide NotifiesLike;
      hide ClosesLike;
      hide IsCloseNotify;
      recs := [];
      NothingToWrite();
      assert sent + recs == sent;
      assert sink.wire + [] == sink.wire;
      if closeOnceDone {
        return closeFailed, recs;
      }
      var alertFailed := false;
      ghost var did := [];
      if handshakeDone && outCipher != null {
        alertFailed, recs, did := SendCloseNotify(sent);
      }
      var closed := sink.Close();
      rawClosed := true;
      closeFailed := alertFailed || !closed;
      closeOnceDone := true;
      failed := closeFailed;
      ghost var before := did;
      did := before + [RawClosed(closed)];
      ClosesAs(handshakeDone, handshakeDone && |sent| == MAX_SEQ, recs, before, alertFailed, closed);
      assert sink.history == old(sink.history) + did;
      assert sink.history[|old(sink.history)|..] == did;
    }
  }

  /** The first bytes of an array become those of the string; the rest stay. */
  method CopyInto(b: array<byte>, data: bytes)
    requires |data| <= b.Length
    modifies b
    ensures b[..] == data + old(b[..])[|data|..]
  {
    forall i | 0 <= i < |data| {
      b[i] := data[i];
    }
  }
}
