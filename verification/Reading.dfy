/**
 What one Read of an established connection returns, exactly, for every honest history and
 every stream of incoming bytes.
 */
module Reading {
  import opened Bytes
  import opened Record
  import opened Net
  import opened Framing
  import opened Connection

  predicate EmptyData(s: Sealed) {
    s.contentType == APPLICATION_DATA && s.plaintext == []
  }

  /** Records a to b - 1 carry nothing. */
  ghost predicate Skipped(sent: seq<Sealed>, a: nat, b: nat) {
    a <= b <= |sent| && forall i :: a <= i < b ==> EmptyData(sent[i])
  }

  /** The next record of the history is what comes next, whole. */
  predicate Comes(sent: seq<Sealed>, b: nat, pending: bytes) {
    b < |sent| && Wire(sent[b]) <= pending
  }

  /** The reader's answer to a record, and what it keeps of it. */
  predicate Answers(s: Sealed, size: nat, closeNotify: bool, r: ReadResult, st': ReadState) {
    var p := s.plaintext;
    if s.contentType == APPLICATION_DATA then
      var n := if size <= |p| then size else |p|;
      r == Data(p[..n]) && st'.buffer == p[n..] && st'.closeNotify == closeNotify
    else
      && st'.buffer == []
      && (IsCloseNotify(s) ==> r == EndOfStream && st'.closeNotify)
      && (!IsCloseNotify(s) ==> r.Failed? && st'.closeNotify == closeNotify)
      && (s.contentType == ALERT && |p| != 2 ==> r == Failed(MalformedAlert(|p|)))
      && (s.contentType == ALERT && |p| == 2 && !IsCloseNotify(s) ==> r == Failed(OtherAlert(p[0], p[1])))
      && (s.contentType != ALERT ==> r == Failed(UnexpectedType(s.contentType)))
  }

  /** The reader's answer when no record of the history comes. */
  predicate GivesUp(behind: Stream, closeNotify: bool, r: ReadResult) {
    if |behind.pending| < HEADER_LEN then
      r == if behind.ending == Faulted then Failed(RawFault)
           else if closeNotify then EndOfStream else Failed(NoCloseNotify)
    else
      var n := BE(behind.pending[3..5]);
      if behind.pending[0] != APPLICATION_DATA then r == Failed(BadOuterType)
      else if n == 0 || n > MAX_CIPHERTEXT then r == Failed(BadLength)
      else if |behind.pending| < HEADER_LEN + n then
        r == Failed(if behind.ending == Faulted then RawFault else TruncatedRecord)
      else r.Failed? && r.why.NotAuthentic?
  }

  /** A read that skips records up to b, with these bytes behind them. */
  ghost predicate Settles(sent: seq<Sealed>, size: nat, st: ReadState, s: Stream, b: nat, behind: bytes,
      outcome: (ReadResult, ReadState, Stream)) {
    var (r, st', s') := outcome;
    && Skipped(sent, st.sequence, b) && s.pending == WireAll(sent[st.sequence..b]) + behind
    && s'.ending == s.ending
    && if Comes(sent, b, behind) then
         && !EmptyData(sent[b])
         && st'.sequence == b + 1 && behind == Wire(sent[b]) + s'.pending
         && Answers(sent[b], size, st.closeNotify, r, st')
       else st' == st.(sequence := b) && GivesUp(Stream(behind, s.ending), st.closeNotify, r)
  }

  lemma OpensWhatComes(log: Log, key: bytes, iv: bytes, sent: seq<Sealed>, a: nat, s: Stream)
    requires Sealing(log, key, iv, sent) && KnownTypes(sent) && Comes(sent, a, s.pending)
    ensures ValidIV(iv)
    ensures var s' := Stream(s.pending[|Wire(sent[a])|..], s.ending);
            && NextRecord(s) == (Ok(Wire(sent[a])), s') && |s'.pending| < |s.pending|
            && s.pending == Wire(sent[a]) + s'.pending
            && UnsealAt(log, key, iv, a, Wire(sent[a])) == Ok(Opened(sent[a].contentType, sent[a].plaintext))
  {
    hide Sealing;
    hide WellSealed;
    hide NextRecord;
    hide UnsealAt;
    var rest := s.pending[|Wire(sent[a])|..];
    assert s.pending == Wire(sent[a]) + rest;
    SealedRecord(log, key, iv, sent, a);
    NextRecordOfWire(sent[a], rest, s.ending);
    UnsealKnown(log, key, iv, sent, a, Wire(sent[a]));
    RecordIsLonger(sent[a]);
  }

  /** What is not the next record is not opened. */
  lemma OpensNothingElse(log: Log, key: bytes, iv: bytes, sent: seq<Sealed>, a: nat, s: Stream)
    requires Sealing(log, key, iv, sent) && KnownTypes(sent) && a <= |sent| && !Comes(sent, a, s.pending)
    ensures ValidIV(iv)
    ensures NextRecord(s).0.Ok? ==> UnsealAt(log, key, iv, a, NextRecord(s).0.value).Err?
  {
    assert ValidIV(iv) && |sent| <= MAX_SEQ;
    hide Sealing;
    hide NextRecord;
    hide UnsealAt;
    hide Wire;
    if NextRecord(s).0.Ok? {
      var (record, s') := NextRecord(s);
      NextRecordExactly(s, record.value, s');
      UnsealKnown(log, key, iv, sent, a, record.value);
    }
  }

  lemma FailureGivesUp(s: Stream, closeNotify: bool)
    ensures var (record, s') := NextRecord(s);
            && s'.ending == s.ending
            && (record.Err? ==> GivesUp(s, closeNotify, RecordFailure(record.error, closeNotify)))
            && (record.Ok? ==> forall reason :: GivesUp(s, closeNotify, Failed(NotAuthentic(reason))))
  {
    hide BE;
    if |s.pending| >= HEADER_LEN {
      assert s.pending[..HEADER_LEN][3..5] == s.pending[3..5];
    }
  }

  lemma AnswerOf(s: Sealed, size: nat, st: ReadState)
    requires !EmptyData(s)
    ensures match Meaning(Opened(s.contentType, s.plaintext), size)
            case None => false
            case Some((EndOfStream, _)) =>
              Answers(s, size, st.closeNotify, EndOfStream, st.(buffer := [], closeNotify := true))
            case Some((r, rest)) => Answers(s, size, st.closeNotify, r, st.(buffer := rest))
  {
  }

  lemma EmptyMeansNothing(s: Sealed, size: nat)
    requires EmptyData(s)
    ensures Meaning(Opened(s.contentType, s.plaintext), size) == None
  {
  }

  lemma SkipOne(sent: seq<Sealed>, a: nat, b: nat, pending: bytes, behind: bytes)
    requires a < |sent| && EmptyData(sent[a]) && Skipped(sent, a + 1, b)
    requires pending == Wire(sent[a]) + (WireAll(sent[a + 1..b]) + behind)
    ensures Skipped(sent, a, b) && pending == WireAll(sent[a..b]) + behind
  {
    hide Wire;
    assert sent[a..b][1..] == sent[a + 1..b];
    assert WireAll(sent[a..b]) == Wire(sent[a]) + WireAll(sent[a + 1..b]);
    ConcatAssociates(Wire(sent[a]), WireAll(sent[a + 1..b]), behind);
  }

  lemma SkipsNothing(sent: seq<Sealed>, a: nat, pending: bytes)
    requires a <= |sent|
    ensures Skipped(sent, a, a) && pending == WireAll(sent[a..a]) + pending
  {
    assert sent[a..a] == [] && [] + pending == pending;
  }

  lemma {:induction false} RecordsSettle(log: Log, key: bytes, iv: bytes, sent: seq<Sealed>, size: nat,
      st: ReadState, s: Stream) returns (b: nat, behind: bytes)
    requires Sealing(log, key, iv, sent) && KnownTypes(sent)
    requires st.sequence <= |sent| && st.buffer == []
    ensures ValidIV(iv) && Settles(sent, size, st, s, b, behind, ReadRecords(log, key, iv, size, st, s))
    decreases |s.pending|
  {
    hide Sealing;
    hide KnownTypes;
    hide Skipped;
    hide Wire;
    hide WireAll;
    hide NextRecord;
    hide UnsealAt;
    hide ReadRecords;
    hide RecordFailure;
    hide Meaning;
    hide Answers;
    hide GivesUp;
    hide EmptyData;
    var a := st.sequence;
    b, behind := a, s.pending;
    SkipsNothing(sent, a, s.pending);
    if Comes(sent, a, s.pending) {
      OpensWhatComes(log, key, iv, sent, a, s);
      var o := Opened(sent[a].contentType, sent[a].plaintext);
      var s' := Stream(s.pending[|Wire(sent[a])|..], s.ending);
      ReadRecordsTurn(log, key, iv, size, st, s, Wire(sent[a]), s', o);
      if EmptyData(sent[a]) {
        EmptyMeansNothing(sent[a], size);
        b, behind := RecordsSettle(log, key, iv, sent, size, st.(sequence := a + 1), s');
        SkipOne(sent, a, b, s.pending, behind);
      } else {
        AnswerOf(sent[a], size, st.(sequence := a + 1));
      }
    } else {
      OpensNothingElse(log, key, iv, sent, a, s);
      ReadRecordsStops(log, key, iv, size, st, s);
      FailureGivesUp(s, st.closeNotify);
    }
  }

  /**
   Read, exactly. With room in its buffer and no carry-over, a read skips the empty data records
   at the front of what comes in and then answers the next record of the history if that comes
   whole: data fills the buffer and the rest is kept, close_notify ends the stream, and every
   other record is an error. If it does not come, the read gives up: at the end of the
   connection that is the end of the stream if close_notify was received before, and an error if
   not; in every other case it is the error that fits what came.
   */
  lemma ReadExactly(log: Log, key: bytes, iv: bytes, sent: seq<Sealed>, size: nat, st: ReadState, s: Stream)
    returns (b: nat, behind: bytes)
    requires Sealing(log, key, iv, sent) && KnownTypes(sent)
    requires st.sequence <= |sent| && st.buffer == [] && size > 0
    ensures ValidIV(iv) && Settles(sent, size, st, s, b, behind, ReadOnce(log, key, iv, size, st, s))
  {
    hide Settles;
    hide Sealing;
    hide ReadRecords;
    b, behind := RecordsSettle(log, key, iv, sent, size, st, s);
  }

  /** What the records a to b - 1 are when a read takes them in and returns this. */
  ghost predicate Takes(sent: seq<Sealed>, a: nat, b: nat, closeNotify: bool, r: ReadResult) {
    && a <= b <= |sent|
    && (r.Data? ==> forall i :: a <= i < b ==> sent[i].contentType == APPLICATION_DATA)
    && (r == EndOfStream && !closeNotify ==> a < b && Skipped(sent, a, b - 1) && IsCloseNotify(sent[b - 1]))
    && (forall i :: a <= i < b && sent[i].contentType != APPLICATION_DATA && !IsCloseNotify(sent[i]) ==> r.Failed?)
  }

  lemma SettlesTakes(sent: seq<Sealed>, size: nat, st: ReadState, s: Stream, b: nat, behind: bytes,
      outcome: (ReadResult, ReadState, Stream))
    requires Settles(sent, size, st, s, b, behind, outcome)
    ensures Takes(sent, st.sequence, outcome.1.sequence, st.closeNotify, outcome.0)
  {
    hide WireAll;
    hide Wire;
    if Comes(sent, b, behind) {
      AnswersTakes(sent[b], size, st.closeNotify, outcome.0, outcome.1);
      hide Answers;
      hide IsCloseNotify;
    }
  }

  lemma AnswersTakes(s: Sealed, size: nat, closeNotify: bool, r: ReadResult, st': ReadState)
    requires Answers(s, size, closeNotify, r, st')
    ensures r.Data? ==> s.contentType == APPLICATION_DATA
    ensures r == EndOfStream ==> IsCloseNotify(s)
    ensures s.contentType != APPLICATION_DATA && !IsCloseNotify(s) ==> r.Failed?
  {
  }

  /**
   So data comes from data records alone; the first end of the stream comes right after empty
   data records, from a close_notify; and a read that takes in any other record fails.
   */
  lemma ReadTakes(log: Log, key: bytes, iv: bytes, sent: seq<Sealed>, size: nat, st: ReadState, s: Stream)
    requires Sealing(log, key, iv, sent) && KnownTypes(sent) && st.sequence <= |sent|
    ensures ValidIV(iv)
    ensures var (r, st', _) := ReadOnce(log, key, iv, size, st, s);
            Takes(sent, st.sequence, st'.sequence, st.closeNotify, r)
  {
    assert ValidIV(iv);
    hide Sealing;
    hide KnownTypes;
    hide ReadRecords;
    hide Settles;
    hide IsCloseNotify;
    if size > 0 && st.buffer == [] {
      var b, behind := ReadExactly(log, key, iv, sent, size, st, s);
      SettlesTakes(sent, size, st, s, b, behind, ReadOnce(log, key, iv, size, st, s));
    }
  }

  /** After a close_notify every further read at the end of the connection ends the stream again. */
  lemma EndStays(log: Log, key: bytes, iv: bytes, sent: seq<Sealed>, size: nat, st: ReadState, s: Stream)
    requires Sealing(log, key, iv, sent) && KnownTypes(sent) && st.sequence <= |sent|
    requires st.closeNotify && st.buffer == [] && size > 0
    requires |s.pending| < HEADER_LEN && s.ending == Closed
    ensures ValidIV(iv) && ReadOnce(log, key, iv, size, st, s) == (EndOfStream, st, Stream([], Closed))
  {
    assert ValidIV(iv);
    hide Sealing;
    hide KnownTypes;
    hide UnsealAt;
  }

  /**
   A read hands out as much as there is and fits: it leaves a carry-over only when the buffer is
   full; what is carried over is handed out first, and without touching the connection.
   */
  lemma ReadFills(log: Log, key: bytes, iv: bytes, size: nat, st: ReadState, s: Stream)
    requires ValidIV(iv)
    ensures var (r, st', s') := ReadOnce(log, key, iv, size, st, s);
            && (r.Data? ==> |r.bytes| <= size && (|r.bytes| == size || st'.buffer == []))
            && (r.Data? && size > 0 ==> r.bytes != [])
            && (st.buffer != [] || size == 0 ==>
                  r.Data? && r.bytes + st'.buffer == st.buffer && s' == s && st' == st.(buffer := st'.buffer))
  {
    if size > 0 && st.buffer == [] {
      RecordsFill(log, key, iv, size, st, s);
    } else if size > 0 {
      var n := Min(size, |st.buffer|);
      assert st.buffer[..n] + st.buffer[n..] == st.buffer;
    } else {
      assert [] + st.buffer == st.buffer;
    }
  }

  lemma {:induction false} RecordsFill(log: Log, key: bytes, iv: bytes, size: nat, st: ReadState, s: Stream)
    requires ValidIV(iv) && size > 0
    ensures var (r, st', _) := ReadRecords(log, key, iv, size, st, s);
            r.Data? ==> 0 < |r.bytes| <= size && (|r.bytes| == size || st'.buffer == [])
    decreases |s.pending|
  {
    hide UnsealAt;
    hide NextRecord;
    var (record, s') := NextRecord(s);
    if record.Ok? {
      var o := UnsealAt(log, key, iv, st.sequence, record.value);
      if o.Ok? && Meaning(o.value, size) == None {
        RecordsFill(log, key, iv, size, st.(sequence := st.sequence + 1), s');
      }
    }
  }
}
