/** The raw connection: an incoming byte stream and an outgoing byte string. */
module Net {
  import opened Bytes
  import opened Record

  /** What the reader meets when the pending bytes run out. */
  datatype Ending = Closed | Faulted

  datatype Stream = Stream(pending: bytes, ending: Ending)

  datatype ReadError = EndOfFile | UnexpectedEndOfFile | Fault

  /** io.ReadFull: a short read consumes what there was. */
  function ReadFull(s: Stream, n: nat): (Result<bytes, ReadError>, Stream) {
    if |s.pending| >= n then (Ok(s.pending[..n]), s.(pending := s.pending[n..]))
    else
      var e := if s.ending == Faulted then Fault
               else if s.pending == [] then EndOfFile else UnexpectedEndOfFile;
      (Err(e), s.(pending := []))
  }

  datatype RecordReadError =
    | HeaderUnread(cause: ReadError)
    | WrongOuterType
    | WrongLength
    | PayloadUnread(cause: ReadError)

  /** One encrypted record off the stream, header included; only type and length are looked at. */
  function NextRecord(s: Stream): (r: (Result<bytes, RecordReadError>, Stream))
    ensures |r.1.pending| <= |s.pending|
    ensures r.0.Ok? ==> |r.1.pending| < |s.pending|
  {
    var (h, s1) := ReadFull(s, HEADER_LEN);
    if h.Err? then (Err(HeaderUnread(h.error)), s1)
    else if h.value[0] != APPLICATION_DATA then (Err(WrongOuterType), s1)
    else
      var n := BE(h.value[3..5]);
      if n == 0 || n > MAX_CIPHERTEXT then (Err(WrongLength), s1)
      else
        var (p, s2) := ReadFull(s1, n);
        if p.Err? then (Err(PayloadUnread(p.error)), s2) else (Ok(h.value + p.value), s2)
  }

  /** The wire bytes of a history of records. */
  function WireAll(sent: seq<Sealed>): bytes {
    if sent == [] then [] else Wire(sent[0]) + WireAll(sent[1..])
  }

  lemma {:induction false} WireAllConcat(a: seq<Sealed>, b: seq<Sealed>)
    ensures WireAll(a + b) == WireAll(a) + WireAll(b)
  {
    hide Wire;
    if a == [] {
      assert a + b == b;
    } else {
      WireAllConcat(a[1..], b);
      ConcatHead(a, b);
      ConcatAssociates(Wire(a[0]), WireAll(a[1..]), WireAll(b));
    }
  }

  lemma WireAllAppend(a: seq<Sealed>, s: Sealed)
    ensures WireAll(a + [s]) == WireAll(a) + Wire(s)
  {
    hide Wire;
    WireAllConcat(a, [s]);
    assert WireAll([s]) == Wire(s) + WireAll([]);
  }

  /** A record that was sealed is read back whole, and nothing after it is touched. */
  lemma NextRecordOfWire(s: Sealed, rest: bytes, ending: Ending)
    requires WellSealed(s)
    ensures NextRecord(Stream(Wire(s) + rest, ending)) == (Ok(Wire(s)), Stream(rest, ending))
  {
    FrameFields(s.ciphertext);
    var w := Wire(s);
    var stream := Stream(w + rest, ending);
    assert (w + rest)[..HEADER_LEN] == w[..HEADER_LEN];
    var (h, s1) := ReadFull(stream, HEADER_LEN);
    assert h.value[3..5] == w[3..5];
    assert s1.pending == s.ciphertext + rest;
    assert s1.pending[..|s.ciphertext|] == s.ciphertext;
    assert s1.pending[|s.ciphertext|..] == rest;
  }

  /** Only the front of a stream that starts with a header of this type and length is taken, and that much of it. */
  lemma NextRecordExactly(s: Stream, record: bytes, s': Stream)
    ensures NextRecord(s) == (Ok(record), s') <==>
            && HEADER_LEN < |record| <= HEADER_LEN + MAX_CIPHERTEXT
            && record[0] == APPLICATION_DATA && BE(record[3..5]) == |record| - HEADER_LEN
            && s.pending == record + s'.pending && s.ending == s'.ending
  {
    if |s.pending| >= HEADER_LEN {
      var h, rest := s.pending[..HEADER_LEN], s.pending[HEADER_LEN..];
      assert s.pending == h + rest;
      var n := BE(h[3..5]);
      hide BE;
      if 0 < n <= |rest| {
        assert rest == rest[..n] + rest[n..];
        ConcatAssociates(h, rest[..n], rest[n..]);
      }
      if |record| > HEADER_LEN && s.pending == record + s'.pending {
        assert record[..HEADER_LEN] == h && record[HEADER_LEN..] + s'.pending == rest;
        assert record[3..5] == h[3..5] && record == h + record[HEADER_LEN..];
      }
    }
  }

  /** The receiving half of a raw connection. */
  class Source {
    var stream: Stream

    method ReadExactly(n: nat) returns (r: Result<bytes, ReadError>)
      modifies this
      ensures (r, stream) == ReadFull(old(stream), n)
    {
      var result := ReadFull(stream, n);
      r, stream := result.0, result.1;
    }

    /** The record-reading steps that Conn.Read and the handshake reader have in common. */
    method ReadRecord() returns (r: Result<bytes, RecordReadError>)
      modifies this
      ensures (r, stream) == NextRecord(old(stream))
    {
      var header := ReadExactly(HEADER_LEN);
      if header.Err? {
        return Err(HeaderUnread(header.error));
      }
      if header.value[0] != APPLICATION_DATA {
        return Err(WrongOuterType);
      }
      var payloadLen := BE(header.value[3..5]);
      if payloadLen <= 0 || payloadLen > MAX_CIPHERTEXT {
        return Err(WrongLength);
      }
      var payload := ReadExactly(payloadLen);
      if payload.Err? {
        return Err(PayloadUnread(payload.error));
      }
      r := Ok(header.value + payload.value);
    }
  }

  datatype WriteError = WriteFailed | ShortWrite

  /** One operation on the raw connection and how it went. */
  datatype Io = Wrote(p: bytes, err: Option<WriteError>) | DeadlineSet(ok: bool) | RawClosed(ok: bool)

  /** The sending half: a write may be refused or cut short at any byte. */
  class Sink {
    var wire: bytes
    ghost var history: seq<Io>

    /** writeFull: no error only when every byte was taken; a short count is an error of its own. */
    method WriteFull(p: bytes) returns (err: Option<WriteError>)
      modifies this
      ensures old(wire) <= wire <= old(wire) + p
      ensures err == None ==> wire == old(wire) + p
      ensures err == Some(ShortWrite) ==> |wire| < |old(wire)| + |p|
      ensures history == old(history) + [Wrote(p, err)]
    {
      var n: nat :| n <= |p|;
      var failed: bool := *;
      var before := wire;
      wire := wire + p[..n];
      err := if failed then Some(WriteFailed) else if n != |p| then Some(ShortWrite) else None;
      assert n == |p| ==> p[..n] == p;
      assert before + p == before + p[..n] + p[n..];
      history := history + [Wrote(p, err)];
    }

    method SetWriteDeadline() returns (ok: bool)
      modifies this
      ensures wire == old(wire) && history == old(history) + [DeadlineSet(ok)]
    {
      ok := *;
      history := history + [DeadlineSet(ok)];
    }

    method Close() returns (ok: bool)
      modifies this
      ensures wire == old(wire) && history == old(history) + [RawClosed(ok)]
    {
      ok := *;
      history := history + [RawClosed(ok)];
    }
  }
}
