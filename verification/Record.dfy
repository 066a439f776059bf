/**
 The record layer: a sequence-numbered authenticated cipher with a padding codec.
 The authenticated encryption itself is an ideal functionality: it picks a ciphertext
 16 bytes longer than its plaintext, logs what was sealed, and opens logged inputs only.
 */
module Record {
  import opened Bytes

  const ALERT: byte := 21
  const HANDSHAKE: byte := 22
  const APPLICATION_DATA: byte := 23

  const HEADER_LEN := 5
  const MAX_PLAINTEXT := 16384
  const MAX_CIPHERTEXT := 16384 + 256
  const KEY_SIZE := 16
  const NONCE_SIZE := 12
  const TAG_SIZE := 16
  const MAX_SEQ: nat := 0xFFFF_FFFF_FFFF_FFFF

  datatype RecordError =
    | InvalidKeySize
    | InvalidIVSize
    | PlaintextTooLarge
    | NegativePadding
    | CiphertextTooLarge
    | SequenceOverflow
    | RecordTooShort
    | InvalidHeader
    | LengthMismatch
    | OpenFailed
    | NoContentType
    | InvalidInnerType

  /** One input of the AEAD's opening operation. */
  datatype Query = Query(key: bytes, nonce: bytes, header: bytes, ciphertext: bytes)

  type Log = map<Query, bytes>

  datatype Opened = Opened(contentType: byte, plaintext: bytes)

  /** What one successful seal put on the wire; the i-th one has sequence number i. */
  datatype Sealed = Sealed(contentType: byte, plaintext: bytes, padding: nat, ciphertext: bytes)

  // Nonces ------------------------------------------------------------------

  predicate ValidIV(iv: bytes) {
    |iv| == NONCE_SIZE
  }

  function Nonce(iv: bytes, sequence: nat): (n: bytes)
    requires ValidIV(iv)
    ensures |n| == NONCE_SIZE
  {
    iv[..4] + XorBytes(iv[4..], PutBE(sequence, 8))
  }

  lemma {:induction false} XorBytesIsXorNat(a: bytes, b: bytes)
    requires |a| == |b|
    ensures BE(XorBytes(a, b)) == XorNat(BE(a), BE(b))
  {
    if a != [] {
      var n := |a| - 1;
      XorBytesIsXorNat(a[..n], b[..n]);
      XorSplitByte(BE(a[..n]), a[n], BE(b[..n]), b[n]);
      assert XorBytes(a, b)[..n] == XorBytes(a[..n], b[..n]);
    }
  }

  lemma {:induction false} BEConcat(a: bytes, b: bytes)
    ensures BE(a + b) == Pow256(|b|) * BE(a) + BE(b)
  {
    if b == [] {
      assert a + b == a;
    } else {
      var n := |b| - 1;
      BEConcat(a, b[..n]);
      assert (a + b)[..|a + b| - 1] == a + b[..n];
      ScaledProduct(Pow256(n), BE(a));
    }
  }

  lemma ScaledProduct(p: nat, a: nat)
    ensures 256 * (p * a) == (256 * p) * a
  {
  }

  lemma {:induction false} BEOfZeros(n: nat)
    ensures BE(Zeros(n)) == 0
  {
    if n > 0 {
      assert Zeros(n)[..n - 1] == Zeros(n - 1);
      BEOfZeros(n - 1);
    }
  }

  /** The nonce is the 96-bit exclusive or of the IV and the sequence number (section 5.3 of RFC 8446). */
  lemma NonceIsXor96(iv: bytes, sequence: nat)
    requires ValidIV(iv) && sequence <= MAX_SEQ
    ensures BE(Nonce(iv, sequence)) == XorNat(BE(iv), sequence)
  {
    var s := PutBE(sequence, 8);
    var wide := Zeros(4) + s;
    Pow256Eight();
    BEOfPut(sequence, 8);
    BEOfZeros(4);
    BEConcat(Zeros(4), s);
    assert BE(wide) == sequence;
    forall i | 0 <= i < NONCE_SIZE ensures Nonce(iv, sequence)[i] == XorBytes(iv, wide)[i] {
      if i < 4 {
        XorWithZero(iv[i]);
      }
    }
    assert Nonce(iv, sequence) == XorBytes(iv, wide);
    XorBytesIsXorNat(iv, wide);
  }

  lemma {:induction false} XorWithZero(a: nat)
    ensures XorNat(a, 0) == a
  {
    if a > 0 {
      XorWithZero(a / 2);
    }
  }

  lemma NonceInjective(iv: bytes, i: nat, j: nat)
    requires ValidIV(iv) && i <= MAX_SEQ && j <= MAX_SEQ
    requires Nonce(iv, i) == Nonce(iv, j)
    ensures i == j
  {
    NonceIsXor96(iv, i);
    NonceIsXor96(iv, j);
    XorCommutes(BE(iv), i);
    XorCommutes(BE(iv), j);
    XorLeftInjective(i, j, BE(iv));
  }

  // The record format -------------------------------------------------------

  function Header(ciphertextLen: nat): (h: bytes)
    ensures |h| == HEADER_LEN
  {
    [23, 3, 3] + PutBE(ciphertextLen, 2)
  }

  function Inner(contentType: byte, plaintext: bytes, padding: nat): (s: bytes)
    ensures |s| == |plaintext| + 1 + padding
  {
    plaintext + [contentType] + Zeros(padding)
  }

  function Frame(ciphertext: bytes): bytes {
    Header(|ciphertext|) + ciphertext
  }

  /** Position of the last non-zero byte, or -1. */
  function LastNonZero(s: bytes): (i: int)
    ensures -1 <= i < |s|
    ensures i >= 0 ==> s[i] != 0
    ensures forall j :: i < j < |s| ==> s[j] == 0
  {
    if s == [] then -1
    else if s[|s| - 1] != 0 then |s| - 1
    else LastNonZero(s[..|s| - 1])
  }

  predicate KnownType(t: byte) {
    t == ALERT || t == HANDSHAKE || t == APPLICATION_DATA
  }

  function Strip(inner: bytes): Result<Opened, RecordError> {
    var i := LastNonZero(inner);
    if i < 0 then Err(NoContentType)
    else if !KnownType(inner[i]) then Err(InvalidInnerType)
    else if i > MAX_PLAINTEXT then Err(PlaintextTooLarge)
    else Ok(Opened(inner[i], inner[..i]))
  }

  /** Stripping undoes padding, for every plaintext including those that end in zeros. */
  lemma StripOfInner(contentType: byte, plaintext: bytes, padding: nat)
    requires contentType != 0
    ensures LastNonZero(Inner(contentType, plaintext, padding)) == |plaintext|
    ensures Inner(contentType, plaintext, padding)[..|plaintext|] == plaintext
  {
    var s := Inner(contentType, plaintext, padding);
    assert s[|plaintext|] == contentType;
    assert forall j :: |plaintext| < j < |s| ==> s[j] == Zeros(padding)[j - |plaintext| - 1] == 0;
  }

  /** Stripping, exactly: what comes out is what some padding of it would be, of a known type and within the limit. */
  lemma StripExactly(inner: bytes, o: Opened)
    ensures Strip(inner) == Ok(o) <==>
            && KnownType(o.contentType) && |o.plaintext| <= MAX_PLAINTEXT
            && exists padding: nat :: inner == Inner(o.contentType, o.plaintext, padding)
    ensures Strip(inner) == Err(NoContentType) <==> inner == Zeros(|inner|)
  {
    var i := LastNonZero(inner);
    if i >= 0 {
      var padding := |inner| - i - 1;
      assert inner == Inner(inner[i], inner[..i], padding);
      assert inner[i] != 0 && Zeros(|inner|)[i] == 0;
    }
    forall padding: nat | KnownType(o.contentType) && inner == Inner(o.contentType, o.plaintext, padding)
      ensures i == |o.plaintext| && inner[i] == o.contentType && inner[..i] == o.plaintext
    {
      StripOfInner(o.contentType, o.plaintext, padding);
    }
  }

  /** The checks of SealWithPadding, in order; None when it goes on to seal. */
  function SealRefusal(plaintextLen: nat, padding: int, sequence: nat): Option<RecordError> {
    if plaintextLen > MAX_PLAINTEXT then Some(PlaintextTooLarge)
    else if padding < 0 then Some(NegativePadding)
    else if plaintextLen + 1 + padding + TAG_SIZE > MAX_CIPHERTEXT then Some(CiphertextTooLarge)
    else if sequence == MAX_SEQ then Some(SequenceOverflow)
    else None
  }

  /** What Unseal returns for a record, given everything sealed so far. */
  function UnsealAt(log: Log, key: bytes, iv: bytes, sequence: nat, record: bytes): Result<Opened, RecordError>
    requires ValidIV(iv)
  {
    if |record| < HEADER_LEN + 1 + TAG_SIZE then Err(RecordTooShort)
    else if record[0] != APPLICATION_DATA then Err(InvalidHeader)
    else if BE(record[1..3]) != 0x0303 then Err(InvalidHeader)
    else if BE(record[3..5]) != |record| - HEADER_LEN then Err(LengthMismatch)
    else if BE(record[3..5]) > MAX_CIPHERTEXT then Err(CiphertextTooLarge)
    else if sequence == MAX_SEQ then Err(SequenceOverflow)
    else
      var query := Query(key, Nonce(iv, sequence), record[..HEADER_LEN], record[HEADER_LEN..]);
      if query !in log then Err(OpenFailed) else Strip(log[query])
  }

  // What a whole history of seals looks like to a receiver --------------------

  predicate WellSealed(s: Sealed) {
    && |s.plaintext| <= MAX_PLAINTEXT
    && |s.ciphertext| == |s.plaintext| + 1 + s.padding + TAG_SIZE
    && |s.ciphertext| <= MAX_CIPHERTEXT
  }

  /** A seal is refused exactly when no record of this layer could carry it, or the sequence numbers are used up. */
  lemma SealsWhatFits(contentType: byte, plaintext: bytes, padding: int, sequence: nat)
    requires sequence <= MAX_SEQ
    ensures SealRefusal(|plaintext|, padding, sequence) == None <==>
            && sequence < MAX_SEQ && padding >= 0
            && exists ciphertext :: WellSealed(Sealed(contentType, plaintext, padding, ciphertext))
    ensures SealRefusal(|plaintext|, padding, sequence) == Some(SequenceOverflow) ==> sequence == MAX_SEQ
    ensures padding == 0 && |plaintext| <= MAX_PLAINTEXT && sequence < MAX_SEQ ==>
              SealRefusal(|plaintext|, padding, sequence) == None
  {
    if padding >= 0 {
      var ciphertext := Zeros(|plaintext| + 1 + padding + TAG_SIZE);
      assert SealRefusal(|plaintext|, padding, sequence) == None ==>
          WellSealed(Sealed(contentType, plaintext, padding, ciphertext));
    }
  }

  function Wire(s: Sealed): bytes {
    Frame(s.ciphertext)
  }

  function Entry(key: bytes, iv: bytes, sequence: nat, s: Sealed): Query
    requires ValidIV(iv)
  {
    Query(key, Nonce(iv, sequence), Header(|s.ciphertext|), s.ciphertext)
  }

  function InnerOf(s: Sealed): bytes {
    Inner(s.contentType, s.plaintext, s.padding)
  }

  /** The log holds, under this key, exactly the records of `sent`, the i-th under nonce i. */
  ghost predicate Sealing(log: Log, key: bytes, iv: bytes, sent: seq<Sealed>) {
    && ValidIV(iv)
    && |sent| <= MAX_SEQ
    && (forall i :: 0 <= i < |sent| ==> WellSealed(sent[i]))
    && (forall i :: 0 <= i < |sent| ==>
          Entry(key, iv, i, sent[i]) in log && log[Entry(key, iv, i, sent[i])] == InnerOf(sent[i]))
    && (forall q :: q in log && q.key == key ==>
          exists i :: 0 <= i < |sent| && q == Entry(key, iv, i, sent[i]))
  }

  lemma SealedRecord(log: Log, key: bytes, iv: bytes, sent: seq<Sealed>, i: nat)
    requires Sealing(log, key, iv, sent) && i < |sent|
    ensures ValidIV(iv) && |sent| <= MAX_SEQ && WellSealed(sent[i])
  {
    hide WellSealed;
  }

  lemma SealingStarts(log: Log, key: bytes, iv: bytes)
    requires ValidIV(iv)
    requires forall q :: q in log ==> q.key != key
    ensures Sealing(log, key, iv, [])
  {
  }

  lemma EntryKey(key: bytes, iv: bytes, n: nat, s: Sealed)
    requires ValidIV(iv) && n <= MAX_SEQ
    ensures Entry(key, iv, n, s).key == key
  {
  }

  lemma EntriesDiffer(key: bytes, iv: bytes, i: nat, s: Sealed, n: nat, t: Sealed)
    requires ValidIV(iv) && i < n <= MAX_SEQ
    ensures Entry(key, iv, i, s) != Entry(key, iv, n, t)
  {
    if Nonce(iv, i) == Nonce(iv, n) {
      NonceInjective(iv, i, n);
    }
  }

  /** One more seal under the next nonce extends the history and overwrites nothing. */
  lemma SealExtends(log: Log, key: bytes, iv: bytes, sent: seq<Sealed>, s: Sealed)
    requires Sealing(log, key, iv, sent)
    requires WellSealed(s) && |sent| < MAX_SEQ
    ensures Entry(key, iv, |sent|, s) !in log
    ensures Sealing(log[Entry(key, iv, |sent|, s) := InnerOf(s)], key, iv, sent + [s])
  {
    hide Entry;
    hide InnerOf;
    hide WellSealed;
    var n := |sent|;
    var fresh' := Entry(key, iv, n, s);
    forall i | 0 <= i < n ensures Entry(key, iv, i, sent[i]) != fresh' {
      EntriesDiffer(key, iv, i, sent[i], n, s);
    }
    forall q | q in log && q.key == key ensures q != fresh' {
      var i :| 0 <= i < n && q == Entry(key, iv, i, sent[i]);
    }
    EntryKey(key, iv, n, s);
    var log', sent' := log[fresh' := InnerOf(s)], sent + [s];
    forall q | q in log' && q.key == key
      ensures exists i :: 0 <= i < |sent'| && q == Entry(key, iv, i, sent'[i])
    {
      if q == fresh' {
        assert sent'[n] == s;
      } else {
        var i :| 0 <= i < n && q == Entry(key, iv, i, sent[i]);
        assert sent'[i] == sent[i];
      }
    }
  }

  /** Seals under another key leave this history alone. */
  lemma SealElsewhere(log: Log, key: bytes, iv: bytes, sent: seq<Sealed>, q: Query, inner: bytes)
    requires Sealing(log, key, iv, sent) && q.key != key
    ensures Sealing(log[q := inner], key, iv, sent)
  {
  }

  lemma FrameFields(ciphertext: bytes)
    requires 1 + TAG_SIZE <= |ciphertext| <= MAX_CIPHERTEXT
    ensures var r := Frame(ciphertext);
            |r| == HEADER_LEN + |ciphertext| && r[0] == 23 && BE(r[1..3]) == 0x0303
            && r[3..5] == PutBE(|ciphertext|, 2) && BE(r[3..5]) == |ciphertext|
            && r[..HEADER_LEN] == Header(|ciphertext|) && r[HEADER_LEN..] == ciphertext
  {
    var r := Frame(ciphertext);
    assert r[1..3] == [3, 3];
    BE2(r[1..3]);
    assert r[3..5] == PutBE(|ciphertext|, 2);
    Pow256Values();
    BEOfPut(|ciphertext|, 2);
  }

  /**
   Whatever bytes the network offers, a receiver at sequence number j accepts the j-th
   sealed record and nothing else, and then sees that record's content.
   */
  lemma UnsealExactly(log: Log, key: bytes, iv: bytes, sent: seq<Sealed>, sequence: nat, record: bytes)
    requires Sealing(log, key, iv, sent) && sequence <= MAX_SEQ
    ensures UnsealAt(log, key, iv, sequence, record).Ok? <==>
            sequence < |sent| && record == Wire(sent[sequence]) && Strip(InnerOf(sent[sequence])).Ok?
    ensures UnsealAt(log, key, iv, sequence, record).Ok? ==>
            UnsealAt(log, key, iv, sequence, record) == Strip(InnerOf(sent[sequence]))
  {
    hide Strip;
    hide Inner;
    hide Nonce;
    if sequence < |sent| && record == Wire(sent[sequence]) {
      FrameFields(sent[sequence].ciphertext);
    }
    if UnsealAt(log, key, iv, sequence, record).Ok? {
      var query := Query(key, Nonce(iv, sequence), record[..HEADER_LEN], record[HEADER_LEN..]);
      var i :| 0 <= i < |sent| && query == Entry(key, iv, i, sent[i]);
      NonceInjective(iv, i, sequence);
      assert record == record[..HEADER_LEN] + record[HEADER_LEN..];
    }
  }

  /**
   Whatever has been sealed, by whomever: a record is opened to this content exactly when it is
   the frame of a ciphertext of legal length that was sealed under this key, this sequence
   number's nonce and the header of that length, around some padding of the content.
   */
  lemma UnsealMeans(log: Log, key: bytes, iv: bytes, sequence: nat, record: bytes, o: Opened)
    requires ValidIV(iv) && sequence <= MAX_SEQ
    ensures UnsealAt(log, key, iv, sequence, record) == Ok(o) <==>
            && sequence < MAX_SEQ && |record| >= HEADER_LEN
            && var ciphertext := record[HEADER_LEN..];
            && 1 + TAG_SIZE <= |ciphertext| <= MAX_CIPHERTEXT && record == Frame(ciphertext)
            && var q := Query(key, Nonce(iv, sequence), Header(|ciphertext|), ciphertext);
            && q in log && KnownType(o.contentType) && |o.plaintext| <= MAX_PLAINTEXT
            && exists padding: nat :: log[q] == Inner(o.contentType, o.plaintext, padding)
  {
    hide Strip;
    hide Inner;
    hide Nonce;
    if |record| >= HEADER_LEN + 1 + TAG_SIZE {
      var h, ciphertext := record[..HEADER_LEN], record[HEADER_LEN..];
      assert record == h + ciphertext;
      if |ciphertext| <= MAX_CIPHERTEXT {
        HeaderIs(h, |ciphertext|);
      }
      assert record[1..3] == h[1..3] && record[3..5] == h[3..5];
      var q := Query(key, Nonce(iv, sequence), h, ciphertext);
      if q in log {
        StripExactly(log[q], o);
      }
      assert record == Frame(ciphertext) ==> h == Header(|ciphertext|);
    }
    hide BE;
  }

  /** A header is made of its three checked parts. */
  lemma HeaderIs(h: bytes, n: nat)
    requires |h| == HEADER_LEN && n <= MAX_CIPHERTEXT
    ensures h == Header(n) <==> h[0] == APPLICATION_DATA && BE(h[1..3]) == 0x0303 && BE(h[3..5]) == n
  {
    assert h == [h[0]] + h[1..3] + h[3..5];
    BE2(h[1..3]);
    PutOfBE(h[3..5]);
    Pow256Values();
    BEOfPut(n, 2);
    assert h[1..3] == [h[1], h[2]];
    if h == Header(n) {
      assert h[3..5] == PutBE(n, 2);
    }
    if BE(h[1..3]) == 0x0303 {
      assert h[1] == 3 && h[2] == 3;
    }
  }

  /**
   Round trip: the record sealed at a sequence number opens there as the same type and
   plaintext exactly when the type is one the layer defines.
   */
  lemma RoundTrip(log: Log, key: bytes, iv: bytes, sent: seq<Sealed>, s: Sealed)
    requires Sealing(log, key, iv, sent) && WellSealed(s) && |sent| < MAX_SEQ
    ensures var log' := log[Entry(key, iv, |sent|, s) := InnerOf(s)];
            UnsealAt(log', key, iv, |sent|, Wire(s)) == Ok(Opened(s.contentType, s.plaintext))
            <==> KnownType(s.contentType)
  {
    var log' := log[Entry(key, iv, |sent|, s) := InnerOf(s)];
    SealExtends(log, key, iv, sent, s);
    UnsealExactly(log', key, iv, sent + [s], |sent|, Wire(s));
    if s.contentType != 0 {
      StripOfInner(s.contentType, s.plaintext, s.padding);
    }
  }

  // Nonce discipline over whole runs -----------------------------------------

  datatype Op =
    | OpSeal(plaintextLen: nat, padding: int)
    | OpUnseal(accepted: bool)
    | OpReset

  /** The sequence number after one call; an unseal can only be accepted below the limit. */
  function SeqAfter(op: Op, sequence: nat): nat {
    match op
    case OpSeal(n, p) => if SealRefusal(n, p, sequence).None? then sequence + 1 else sequence
    case OpUnseal(accepted) => if accepted && sequence != MAX_SEQ then sequence + 1 else sequence
    case OpReset => sequence
  }

  function NoncesUsed(iv: bytes, ops: seq<Op>, sequence: nat): seq<bytes>
    requires ValidIV(iv)
  {
    if ops == [] then []
    else
      (if ops[0].OpSeal? && SealRefusal(ops[0].plaintextLen, ops[0].padding, sequence).None?
       then [Nonce(iv, sequence)] else [])
      + NoncesUsed(iv, ops[1..], SeqAfter(ops[0], sequence))
  }

  function SeqAfterAll(ops: seq<Op>, sequence: nat): nat {
    if ops == [] then sequence else SeqAfterAll(ops[1..], SeqAfter(ops[0], sequence))
  }

  lemma {:induction false} NoncesComeFromSequenceNumbers(iv: bytes, ops: seq<Op>, sequence: nat, k: nat)
    requires ValidIV(iv) && sequence <= MAX_SEQ
    requires k < |NoncesUsed(iv, ops, sequence)|
    ensures exists i :: sequence <= i < MAX_SEQ && NoncesUsed(iv, ops, sequence)[k] == Nonce(iv, i)
  {
    var rest := NoncesUsed(iv, ops[1..], SeqAfter(ops[0], sequence));
    var all := NoncesUsed(iv, ops, sequence);
    if |all| == |rest| {
      assert all == rest;
      NoncesComeFromSequenceNumbers(iv, ops[1..], SeqAfter(ops[0], sequence), k);
    } else if k > 0 {
      NoncesComeFromSequenceNumbers(iv, ops[1..], SeqAfter(ops[0], sequence), k - 1);
      assert all[k] == rest[k - 1];
    }
  }

  /**
   Over any sequence of calls on one cipher, starting from sequence number `sequence`: the
   successful seals use pairwise different nonces, there are at most MAX_SEQ - sequence of
   them, and once the limit is reached every later seal is refused.
   */
  lemma {:induction false} NonceDiscipline(iv: bytes, ops: seq<Op>, sequence: nat)
    requires ValidIV(iv) && sequence <= MAX_SEQ
    ensures var used := NoncesUsed(iv, ops, sequence);
            && (forall a, b :: 0 <= a < b < |used| ==> used[a] != used[b])
            && |used| <= SeqAfterAll(ops, sequence) - sequence
            && SeqAfterAll(ops, sequence) <= MAX_SEQ
    ensures SeqAfterAll(ops, sequence) == MAX_SEQ ==>
              forall n: nat, p: int :: SealRefusal(n, p, SeqAfterAll(ops, sequence)).Some?
  {
    if ops != [] {
      var next := SeqAfter(ops[0], sequence);
      var rest := NoncesUsed(iv, ops[1..], next);
      var used := NoncesUsed(iv, ops, sequence);
      NonceDiscipline(iv, ops[1..], next);
      if |used| == |rest| {
        assert used == rest;
      } else {
        forall b | 0 <= b < |rest| ensures used[0] != rest[b] {
          NoncesComeFromSequenceNumbers(iv, ops[1..], next, b);
          var i :| next <= i < MAX_SEQ && rest[b] == Nonce(iv, i);
          if Nonce(iv, sequence) == Nonce(iv, i) {
            NonceInjective(iv, sequence, i);
          }
        }
        assert used == [used[0]] + rest;
      }
    }
  }

  lemma {:induction false} OneOpMore(iv: bytes, ops: seq<Op>, op: Op, sequence: nat)
    requires ValidIV(iv)
    ensures SeqAfterAll(ops + [op], sequence) == SeqAfter(op, SeqAfterAll(ops, sequence))
    ensures var now := SeqAfterAll(ops, sequence);
            NoncesUsed(iv, ops + [op], sequence) == NoncesUsed(iv, ops, sequence)
              + if op.OpSeal? && SealRefusal(op.plaintextLen, op.padding, now).None? then [Nonce(iv, now)] else []
  {
    hide SealRefusal;
    if ops == [] {
      assert [op][1..] == [] && [] + [op] == [op];
    } else {
      ConcatHead(ops, [op]);
      OneOpMore(iv, ops[1..], op, SeqAfter(ops[0], sequence));
    }
  }

  // The cipher object ----------------------------------------------------------

  /** SM4-GCM as an ideal functionality, shared by everyone who holds a key. */
  class Aead {
    var log: Log

    constructor ()
      ensures log == map[]
    {
      log := map[];
    }

    method Seal(key: bytes, nonce: bytes, plaintext: bytes, header: bytes) returns (ciphertext: bytes)
      modifies this
      ensures |ciphertext| == |plaintext| + TAG_SIZE
      ensures log == old(log)[Query(key, nonce, header, ciphertext) := plaintext]
    {
      assert |Zeros(|plaintext| + TAG_SIZE)| == |plaintext| + TAG_SIZE;
      ciphertext :| |ciphertext| == |plaintext| + TAG_SIZE;
      log := log[Query(key, nonce, header, ciphertext) := plaintext];
    }

    method Open(key: bytes, nonce: bytes, ciphertext: bytes, header: bytes) returns (plaintext: Option<bytes>)
      ensures var q := Query(key, nonce, header, ciphertext);
              plaintext == if q in log then Some(log[q]) else None
    {
      var q := Query(key, nonce, header, ciphertext);
      if q in log {
        plaintext := Some(log[q]);
      } else {
        plaintext := None;
      }
    }
  }

  class RecordCipher {
    const aead: Aead
    const key: bytes
    const iv: bytes
    var sequence: nat

    ghost predicate Valid()
      reads this
    {
      |key| == KEY_SIZE && ValidIV(iv) && sequence <= MAX_SEQ
    }

    constructor (aead: Aead, key: bytes, iv: bytes)
      requires |key| == KEY_SIZE && |iv| == NONCE_SIZE
      ensures Valid() && sequence == 0
      ensures this.aead == aead && this.key == key && this.iv == iv
    {
      this.aead, this.key, this.iv, this.sequence := aead, key, iv, 0;
    }

    /** NewRecordCipher: refuses keys and IVs of the wrong size. */
    static method New(aead: Aead, key: bytes, iv: bytes) returns (r: Result<RecordCipher, RecordError>)
      ensures |key| != KEY_SIZE ==> r == Err(InvalidKeySize)
      ensures |key| == KEY_SIZE && |iv| != NONCE_SIZE ==> r == Err(InvalidIVSize)
      ensures |key| == KEY_SIZE && |iv| == NONCE_SIZE ==>
                && r.Ok? && fresh(r.value) && r.value.Valid() && r.value.sequence == 0
                && r.value.aead == aead && r.value.key == key && r.value.iv == iv
    {
      if |key| != KEY_SIZE {
        return Err(InvalidKeySize);
      }
      if |iv| != NONCE_SIZE {
        return Err(InvalidIVSize);
      }
      var c := new RecordCipher(aead, key, iv);
      return Ok(c);
    }

    /** Deprecated in the source and intentionally without effect. */
    method Reset()
      requires Valid()
      ensures sequence == old(sequence)
    {
    }

    method DeriveNonce(sequence: nat) returns (nonce: bytes)
      requires Valid() && sequence <= MAX_SEQ
      ensures nonce == Nonce(iv, sequence)
    {
      var buffer := new byte[NONCE_SIZE](i requires 0 <= i < NONCE_SIZE reads this => iv[i]);
      var seqBytes := PutBE(sequence, 8);
      for i := 0 to 8
        invariant forall k :: 0 <= k < 4 || 4 + i <= k < NONCE_SIZE ==> buffer[k] == iv[k]
        invariant forall k :: 4 <= k < 4 + i ==> buffer[k] == Xor(iv[k], seqBytes[k - 4])
      {
        buffer[4 + i] := Xor(buffer[4 + i], seqBytes[i]);
      }
      nonce := buffer[..];
      assert nonce == Nonce(iv, sequence);
    }

    method SealWithPadding(contentType: byte, plaintext: bytes, padding: int)
      returns (r: Result<bytes, RecordError>)
      requires Valid()
      modifies this`sequence, aead
      ensures Valid()
      ensures match SealRefusal(|plaintext|, padding, old(sequence))
              case Some(e) => r == Err(e) && sequence == old(sequence) && aead.log == old(aead.log)
              case None =>
                && r.Ok? && |r.value| > HEADER_LEN
                && var s := Sealed(contentType, plaintext, padding, r.value[HEADER_LEN..]);
                && WellSealed(s) && r.value == Wire(s)
                && sequence == old(sequence) + 1
                && aead.log == old(aead.log)[Entry(key, iv, old(sequence), s) := InnerOf(s)]
    {
      if |plaintext| > MAX_PLAINTEXT {
        return Err(PlaintextTooLarge);
      }
      if padding < 0 {
        return Err(NegativePadding);
      }
      var innerLen := |plaintext| + 1 + padding;
      var ciphertextLen := innerLen + TAG_SIZE;
      if ciphertextLen > MAX_CIPHERTEXT {
        return Err(CiphertextTooLarge);
      }
      if sequence == MAX_SEQ {
        return Err(SequenceOverflow);
      }
      var inner := new byte[innerLen](_ => 0);
      forall i | 0 <= i < |plaintext| {
        inner[i] := plaintext[i];
      }
      inner[|plaintext|] := contentType;
      assert inner[..] == Inner(contentType, plaintext, padding);
      var header := [APPLICATION_DATA] + [3, 3] + PutBE(ciphertextLen, 2);
      assert header == Header(ciphertextLen);
      var nonce := DeriveNonce(sequence);
      var ciphertext := aead.Seal(key, nonce, inner[..], header);
      var record := header + ciphertext;
      assert record[HEADER_LEN..] == ciphertext;
      sequence := sequence + 1;
      r := Ok(record);
    }

    method Seal(contentType: byte, plaintext: bytes) returns (r: Result<bytes, RecordError>)
      requires Valid()
      modifies this`sequence, aead
      ensures Valid()
      ensures match SealRefusal(|plaintext|, 0, old(sequence))
              case Some(e) => r == Err(e) && sequence == old(sequence) && aead.log == old(aead.log)
              case None =>
                && r.Ok? && |r.value| > HEADER_LEN
                && var s := Sealed(contentType, plaintext, 0, r.value[HEADER_LEN..]);
                && WellSealed(s) && r.value == Wire(s)
                && sequence == old(sequence) + 1
                && aead.log == old(aead.log)[Entry(key, iv, old(sequence), s) := InnerOf(s)]
    {
      r := SealWithPadding(contentType, plaintext, 0);
    }

    /** Advances the sequence number on full success only; every failure leaves it unchanged. */
    method Unseal(record: bytes) returns (r: Result<Opened, RecordError>)
      requires Valid()
      modifies this`sequence
      ensures Valid()
      ensures r == UnsealAt(aead.log, key, iv, old(sequence), record)
      ensures sequence == if r.Ok? then old(sequence) + 1 else old(sequence)
    {
      if |record| < HEADER_LEN + 1 + TAG_SIZE {
        return Err(RecordTooShort);
      }
      if record[0] != APPLICATION_DATA {
        return Err(InvalidHeader);
      }
      if BE(record[1..3]) != 0x0303 {
        return Err(InvalidHeader);
      }
      var declaredLen := BE(record[3..5]);
      if declaredLen != |record| - HEADER_LEN {
        return Err(LengthMismatch);
      }
      if declaredLen > MAX_CIPHERTEXT {
        return Err(CiphertextTooLarge);
      }
      if sequence == MAX_SEQ {
        return Err(SequenceOverflow);
      }
      var nonce := DeriveNonce(sequence);
      var decryption := aead.Open(key, nonce, record[HEADER_LEN..], record[..HEADER_LEN]);
      if decryption.None? {
        return Err(OpenFailed);
      }
      var decrypted := decryption.value;
      var index := |decrypted| - 1;
      while index >= 0 && decrypted[index] == 0
        invariant -1 <= index < |decrypted|
        invariant LastNonZero(decrypted) == LastNonZero(decrypted[..index + 1])
      {
        assert decrypted[..index + 1][..index] == decrypted[..index];
        index := index - 1;
      }
      if index < 0 {
        return Err(NoContentType);
      }
      var realType := decrypted[index];
      if realType != ALERT && realType != HANDSHAKE && realType != APPLICATION_DATA {
        return Err(InvalidInnerType);
      }
      var plaintext := decrypted[..index];
      if |plaintext| > MAX_PLAINTEXT {
        return Err(PlaintextTooLarge);
      }
      sequence := sequence + 1;
      r := Ok(Opened(realType, plaintext));
    }
  }

  /** A call anyone may make on a cipher. */
  datatype Call =
    | CallSeal(contentType: byte, plaintext: bytes, padding: int)
    | CallUnseal(record: bytes)
    | CallReset

  /**
   Any sequence of calls on one cipher: what its seals added to the log are entries under its
   key with pairwise different nonces, at most as many as sequence numbers were left, and the
   rest of the log is as it was.
   */
  method MakeCalls(cipher: RecordCipher, calls: seq<Call>) returns (ghost added: seq<Query>)
    requires cipher.Valid()
    modifies cipher`sequence, cipher.aead
    ensures cipher.Valid() && old(cipher.sequence) + |added| <= cipher.sequence <= MAX_SEQ
    ensures forall a, b :: 0 <= a < b < |added| ==> added[a].nonce != added[b].nonce
    ensures forall k :: 0 <= k < |added| ==> added[k] in cipher.aead.log && added[k].key == cipher.key
    ensures forall q :: q in old(cipher.aead.log) ==> q in cipher.aead.log
    ensures forall q :: q in cipher.aead.log && q !in added ==>
              q in old(cipher.aead.log) && cipher.aead.log[q] == old(cipher.aead.log)[q]
  {
    ghost var start, ops := cipher.sequence, [];
    added := [];
    for i := 0 to |calls|
      invariant cipher.Valid() && cipher.sequence == SeqAfterAll(ops, start)
      invariant |added| == |NoncesUsed(cipher.iv, ops, start)|
      invariant forall k :: 0 <= k < |added| ==>
                  && added[k] in cipher.aead.log && added[k].key == cipher.key
                  && added[k].nonce == NoncesUsed(cipher.iv, ops, start)[k]
      invariant forall q :: q in old(cipher.aead.log) ==> q in cipher.aead.log
      invariant forall q :: q in cipher.aead.log && q !in added ==>
                  q in old(cipher.aead.log) && cipher.aead.log[q] == old(cipher.aead.log)[q]
    {
      ghost var op: Op;
      ghost var sequence := cipher.sequence;
      match calls[i] {
        case CallSeal(contentType, plaintext, padding) =>
          var r := cipher.SealWithPadding(contentType, plaintext, padding);
          op := OpSeal(|plaintext|, padding);
          if r.Ok? {
            ghost var s := Sealed(contentType, plaintext, padding, r.value[HEADER_LEN..]);
            added := added + [Entry(cipher.key, cipher.iv, sequence, s)];
          }
        case CallUnseal(record) =>
          var r := cipher.Unseal(record);
          op := OpUnseal(r.Ok?);
        case CallReset =>
          cipher.Reset();
          op := OpReset;
      }
      OneOpMore(cipher.iv, ops, op, start);
      ops := ops + [op];
    }
    NonceDiscipline(cipher.iv, ops, start);
  }
}
