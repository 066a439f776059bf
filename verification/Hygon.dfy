/**
 The fixed layout of Hygon keys, signatures and certificates: numbers are 32-byte
 little-endian fields. Reading (parseHygonPubKey, ParseHygonSignature) and writing
 (putMockHygonPubKey, signMockHygonData) are the two sides of one codec.
 */
module Hygon {
  import opened Bytes
  import opened Codec

  const HRK_CERT_SIZE := 0x340
  const CSV_CERT_SIZE := 0x824
  const HSK_CEK_SIZE := HRK_CERT_SIZE + CSV_CERT_SIZE

  const ROOT_KEY_USAGE := 0x024
  const ROOT_PUB_KEY := 0x040
  const ROOT_SIG := 0x240

  const CSV_PUB_KEY_USAGE := 0x008
  const CSV_PUB_KEY := 0x010
  const CSV_SIG1_USAGE := 0x414
  const CSV_SIG1 := 0x41c
  const CSV_SIG2_USAGE := 0x61c

  const KEY_QX := 0x004
  const KEY_QY := 0x04c
  const KEY_USER_ID := 0x094
  const SIG_R := 0x000
  const SIG_S := 0x048
  const SIG_END := SIG_S + 32

  const KEY_USAGE_HRK := 0x0
  const KEY_USAGE_HSK := 0x13
  const KEY_USAGE_INVALID := 0x1000
  const KEY_USAGE_PEK := 0x1002
  const KEY_USAGE_CEK := 0x1004
  const CURVE_SM2 := 0x3

  /** sm2.Sm2Verify(key, message, user id, r, s). */
  type Sm2Verify = (Point, bytes, bytes, nat, nat) -> bool

  datatype PubKey = PubKey(point: Point, userId: bytes)

  datatype KeyError = KeyTooShort | UnsupportedCurve | BadUserIdLength

  function Field(s: bytes, at: nat, n: nat): (f: bytes)
    requires at + n <= |s|
    ensures |f| == n
  {
    s[at..at + n]
  }

  /** A 32-byte little-endian number. */
  function Number(s: bytes, at: nat): nat
    requires at + 32 <= |s|
  {
    BE(Reversed(Field(s, at, 32)))
  }

  function Word(s: bytes, at: nat): nat
    requires at + 4 <= |s|
  {
    LE(Field(s, at, 4))
  }

  method ReverseCopy(input: bytes) returns (out: array<byte>)
    ensures out[..] == Reversed(input)
  {
    out := new byte[|input|];
    var i := 0;
    while i < |input|
      invariant 0 <= i <= |input|
      invariant forall k :: 0 <= k < i ==> out[k] == input[|input| - 1 - k]
    {
      out[i] := input[|input| - 1 - i];
      i := i + 1;
    }
  }

  function ParsePubKey(data: bytes): Result<PubKey, KeyError> {
    if |data| < KEY_USER_ID + 256 then Err(KeyTooShort)
    else if Word(data, 0) != CURVE_SM2 then Err(UnsupportedCurve)
    else
      var uidLen := LE(Field(data, KEY_USER_ID, 2));
      if uidLen > |data| - KEY_USER_ID - 2 then Err(BadUserIdLength)
      else Ok(PubKey(Point(Number(data, KEY_QX), Number(data, KEY_QY)), Field(data, KEY_USER_ID + 2, uidLen)))
  }

  /** r and s; a buffer too short to hold them yields zeros, which no verification accepts. */
  function ParseSignature(sig: bytes): (nat, nat) {
    if |sig| < SIG_END then (0, 0) else (Number(sig, SIG_R), Number(sig, SIG_S))
  }

  // Certificates -------------------------------------------------------------------

  datatype RootDetails = RootDetails(keyUsage: nat, pubKey: PubKey)

  datatype CsvDetails = CsvDetails(pubKeyUsage: nat, sig1Usage: nat, sig2Usage: nat, pubKey: PubKey)

  datatype CertError = CertTooShort | BadKey(error: KeyError)

  function ParseRoot(cert: bytes): Result<RootDetails, CertError> {
    if |cert| < HRK_CERT_SIZE then Err(CertTooShort)
    else
      match ParsePubKey(cert[ROOT_PUB_KEY..])
      case Err(e) => Err(BadKey(e))
      case Ok(key) => Ok(RootDetails(Word(cert, ROOT_KEY_USAGE), key))
  }

  function ParseCsv(cert: bytes): Result<CsvDetails, CertError> {
    if |cert| < CSV_CERT_SIZE then Err(CertTooShort)
    else
      match ParsePubKey(cert[CSV_PUB_KEY..])
      case Err(e) => Err(BadKey(e))
      case Ok(key) => Ok(CsvDetails(Word(cert, CSV_PUB_KEY_USAGE), Word(cert, CSV_SIG1_USAGE),
          Word(cert, CSV_SIG2_USAGE), key))
  }

  // Writing --------------------------------------------------------------------------

  function Splice(buf: bytes, at: nat, data: bytes): (r: bytes)
    requires at + |data| <= |buf|
    ensures |r| == |buf|
  {
    buf[..at] + data + buf[at + |data|..]
  }

  lemma SpliceReads(buf: bytes, at: nat, data: bytes)
    requires at + |data| <= |buf|
    ensures Splice(buf, at, data)[at..at + |data|] == data
  {
  }

  /** A write is invisible to every range it does not touch. */
  lemma SpliceMisses(buf: bytes, at: nat, data: bytes, lo: nat, hi: nat)
    requires at + |data| <= |buf| && lo <= hi <= |buf| && (hi <= at || at + |data| <= lo)
    ensures Splice(buf, at, data)[lo..hi] == buf[lo..hi]
  {
  }

  method Put(dst: array<byte>, at: nat, data: bytes)
    requires at + |data| <= dst.Length
    modifies dst
    ensures dst[..] == Splice(old(dst[..]), at, data)
  {
    forall i | 0 <= i < |data| {
      dst[at + i] := data[i];
    }
  }

  /** padLeft32 and ReverseCopy of a big integer's bytes. */
  function PutNumber(n: nat): (s: bytes)
    requires Coordinate(n)
    ensures |s| == 32
  {
    MinBytesPadded(n, 32);
    Reversed(PadLeft32(MinBytes(n)))
  }

  lemma NumberRoundTrip(s: bytes, at: nat, n: nat)
    requires Coordinate(n) && at + 32 <= |s| && Field(s, at, 32) == PutNumber(n)
    ensures Number(s, at) == n
  {
    MinBytesPadded(n, 32);
    var p := PadLeft32(MinBytes(n));
    assert Reversed(Reversed(p)) == p;
    BEOfPut(n, 32);
  }

  /** How much of a user id fits behind its length field. */
  function UserIdRoom(buf: bytes, at: nat, userId: bytes): (n: nat)
    requires at + KEY_USER_ID + 2 <= |buf|
    ensures n <= |userId| && at + KEY_USER_ID + 2 + n <= |buf|
  {
    if at + KEY_USER_ID + 2 + |userId| <= |buf| then |userId| else |buf| - at - KEY_USER_ID - 2
  }

  function PutPubKey(buf: bytes, at: nat, point: Point, userId: bytes): (r: bytes)
    requires at + KEY_USER_ID + 2 <= |buf| && Coordinate(point.x) && Coordinate(point.y)
    ensures |r| == |buf|
  {
    var withCurve := Splice(buf, at, PutLE(CURVE_SM2, 4));
    var withX := Splice(withCurve, at + KEY_QX, PutNumber(point.x));
    var withY := Splice(withX, at + KEY_QY, PutNumber(point.y));
    var withLen := Splice(withY, at + KEY_USER_ID, PutLE(|userId| % 0x1_0000, 2));
    Splice(withLen, at + KEY_USER_ID + 2, userId[..UserIdRoom(buf, at, userId)])
  }

  method PutHygonPubKey(dst: array<byte>, at: nat, point: Point, userId: bytes)
    requires at + KEY_USER_ID + 2 <= dst.Length && Coordinate(point.x) && Coordinate(point.y)
    modifies dst
    ensures dst[..] == PutPubKey(old(dst[..]), at, point, userId)
  {
    ghost var buf := dst[..];
    Put(dst, at, PutLE(CURVE_SM2, 4));
    Put(dst, at + KEY_QX, PutNumber(point.x));
    Put(dst, at + KEY_QY, PutNumber(point.y));
    Put(dst, at + KEY_USER_ID, PutLE(|userId| % 0x1_0000, 2));
    var room := if at + KEY_USER_ID + 2 + |userId| <= dst.Length then |userId| else dst.Length - at - KEY_USER_ID - 2;
    assert room == UserIdRoom(buf, at, userId);
    Put(dst, at + KEY_USER_ID + 2, userId[..room]);
  }

  function PutSignature(buf: bytes, at: nat, r: nat, s: nat): (b: bytes)
    requires at + SIG_END <= |buf| && Coordinate(r) && Coordinate(s)
    ensures |b| == |buf|
  {
    Splice(Splice(buf, at + SIG_R, PutNumber(r)), at + SIG_S, PutNumber(s))
  }

  method PutHygonSignature(dst: array<byte>, at: nat, r: nat, s: nat)
    requires at + SIG_END <= dst.Length && Coordinate(r) && Coordinate(s)
    modifies dst
    ensures dst[..] == PutSignature(old(dst[..]), at, r, s)
  {
    Put(dst, at + SIG_R, PutNumber(r));
    Put(dst, at + SIG_S, PutNumber(s));
  }

  /** The key's fields once written, each untouched by the writes after it. */
  lemma PubKeyFields(buf: bytes, at: nat, point: Point, userId: bytes)
    requires at + KEY_USER_ID + 2 <= |buf| && Coordinate(point.x) && Coordinate(point.y)
    ensures var r := PutPubKey(buf, at, point, userId);
            && Field(r, at, 4) == PutLE(CURVE_SM2, 4)
            && Field(r, at + KEY_QX, 32) == PutNumber(point.x)
            && Field(r, at + KEY_QY, 32) == PutNumber(point.y)
            && Field(r, at + KEY_USER_ID, 2) == PutLE(|userId| % 0x1_0000, 2)
            && Field(r, at + KEY_USER_ID + 2, UserIdRoom(buf, at, userId)) == userId[..UserIdRoom(buf, at, userId)]
  {
    var curve, x, y := PutLE(CURVE_SM2, 4), PutNumber(point.x), PutNumber(point.y);
    var len, uid := PutLE(|userId| % 0x1_0000, 2), userId[..UserIdRoom(buf, at, userId)];
    var b1 := Splice(buf, at, curve);
    var b2 := Splice(b1, at + KEY_QX, x);
    var b3 := Splice(b2, at + KEY_QY, y);
    var b4 := Splice(b3, at + KEY_USER_ID, len);
    var b5 := Splice(b4, at + KEY_USER_ID + 2, uid);
    assert PutPubKey(buf, at, point, userId) == b5;
    hide *;
    SpliceReads(buf, at, curve);
    SpliceReads(b1, at + KEY_QX, x);
    SpliceReads(b2, at + KEY_QY, y);
    SpliceReads(b3, at + KEY_USER_ID, len);
    SpliceReads(b4, at + KEY_USER_ID + 2, uid);
    SpliceMisses(b1, at + KEY_QX, x, at, at + 4);
    SpliceMisses(b2, at + KEY_QY, y, at, at + 4);
    SpliceMisses(b3, at + KEY_USER_ID, len, at, at + 4);
    SpliceMisses(b4, at + KEY_USER_ID + 2, uid, at, at + 4);
    SpliceMisses(b2, at + KEY_QY, y, at + KEY_QX, at + KEY_QX + 32);
    SpliceMisses(b3, at + KEY_USER_ID, len, at + KEY_QX, at + KEY_QX + 32);
    SpliceMisses(b4, at + KEY_USER_ID + 2, uid, at + KEY_QX, at + KEY_QX + 32);
    SpliceMisses(b3, at + KEY_USER_ID, len, at + KEY_QY, at + KEY_QY + 32);
    SpliceMisses(b4, at + KEY_USER_ID + 2, uid, at + KEY_QY, at + KEY_QY + 32);
    SpliceMisses(b4, at + KEY_USER_ID + 2, uid, at + KEY_USER_ID, at + KEY_USER_ID + 2);
  }

  /** And everything outside the key is as it was. */
  lemma PubKeyMisses(buf: bytes, at: nat, point: Point, userId: bytes, lo: nat, hi: nat)
    requires at + KEY_USER_ID + 2 <= |buf| && Coordinate(point.x) && Coordinate(point.y)
    requires lo <= hi <= |buf| && (hi <= at || at + KEY_USER_ID + 2 + |userId| <= lo)
    ensures PutPubKey(buf, at, point, userId)[lo..hi] == buf[lo..hi]
  {
    var b1 := Splice(buf, at, PutLE(CURVE_SM2, 4));
    var b2 := Splice(b1, at + KEY_QX, PutNumber(point.x));
    var b3 := Splice(b2, at + KEY_QY, PutNumber(point.y));
    var b4 := Splice(b3, at + KEY_USER_ID, PutLE(|userId| % 0x1_0000, 2));
    hide Splice;
    SpliceMisses(buf, at, PutLE(CURVE_SM2, 4), lo, hi);
    SpliceMisses(b1, at + KEY_QX, PutNumber(point.x), lo, hi);
    SpliceMisses(b2, at + KEY_QY, PutNumber(point.y), lo, hi);
    SpliceMisses(b3, at + KEY_USER_ID, PutLE(|userId| % 0x1_0000, 2), lo, hi);
    SpliceMisses(b4, at + KEY_USER_ID + 2, userId[..UserIdRoom(buf, at, userId)], lo, hi);
  }

  /**
   A written key reads back exactly when its user id fits both its length field and the
   buffer; otherwise reading gives an error or another id.
   */
  lemma PubKeyRoundTrip(buf: bytes, at: nat, point: Point, userId: bytes)
    requires at + KEY_USER_ID + 256 <= |buf| && Coordinate(point.x) && Coordinate(point.y)
    ensures ParsePubKey(PutPubKey(buf, at, point, userId)[at..]) == Ok(PubKey(point, userId))
        <==> |userId| < 0x1_0000 && at + KEY_USER_ID + 2 + |userId| <= |buf|
  {
    hide PutPubKey;
    hide LE;
    hide PutLE;
    hide Number;
    hide PutNumber;
    PubKeyFields(buf, at, point, userId);
    var r := PutPubKey(buf, at, point, userId);
    var data := r[at..];
    TailFields(r, at);
    Pow256Values();
    LEOfPut(CURVE_SM2, 4);
    LEOfPut(|userId| % 0x1_0000, 2);
    NumberRoundTrip(r, at + KEY_QX, point.x);
    NumberRoundTrip(r, at + KEY_QY, point.y);
    assert Word(data, 0) == CURVE_SM2;
    if |userId| < 0x1_0000 && at + KEY_USER_ID + 2 + |userId| <= |buf| {
      assert Field(data, KEY_USER_ID + 2, |userId|) == Field(r, at + KEY_USER_ID + 2, |userId|) == userId;
    }
  }

  lemma TailFields(r: bytes, at: nat)
    requires at + KEY_USER_ID + 2 <= |r|
    ensures Field(r[at..], 0, 4) == Field(r, at, 4)
    ensures Number(r[at..], KEY_QX) == Number(r, at + KEY_QX)
    ensures Number(r[at..], KEY_QY) == Number(r, at + KEY_QY)
    ensures Field(r[at..], KEY_USER_ID, 2) == Field(r, at + KEY_USER_ID, 2)
  {
    assert Field(r[at..], KEY_QX, 32) == Field(r, at + KEY_QX, 32);
    assert Field(r[at..], KEY_QY, 32) == Field(r, at + KEY_QY, 32);
  }

  /** A written signature reads back, from any window that starts at it. */
  lemma SignatureRoundTrip(buf: bytes, at: nat, r: nat, s: nat, hi: nat)
    requires at + SIG_END <= hi <= |buf| && Coordinate(r) && Coordinate(s)
    ensures ParseSignature(PutSignature(buf, at, r, s)[at..hi]) == (r, s)
  {
    var first := Splice(buf, at + SIG_R, PutNumber(r));
    var b := Splice(first, at + SIG_S, PutNumber(s));
    SpliceReads(buf, at + SIG_R, PutNumber(r));
    SpliceReads(first, at + SIG_S, PutNumber(s));
    SpliceMisses(first, at + SIG_S, PutNumber(s), at + SIG_R, at + SIG_R + 32);
    hide Splice;
    hide PutNumber;
    var window := b[at..hi];
    assert Field(window, SIG_R, 32) == b[at + SIG_R..at + SIG_R + 32];
    assert Field(window, SIG_S, 32) == b[at + SIG_S..at + SIG_S + 32];
    NumberRoundTrip(window, SIG_R, r);
    NumberRoundTrip(window, SIG_S, s);
  }

  /** And writing it touches nothing else, in particular not what was signed. */
  lemma SignatureMisses(buf: bytes, at: nat, r: nat, s: nat, lo: nat, hi: nat)
    requires at + SIG_END <= |buf| && Coordinate(r) && Coordinate(s)
    requires lo <= hi <= |buf| && (hi <= at || at + SIG_END <= lo)
    ensures PutSignature(buf, at, r, s)[lo..hi] == buf[lo..hi]
  {
    SpliceMisses(buf, at + SIG_R, PutNumber(r), lo, hi);
    SpliceMisses(Splice(buf, at + SIG_R, PutNumber(r)), at + SIG_S, PutNumber(s), lo, hi);
  }
}
