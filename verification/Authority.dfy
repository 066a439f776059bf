/**
 The builder side of the layout: an authority that issues an HRK, HSK, CEK, PEK chain and
 signs reports under it, writing every field into place and then signing what it wrote.
 */
module Authority {
  import opened Bytes
  import opened Codec
  import opened Hygon
  import opened Report
  import opened Chain
  import opened Verifier
  import Text

  /** SM2 key derivation, signing (secret, message, user id, randomness) and verification. */
  datatype Sm2 = Sm2(
    publicPoint: nat -> Point,
    sign: (nat, bytes, bytes, nat) -> Option<(nat, nat)>,
    verify: Sm2Verify
  )

  /** Curve points and signature halves fit 32 bytes, and what is signed verifies. */
  ghost predicate Laws(sm2: Sm2) {
    && (forall d :: Coordinate(sm2.publicPoint(d).x) && Coordinate(sm2.publicPoint(d).y))
    && (forall d, m, u, k :: sm2.sign(d, m, u, k).Some? ==>
          Coordinate(sm2.sign(d, m, u, k).value.0) && Coordinate(sm2.sign(d, m, u, k).value.1))
    && (forall d, m, u, k :: sm2.sign(d, m, u, k).Some? ==>
          sm2.verify(sm2.publicPoint(d), m, u, sm2.sign(d, m, u, k).value.0, sm2.sign(d, m, u, k).value.1))
  }

  /** The assumptions can be met, by a scheme under which every chain can be issued. */
  lemma LawsAreConsistent()
    ensures exists sm2 :: Laws(sm2) && forall d, m, u, k :: sm2.sign(d, m, u, k).Some?
  {
    hide Laws;
    AnySignatureLaws();
    assert forall d, m, u, k :: AnySignature().sign(d, m, u, k).Some?;
  }

  /** A scheme in which everything is a signature. */
  function AnySignature(): Sm2 {
    Sm2(d => Point(0, 0), (d, m, u, k) => Some((0, 0)), (p, m, u, r, s) => true)
  }

  lemma AnySignatureLaws()
    ensures Laws(AnySignature())
  {
    hide Pow256;
    assert 0 < Pow256(32);
  }

  const USER_ID: bytes := [0x74, 0x65, 0x73, 0x74, 0x2d, 0x73, 0x6d, 0x32, 0x2d, 0x75, 0x73, 0x65, 0x72]
  const MOCK_NONCE: bytes := [48, 49, 50, 51, 52, 53, 54, 55, 56, 57, 97, 98, 99, 100, 101, 102]
  const CHIP_NAME: bytes := [0x54, 0x45, 0x53, 0x54, 0x43, 0x48, 0x49, 0x50, 0x30, 0x30, 0x30, 0x31]

  function OwnKey(sm2: Sm2, secret: nat): PubKey {
    PubKey(sm2.publicPoint(secret), USER_ID)
  }

  // Certificates -----------------------------------------------------------------------

  function RootBody(usage: nat, point: Point): (b: bytes)
    requires Coordinate(point.x) && Coordinate(point.y)
    ensures |b| == HRK_CERT_SIZE
  {
    PutPubKey(Splice(Zeros(HRK_CERT_SIZE), ROOT_KEY_USAGE, PutLE(usage, 4)), ROOT_PUB_KEY, point, USER_ID)
  }

  function CsvHeader(usage: nat, sig1Usage: nat): (b: bytes)
    ensures |b| == CSV_CERT_SIZE
  {
    var withUsage := Splice(Zeros(CSV_CERT_SIZE), CSV_PUB_KEY_USAGE, PutLE(usage, 4));
    var withSig1 := Splice(withUsage, CSV_SIG1_USAGE, PutLE(sig1Usage, 4));
    Splice(withSig1, CSV_SIG2_USAGE, PutLE(KEY_USAGE_INVALID, 4))
  }

  function CsvBody(usage: nat, sig1Usage: nat, point: Point): (b: bytes)
    requires Coordinate(point.x) && Coordinate(point.y)
    ensures |b| == CSV_CERT_SIZE
  {
    PutPubKey(CsvHeader(usage, sig1Usage), CSV_PUB_KEY, point, USER_ID)
  }

  /** signMockHygonData: the first n bytes signed, the signature written at `at`. */
  function Sign(sm2: Sm2, secret: nat, body: bytes, n: nat, at: nat, randomness: nat): (r: Option<bytes>)
    requires Laws(sm2) && n <= at && at + SIG_END <= |body|
    ensures r.Some? ==> |r.value| == |body|
  {
    match sm2.sign(secret, body[..n], USER_ID, randomness)
    case None => None
    case Some((r, s)) => Some(PutSignature(body, at, r, s))
  }

  datatype Keys = Keys(hrk: nat, hsk: nat, cek: nat, pek: nat)

  datatype Certificates = Certificates(hrk: bytes, hskCek: bytes, pek: bytes)

  function SignedRoot(sm2: Sm2, usage: nat, subject: nat, issuer: nat, randomness: nat): (r: Option<bytes>)
    requires Laws(sm2)
    ensures r.Some? ==> |r.value| == HRK_CERT_SIZE
  {
    Sign(sm2, issuer, RootBody(usage, sm2.publicPoint(subject)), ROOT_SIG, ROOT_SIG, randomness)
  }

  function SignedCsv(sm2: Sm2, usage: nat, sig1Usage: nat, subject: nat, issuer: nat,
      randomness: nat): (r: Option<bytes>)
    requires Laws(sm2)
    ensures r.Some? ==> |r.value| == CSV_CERT_SIZE
  {
    Sign(sm2, issuer, CsvBody(usage, sig1Usage, sm2.publicPoint(subject)), CSV_SIG1_USAGE, CSV_SIG1, randomness)
  }

  /** generateCertificates; None when a signature cannot be made. */
  function Issue(sm2: Sm2, keys: Keys, rand: seq<nat>): Option<Certificates>
    requires Laws(sm2) && |rand| == 4
  {
    var hrk := SignedRoot(sm2, KEY_USAGE_HRK, keys.hrk, keys.hrk, rand[0]);
    var hsk := SignedRoot(sm2, KEY_USAGE_HSK, keys.hsk, keys.hrk, rand[1]);
    var cek := SignedCsv(sm2, KEY_USAGE_CEK, KEY_USAGE_HSK, keys.cek, keys.hsk, rand[2]);
    var pek := SignedCsv(sm2, KEY_USAGE_PEK, KEY_USAGE_CEK, keys.pek, keys.cek, rand[3]);
    if hrk.None? || hsk.None? || cek.None? || pek.None? then None
    else Some(Certificates(hrk.value, hsk.value + cek.value, pek.value))
  }

  /** A key does not change with bytes outside it. */
  lemma KeyAtStable(b: bytes, c: bytes, at: nat, key: PubKey)
    requires |b| == |c| && KeyAt(b, at, key)
    requires b[at..at + KEY_USER_ID + 2 + |key.userId|] == c[at..at + KEY_USER_ID + 2 + |key.userId|]
    ensures KeyAt(c, at, key)
  {
    var end := KEY_USER_ID + 2 + |key.userId|;
    SameWindow(b, c, at, end, 0, 4);
    SameWindow(b, c, at, end, KEY_QX, KEY_QX + 32);
    SameWindow(b, c, at, end, KEY_QY, KEY_QY + 32);
    SameWindow(b, c, at, end, KEY_USER_ID, KEY_USER_ID + 2);
    SameWindow(b, c, at, end, KEY_USER_ID + 2, end);
    hide LE;
  }

  lemma SameWindow(b: bytes, c: bytes, at: nat, n: nat, lo: nat, hi: nat)
    requires lo <= hi <= n && at + n <= |b| && at + n <= |c| && b[at..at + n] == c[at..at + n]
    ensures b[at + lo..at + hi] == c[at + lo..at + hi]
  {
    SliceOfSlice(b, at, at + n, lo, hi);
    SliceOfSlice(c, at, at + n, lo, hi);
  }

  /** A signature verifies where it was written, over what was signed. */
  lemma SignVerifies(sm2: Sm2, secret: nat, body: bytes, n: nat, at: nat, randomness: nat)
    requires Laws(sm2) && n <= at && at + SIG_END <= |body|
    requires Sign(sm2, secret, body, n, at, randomness).Some?
    ensures SignedAt(sm2.verify, OwnKey(sm2, secret), Sign(sm2, secret, body, n, at, randomness).value, n, at)
  {
    var (r, s) := sm2.sign(secret, body[..n], USER_ID, randomness).value;
    var c := PutSignature(body, at, r, s);
    SignatureRoundTrip(body, at, r, s, |body|);
    SignatureMisses(body, at, r, s, 0, n);
    assert c[at..|body|] == c[at..];
    assert c[..n] == c[0..n] == body[0..n] == body[..n];
    hide PutSignature;
    VerifiesIsSignedAt(sm2.verify, OwnKey(sm2, secret), c, n, at);
    hide SignedAt;
  }

  /** And nothing outside it changed. */
  lemma SignMisses(sm2: Sm2, secret: nat, body: bytes, n: nat, at: nat, randomness: nat, lo: nat, hi: nat)
    requires Laws(sm2) && n <= at && at + SIG_END <= |body|
    requires Sign(sm2, secret, body, n, at, randomness).Some?
    requires lo <= hi <= |body| && (hi <= at || at + SIG_END <= lo)
    ensures Sign(sm2, secret, body, n, at, randomness).value[lo..hi] == body[lo..hi]
  {
    var (r, s) := sm2.sign(secret, body[..n], USER_ID, randomness).value;
    SignatureMisses(body, at, r, s, lo, hi);
  }

  lemma WrittenKey(buf: bytes, at: nat, point: Point)
    requires Coordinate(point.x) && Coordinate(point.y) && at + KEY_USER_ID + 256 <= |buf|
    ensures KeyAt(PutPubKey(buf, at, point, USER_ID), at, PubKey(point, USER_ID))
  {
    PubKeyRoundTrip(buf, at, point, USER_ID);
    ParseIsKeyAt(PutPubKey(buf, at, point, USER_ID), at, PubKey(point, USER_ID));
  }

  lemma WordOf(usage: nat)
    requires usage < 0x1_0000_0000
    ensures LE(PutLE(usage, 4)) == usage
  {
    Pow256Values();
    LEOfPut(usage, 4);
  }

  lemma RootVerifies(sm2: Sm2, usage: nat, subject: nat, issuer: nat, randomness: nat)
    requires Laws(sm2) && usage < 0x1_0000_0000 && SignedRoot(sm2, usage, subject, issuer, randomness).Some?
    ensures var c := SignedRoot(sm2, usage, subject, issuer, randomness).value;
            && Word(c, ROOT_KEY_USAGE) == usage
            && KeyAt(c, ROOT_PUB_KEY, OwnKey(sm2, subject))
            && SignedAt(sm2.verify, OwnKey(sm2, issuer), c, ROOT_SIG, ROOT_SIG)
  {
    hide Splice;
    hide PutLE;
    hide LE;
    hide PutPubKey;
    hide KeyAt;
    hide SignedAt;
    var point := sm2.publicPoint(subject);
    var start := Zeros(HRK_CERT_SIZE);
    var header := Splice(start, ROOT_KEY_USAGE, PutLE(usage, 4));
    var body := RootBody(usage, point);
    var c := SignedRoot(sm2, usage, subject, issuer, randomness).value;
    SpliceReads(start, ROOT_KEY_USAGE, PutLE(usage, 4));
    WordOf(usage);
    PubKeyMisses(header, ROOT_PUB_KEY, point, USER_ID, ROOT_KEY_USAGE, ROOT_KEY_USAGE + 4);
    WrittenKey(header, ROOT_PUB_KEY, point);
    SignVerifies(sm2, issuer, body, ROOT_SIG, ROOT_SIG, randomness);
    SignMisses(sm2, issuer, body, ROOT_SIG, ROOT_SIG, randomness, ROOT_KEY_USAGE, ROOT_KEY_USAGE + 4);
    var end := ROOT_PUB_KEY + KEY_USER_ID + 2 + |USER_ID|;
    SignMisses(sm2, issuer, body, ROOT_SIG, ROOT_SIG, randomness, ROOT_PUB_KEY, end);
    KeyAtStable(body, c, ROOT_PUB_KEY, OwnKey(sm2, subject));
  }

  lemma CsvHeaderFields(usage: nat, sig1Usage: nat)
    ensures var h := CsvHeader(usage, sig1Usage);
            && h[CSV_PUB_KEY_USAGE..CSV_PUB_KEY_USAGE + 4] == PutLE(usage, 4)
            && h[CSV_SIG1_USAGE..CSV_SIG1_USAGE + 4] == PutLE(sig1Usage, 4)
            && h[CSV_SIG2_USAGE..CSV_SIG2_USAGE + 4] == PutLE(KEY_USAGE_INVALID, 4)
  {
    var start := Zeros(CSV_CERT_SIZE);
    var b1 := Splice(start, CSV_PUB_KEY_USAGE, PutLE(usage, 4));
    var b2 := Splice(b1, CSV_SIG1_USAGE, PutLE(sig1Usage, 4));
    var b3 := Splice(b2, CSV_SIG2_USAGE, PutLE(KEY_USAGE_INVALID, 4));
    assert CsvHeader(usage, sig1Usage) == b3;
    hide *;
    SpliceReads(start, CSV_PUB_KEY_USAGE, PutLE(usage, 4));
    SpliceReads(b1, CSV_SIG1_USAGE, PutLE(sig1Usage, 4));
    SpliceReads(b2, CSV_SIG2_USAGE, PutLE(KEY_USAGE_INVALID, 4));
    SpliceMisses(b1, CSV_SIG1_USAGE, PutLE(sig1Usage, 4), CSV_PUB_KEY_USAGE, CSV_PUB_KEY_USAGE + 4);
    SpliceMisses(b2, CSV_SIG2_USAGE, PutLE(KEY_USAGE_INVALID, 4), CSV_PUB_KEY_USAGE, CSV_PUB_KEY_USAGE + 4);
    SpliceMisses(b2, CSV_SIG2_USAGE, PutLE(KEY_USAGE_INVALID, 4), CSV_SIG1_USAGE, CSV_SIG1_USAGE + 4);
  }

  /** A usage word written in the header survives the key and the signature. */
  lemma CsvWordKept(sm2: Sm2, usage: nat, sig1Usage: nat, subject: nat, issuer: nat, randomness: nat, at: nat)
    requires Laws(sm2) && SignedCsv(sm2, usage, sig1Usage, subject, issuer, randomness).Some?
    requires at == CSV_PUB_KEY_USAGE || at == CSV_SIG1_USAGE || at == CSV_SIG2_USAGE
    ensures SignedCsv(sm2, usage, sig1Usage, subject, issuer, randomness).value[at..at + 4]
            == CsvHeader(usage, sig1Usage)[at..at + 4]
  {
    var point := sm2.publicPoint(subject);
    PubKeyMisses(CsvHeader(usage, sig1Usage), CSV_PUB_KEY, point, USER_ID, at, at + 4);
    SignMisses(sm2, issuer, CsvBody(usage, sig1Usage, point), CSV_SIG1_USAGE, CSV_SIG1, randomness, at, at + 4);
  }

  lemma CsvVerifies(sm2: Sm2, usage: nat, sig1Usage: nat, subject: nat, issuer: nat, randomness: nat)
    requires Laws(sm2) && usage < 0x1_0000_0000 && sig1Usage < 0x1_0000_0000
    requires SignedCsv(sm2, usage, sig1Usage, subject, issuer, randomness).Some?
    ensures var c := SignedCsv(sm2, usage, sig1Usage, subject, issuer, randomness).value;
            && Word(c, CSV_PUB_KEY_USAGE) == usage
            && Word(c, CSV_SIG1_USAGE) == sig1Usage
            && Word(c, CSV_SIG2_USAGE) == KEY_USAGE_INVALID
            && KeyAt(c, CSV_PUB_KEY, OwnKey(sm2, subject))
            && SignedAt(sm2.verify, OwnKey(sm2, issuer), c, CSV_SIG1_USAGE, CSV_SIG1)
  {
    var point := sm2.publicPoint(subject);
    var body := CsvBody(usage, sig1Usage, point);
    var c := SignedCsv(sm2, usage, sig1Usage, subject, issuer, randomness).value;
    CsvHeaderFields(usage, sig1Usage);
    CsvWordKept(sm2, usage, sig1Usage, subject, issuer, randomness, CSV_PUB_KEY_USAGE);
    CsvWordKept(sm2, usage, sig1Usage, subject, issuer, randomness, CSV_SIG1_USAGE);
    CsvWordKept(sm2, usage, sig1Usage, subject, issuer, randomness, CSV_SIG2_USAGE);
    WordOf(usage);
    WordOf(sig1Usage);
    WordOf(KEY_USAGE_INVALID);
    WrittenKey(CsvHeader(usage, sig1Usage), CSV_PUB_KEY, point);
    SignVerifies(sm2, issuer, body, CSV_SIG1_USAGE, CSV_SIG1, randomness);
    SignMisses(sm2, issuer, body, CSV_SIG1_USAGE, CSV_SIG1, randomness, CSV_PUB_KEY,
        CSV_PUB_KEY + KEY_USER_ID + 2 + |USER_ID|);
    KeyAtStable(body, c, CSV_PUB_KEY, OwnKey(sm2, subject));
  }

  /** Every chain the authority issues is complete. */
  lemma IssuedChainVerifies(sm2: Sm2, keys: Keys, rand: seq<nat>)
    requires Laws(sm2) && |rand| == 4 && Issue(sm2, keys, rand).Some?
    ensures var c := Issue(sm2, keys, rand).value;
            && |c.hrk| == HRK_CERT_SIZE && |c.hskCek| == HSK_CEK_SIZE && |c.pek| == CSV_CERT_SIZE
            && ChainsTo(sm2.verify, c.hrk, c.hskCek, c.pek)
            && KeyAt(c.pek, CSV_PUB_KEY, OwnKey(sm2, keys.pek))
  {
    hide SignedRoot;
    hide SignedCsv;
    hide KeyAt;
    hide SignedAt;
    hide Word;
    hide Laws;
    var hrk := SignedRoot(sm2, KEY_USAGE_HRK, keys.hrk, keys.hrk, rand[0]).value;
    var hsk := SignedRoot(sm2, KEY_USAGE_HSK, keys.hsk, keys.hrk, rand[1]).value;
    var cek := SignedCsv(sm2, KEY_USAGE_CEK, KEY_USAGE_HSK, keys.cek, keys.hsk, rand[2]).value;
    RootVerifies(sm2, KEY_USAGE_HRK, keys.hrk, keys.hrk, rand[0]);
    RootVerifies(sm2, KEY_USAGE_HSK, keys.hsk, keys.hrk, rand[1]);
    CsvVerifies(sm2, KEY_USAGE_CEK, KEY_USAGE_HSK, keys.cek, keys.hsk, rand[2]);
    CsvVerifies(sm2, KEY_USAGE_PEK, KEY_USAGE_CEK, keys.pek, keys.cek, rand[3]);
    HalvesOf(hsk, cek);
    assert hrk[..HRK_CERT_SIZE] == hrk;
    var c := Issue(sm2, keys, rand).value;
    assert c.hrk == hrk && c.hskCek == hsk + cek;
    assert |hrk| == |hsk| == HRK_CERT_SIZE && |cek| == CSV_CERT_SIZE;
  }

  lemma HalvesOf(hsk: bytes, cek: bytes)
    ensures (hsk + cek)[..|hsk|] == hsk && (hsk + cek)[|hsk|..|hsk| + |cek|] == cek
  {
  }

  // Reports ---------------------------------------------------------------------------

  /** The first 64 bytes, zero-filled. */
  function Padded(userData: bytes): (p: bytes)
    ensures |p| == USER_DATA_SIZE
    ensures forall i :: 0 <= i < |p| ==> p[i] == if i < |userData| then userData[i] else 0
  {
    if |userData| >= USER_DATA_SIZE then userData[..USER_DATA_SIZE] else userData + Zeros(USER_DATA_SIZE - |userData|)
  }

  /** The measurement a hexadecimal string names, or a fixed one if it names none. */
  function MeasurementOf(hex: bytes): (m: bytes)
    ensures |m| == HASH_SIZE
    ensures |hex| == 64 && Text.AllHex(hex) ==> Text.HexDecode(hex) == Some(m)
    ensures |hex| != 64 || !Text.AllHex(hex) ==> forall i :: 0 <= i < |m| ==> m[i] == 0x5A
  {
    var decoded := Text.HexDecode(hex);
    if decoded.None? || |decoded.value| != HASH_SIZE then seq(HASH_SIZE, _ => 0x5A) else decoded.value
  }

  function ChipField(): (c: bytes)
    ensures |c| == CHIP_ID_SIZE
  {
    CHIP_NAME + Zeros(CHIP_ID_SIZE - 12)
  }

  function ReportBody(userData: bytes, measurement: bytes, pek: bytes, anonce: nat): (b: bytes)
    requires |userData| == USER_DATA_SIZE && |measurement| == HASH_SIZE && |pek| == CSV_CERT_SIZE
    ensures |b| == REPORT_SIZE
  {
    var b1 := Splice(Zeros(REPORT_SIZE), A_NONCE, PutLE(anonce, 4));
    var b2 := Splice(b1, USER_DATA, Unmasked(userData, anonce));
    var b3 := Splice(b2, M_NONCE, Unmasked(MOCK_NONCE, anonce));
    var b4 := Splice(b3, MEASURE, Unmasked(measurement, anonce));
    var b5 := Splice(b4, PEK_CERT, Unmasked(pek, anonce));
    Splice(b5, CHIP_ID, Unmasked(ChipField(), anonce))
  }

  /** Generate's report, for every A nonce and not only the builder's zero. */
  function SignedReport(sm2: Sm2, pekSecret: nat, pek: bytes, userData: bytes, hex: bytes, anonce: nat,
      randomness: nat): (r: Option<bytes>)
    requires Laws(sm2) && |pek| == CSV_CERT_SIZE
    ensures r.Some? ==> |r.value| == REPORT_SIZE
  {
    Sign(sm2, pekSecret, ReportBody(Padded(userData), MeasurementOf(hex), pek, anonce), SIGNED_SIZE, SIG1, randomness)
  }

  /** No write to a report body disturbs another. */
  lemma BodyFields(userData: bytes, measurement: bytes, pek: bytes, anonce: nat)
    requires |userData| == USER_DATA_SIZE && |measurement| == HASH_SIZE && |pek| == CSV_CERT_SIZE
    ensures var b := ReportBody(userData, measurement, pek, anonce);
            && b[A_NONCE..A_NONCE + 4] == PutLE(anonce, 4)
            && b[USER_DATA..M_NONCE] == Unmasked(userData, anonce)
            && b[M_NONCE..MEASURE] == Unmasked(MOCK_NONCE, anonce)
            && b[MEASURE..POLICY] == Unmasked(measurement, anonce)
            && b[PEK_CERT..CHIP_ID] == Unmasked(pek, anonce)
            && b[CHIP_ID..RESERVED2] == Unmasked(ChipField(), anonce)
  {
    var nonce, user, mNonce := PutLE(anonce, 4), Unmasked(userData, anonce), Unmasked(MOCK_NONCE, anonce);
    var measure, cert, chip := Unmasked(measurement, anonce), Unmasked(pek, anonce), Unmasked(ChipField(), anonce);
    var b0 := Zeros(REPORT_SIZE);
    var b1 := Splice(b0, A_NONCE, nonce);
    var b2 := Splice(b1, USER_DATA, user);
    var b3 := Splice(b2, M_NONCE, mNonce);
    var b4 := Splice(b3, MEASURE, measure);
    var b5 := Splice(b4, PEK_CERT, cert);
    var b6 := Splice(b5, CHIP_ID, chip);
    assert ReportBody(userData, measurement, pek, anonce) == b6;
    hide *;
    SpliceReads(b0, A_NONCE, nonce);
    SpliceReads(b1, USER_DATA, user);
    SpliceReads(b2, M_NONCE, mNonce);
    SpliceReads(b3, MEASURE, measure);
    SpliceReads(b4, PEK_CERT, cert);
    SpliceReads(b5, CHIP_ID, chip);
    SpliceMisses(b1, USER_DATA, user, A_NONCE, A_NONCE + 4);
    SpliceMisses(b2, M_NONCE, mNonce, A_NONCE, A_NONCE + 4);
    SpliceMisses(b3, MEASURE, measure, A_NONCE, A_NONCE + 4);
    SpliceMisses(b4, PEK_CERT, cert, A_NONCE, A_NONCE + 4);
    SpliceMisses(b5, CHIP_ID, chip, A_NONCE, A_NONCE + 4);
    SpliceMisses(b2, M_NONCE, mNonce, USER_DATA, M_NONCE);
    SpliceMisses(b3, MEASURE, measure, USER_DATA, M_NONCE);
    SpliceMisses(b4, PEK_CERT, cert, USER_DATA, M_NONCE);
    SpliceMisses(b5, CHIP_ID, chip, USER_DATA, M_NONCE);
    SpliceMisses(b3, MEASURE, measure, M_NONCE, MEASURE);
    SpliceMisses(b4, PEK_CERT, cert, M_NONCE, MEASURE);
    SpliceMisses(b5, CHIP_ID, chip, M_NONCE, MEASURE);
    SpliceMisses(b4, PEK_CERT, cert, MEASURE, POLICY);
    SpliceMisses(b5, CHIP_ID, chip, MEASURE, POLICY);
    SpliceMisses(b5, CHIP_ID, chip, PEK_CERT, CHIP_ID);
  }

  /** A printable name without spaces survives the zero padding and both trims. */
  lemma PaddedNameReads(name: bytes, n: nat)
    requires name != [] && Text.Plain(name)
    ensures ChipIdAscii(name + Zeros(n)) == Ok(name)
  {
    hide Text.TrimSpace;
    hide Text.TrimRightZeros;
    assert 0x21 <= name[|name| - 1] <= 0x7e;
    assert forall i :: 0 <= i < |name| ==> !(name[i] < 0x20 || name[i] > 0x7e);
    hide Text.Plain;
    Text.TrimRightOfPadded(name, n);
    Text.PlainIsTrimmed(name);
  }

  lemma ChipFieldReads()
    ensures ChipIdAscii(ChipField()) == Ok(CHIP_NAME)
  {
    hide ChipIdAscii;
    PaddedNameReads(CHIP_NAME, CHIP_ID_SIZE - 12);
  }

  /** What parsing makes of a signed report: every field unmasks to what was put in. */
  lemma ReportFields(sm2: Sm2, pekSecret: nat, pek: bytes, userData: bytes, hex: bytes, anonce: nat, randomness: nat)
    requires Laws(sm2) && |pek| == CSV_CERT_SIZE && anonce < 0x1_0000_0000
    requires SignedReport(sm2, pekSecret, pek, userData, hex, anonce, randomness).Some?
    ensures var r := SignedReport(sm2, pekSecret, pek, userData, hex, anonce, randomness).value;
            && Word(r, A_NONCE) == anonce
            && Unmasked(r[USER_DATA..M_NONCE], anonce) == Padded(userData)
            && Unmasked(r[M_NONCE..MEASURE], anonce) == MOCK_NONCE
            && Unmasked(r[MEASURE..POLICY], anonce) == MeasurementOf(hex)
            && Unmasked(r[PEK_CERT..CHIP_ID], anonce) == pek
            && Unmasked(r[CHIP_ID..RESERVED2], anonce) == ChipField()
  {
    var body := ReportBody(Padded(userData), MeasurementOf(hex), pek, anonce);
    BodyFields(Padded(userData), MeasurementOf(hex), pek, anonce);
    hide ReportBody;
    SignMisses(sm2, pekSecret, body, SIGNED_SIZE, SIG1, randomness, A_NONCE, A_NONCE + 4);
    SignMisses(sm2, pekSecret, body, SIGNED_SIZE, SIG1, randomness, USER_DATA, M_NONCE);
    SignMisses(sm2, pekSecret, body, SIGNED_SIZE, SIG1, randomness, M_NONCE, MEASURE);
    SignMisses(sm2, pekSecret, body, SIGNED_SIZE, SIG1, randomness, MEASURE, POLICY);
    SignMisses(sm2, pekSecret, body, SIGNED_SIZE, SIG1, randomness, PEK_CERT, CHIP_ID);
    SignMisses(sm2, pekSecret, body, SIGNED_SIZE, SIG1, randomness, CHIP_ID, RESERVED2);
    WordOf(anonce);
    hide Sign;
    UnmaskedTwice(Padded(userData), anonce);
    UnmaskedTwice(MOCK_NONCE, anonce);
    UnmaskedTwice(MeasurementOf(hex), anonce);
    UnmaskedTwice(pek, anonce);
    UnmaskedTwice(ChipField(), anonce);
    hide Unmasked;
    hide LE;
    hide Padded;
    hide MeasurementOf;
  }

  /**
   The builder and the verifier agree on the layout: for every user data, measurement string
   and A nonce, the report the authority signs under the chain it issued parses, is signed by
   the PEK inside it, and unmasks to what was asked for.
   */
  lemma GeneratedReportVerifies(sm2: Sm2, keys: Keys, rand: seq<nat>, userData: bytes, hex: bytes, anonce: nat,
      randomness: nat)
    requires Laws(sm2) && |rand| == 4 && anonce < 0x1_0000_0000
    requires Issue(sm2, keys, rand).Some?
    requires SignedReport(sm2, keys.pek, Issue(sm2, keys, rand).value.pek, userData, hex, anonce, randomness).Some?
    ensures var c := Issue(sm2, keys, rand).value;
            var r := SignedReport(sm2, keys.pek, c.pek, userData, hex, anonce, randomness).value;
            && ParseReport(r).Ok?
            && ParseReport(r).value.userData == Padded(userData)
            && ParseReport(r).value.mNonce == MOCK_NONCE
            && ParseReport(r).value.digest == MeasurementOf(hex)
            && ParseReport(r).value.aNonce == anonce
            && ParseReport(r).value.chipIdAscii == CHIP_NAME
            && HeaderSigned(sm2.verify, r) && PekOf(r) == c.pek && ChainsTo(sm2.verify, c.hrk, c.hskCek, PekOf(r))
  {
    IssuedChainVerifies(sm2, keys, rand);
    var pek := Issue(sm2, keys, rand).value.pek;
    ReportFields(sm2, keys.pek, pek, userData, hex, anonce, randomness);
    ChipFieldReads();
    CsvExactly(pek);
    SignVerifies(sm2, keys.pek, ReportBody(Padded(userData), MeasurementOf(hex), pek, anonce), SIGNED_SIZE, SIG1,
        randomness);
    var r := SignedReport(sm2, keys.pek, pek, userData, hex, anonce, randomness).value;
    assert KeyAt(PekOf(r), CSV_PUB_KEY, OwnKey(sm2, keys.pek));
    hide SignedReport;
    hide Issue;
    hide KeyAt;
    hide SignedAt;
    hide ChainsTo;
    hide ParseCsv;
    hide ChipIdAscii;
    hide Unmasked;
    hide ChipField;
    ReportParses(r);
    hide ParseReport;
    ParsedFields(r);
  }

  lemma ReportParses(r: bytes)
    requires |r| == REPORT_SIZE && ParseCsv(PekOf(r)).Ok?
    requires ChipIdAscii(Unmasked(r[CHIP_ID..RESERVED2], Word(r, A_NONCE))).Ok?
    ensures ParseReport(r).Ok?
    ensures ParseReport(r).value.chipIdAscii == ChipIdAscii(Unmasked(r[CHIP_ID..RESERVED2], Word(r, A_NONCE))).value
  {
    assert r[..REPORT_SIZE] == r;
    assert UnmaskedField(r, CHIP_ID, CHIP_ID_SIZE) == Unmasked(r[CHIP_ID..RESERVED2], Word(r, A_NONCE));
    assert UnmaskedField(r, PEK_CERT, CSV_CERT_SIZE) == PekOf(r);
    hide UnmaskedField;
    hide PekOf;
    hide Field;
    hide Word;
    hide LE;
    hide ParseCsv;
    hide ChipIdAscii;
    hide Unmasked;
  }

  /**
   A peer holding the authority's report and chain is accepted by every configuration that
   resolves to that chain, by whichever route, exactly when the report was made for its key
   and the measurement is allowed.
   */
  lemma IssuedPeerExactly(sm2: Sm2, keys: Keys, rand: seq<nat>, c: Config, env: Env, spki: bytes, ev: Evidence,
      userData: bytes, hex: bytes, anonce: nat, randomness: nat)
    requires Laws(sm2) && |rand| == 4 && anonce < 0x1_0000_0000 && env.verify == sm2.verify
    requires Issue(sm2, keys, rand).Some?
    requires Some(ev.report)
             == SignedReport(sm2, keys.pek, Issue(sm2, keys, rand).value.pek, userData, hex, anonce, randomness)
    requires PeerRootAgrees(c, ev) && LocalAnchor(c, env.files) == Some(Issue(sm2, keys, rand).value.hrk)
    requires Intermediates(c, env.files, ev.hskCekCert) == Some(Issue(sm2, keys, rand).value.hskCek)
    ensures Trusted(c, env, spki, ev) <==> Padded(userData)[..32] == env.sm3(spki) && Allows(c, MeasurementOf(hex))
  {
    GeneratedReportVerifies(sm2, keys, rand, userData, hex, anonce, randomness);
    hide ParseReport;
    hide Issue;
    hide SignedReport;
    hide ChainsTo;
    hide HeaderSigned;
    hide PekOf;
    hide LocalAnchor;
    hide Intermediates;
    hide PeerRootAgrees;
    hide Padded;
    hide MeasurementOf;
    hide Allows;
  }

  // Two configurations that do not do what the documentation says ---------------------------

  const DIRECTORY: bytes := [0x64]
  const HRK_PATH: bytes := [0x61]
  const HSK_CEK_PATH: bytes := [0x62]

  /** A file system with these two certificate files, in the directory and under the paths. */
  function TwoFiles(hrk: bytes, hskCek: bytes): Files {
    Files(map[HRK_PATH := hrk, HSK_CEK_PATH := hskCek],
          (dir, name) => if name == "hrk.cert" then HRK_PATH else HSK_CEK_PATH)
  }

  /** Two files of the right sizes: one is found under each path. */
  lemma FilesRead(hrk: bytes, hskCek: bytes)
    requires |hrk| == HRK_CERT_SIZE && |hskCek| == HSK_CEK_SIZE
    ensures ReadFixed(TwoFiles(hrk, hskCek), HRK_PATH, HRK_CERT_SIZE) == Some(hrk)
    ensures ReadFixed(TwoFiles(hrk, hskCek), HSK_CEK_PATH, HSK_CEK_SIZE) == Some(hskCek)
  {
    assert HRK_PATH[0] != HSK_CEK_PATH[0];
    assert hrk[..HRK_CERT_SIZE] == hrk;
    assert hskCek[..HSK_CEK_SIZE] == hskCek;
  }

  /** All the inputs of one issued report. */
  datatype Order = Order(
    keys: Keys,
    rand: seq<nat>,
    digest: bytes,
    hex: bytes,
    anonce: nat,
    randomness: nat
  )

  ghost predicate Issuable(sm2: Sm2, o: Order) {
    && Laws(sm2) && |o.rand| == 4 && Issue(sm2, o.keys, o.rand).Some?
    && |o.digest| == 32 && Measurement(o.hex) && o.anonce < 0x1_0000_0000
  }

  function CertsOf(sm2: Sm2, o: Order): Certificates
    requires Issuable(sm2, o)
  {
    Issue(sm2, o.keys, o.rand).value
  }

  lemma OrderedMeasurement(sm2: Sm2, o: Order)
    requires Issuable(sm2, o)
    ensures Measurement(o.hex)
  {
    hide Measurement;
  }

  /** The evidence holds the report that was ordered and its intermediates, and this root. */
  ghost predicate Issued(sm2: Sm2, o: Order, root: bytes, ev: Evidence)
    requires Issuable(sm2, o)
  {
    && SignedReport(sm2, o.keys.pek, CertsOf(sm2, o).pek, o.digest, o.hex, o.anonce, o.randomness) == Some(ev.report)
    && |root| == HRK_CERT_SIZE && ev == Evidence(EVIDENCE_VERSION, ev.report, root, CertsOf(sm2, o).hskCek)
  }

  function PeerCertificate(spki: bytes): Certificate {
    Certificate(0, 0, spki, [Extension(EVIDENCE_OID, [])])
  }

  /** A peer whose key has this digest presents this evidence; everything decodes. */
  function Peer(sm2: Sm2, files: Files, spki: bytes, digest: bytes, ev: Evidence): Env {
    Env(pem => Some(PeerCertificate(spki)), value => Some(ev), key => digest, sm2.verify, files, 0)
  }

  /** The strict policy that allows the ordered measurement alone. */
  predicate Demands(c: Config, hex: bytes) {
    && c.mode == Strict && c.expected == [hex] && !c.skipVerify && c.provider == None
    && (c.hrkPath == []) == (c.hskCekPath == [])
  }

  lemma DemandsIsNormal(c: Config, hex: bytes)
    requires Demands(c, hex) && Measurement(hex)
    ensures Normalized(Some(c)) == Ok(c) && !c.skipVerify
  {
    assert FirstBad([hex]) == 1 by {
      assert [hex][1..] == [];
      hide Measurement;
    }
    hide FirstBad;
    hide Measurement;
  }

  lemma DemandIsMet(c: Config, hex: bytes)
    requires Demands(c, hex) && Measurement(hex)
    ensures Allows(c, MeasurementOf(hex))
  {
    assert |Text.HexDecode(hex).value| == HASH_SIZE;
    hide Text.HexDecode;
    assert c.expected[0] == hex;
  }

  lemma IssuedSizes(sm2: Sm2, o: Order, root: bytes, ev: Evidence)
    requires Issuable(sm2, o) && Issued(sm2, o, root, ev)
    ensures ev.version == EVIDENCE_VERSION && |ev.report| == REPORT_SIZE
    ensures ev.hrkCert == root && |root| == HRK_CERT_SIZE && |ev.hskCekCert| == HSK_CEK_SIZE
  {
    hide SignedReport;
    hide SignedRoot;
    hide SignedCsv;
    hide Laws;
    hide Measurement;
  }

  lemma PeerPresents(sm2: Sm2, files: Files, spki: bytes, digest: bytes, ev: Evidence, pem: bytes)
    requires ev.version == EVIDENCE_VERSION && |ev.report| == REPORT_SIZE
    requires |ev.hrkCert| == HRK_CERT_SIZE && |ev.hskCekCert| == HSK_CEK_SIZE
    ensures PeerCertificate(spki).spki == spki
    ensures Presents(Peer(sm2, files, spki, digest, ev), pem, PeerCertificate(spki), ev)
  {
  }

  lemma DigestPadded(digest: bytes)
    requires |digest| == 32
    ensures Padded(digest)[..32] == digest
  {
  }

  lemma OrderedIsTrusted(sm2: Sm2, o: Order, root: bytes, ev: Evidence, files: Files, spki: bytes, c: Config)
    requires Issuable(sm2, o) && Issued(sm2, o, root, ev) && Demands(c, o.hex) && PeerRootAgrees(c, ev)
    requires LocalAnchor(c, files) == Some(CertsOf(sm2, o).hrk)
    requires Intermediates(c, files, ev.hskCekCert) == Some(CertsOf(sm2, o).hskCek)
    ensures Trusted(c, Peer(sm2, files, spki, o.digest, ev), spki, ev)
  {
    hide Trusted;
    hide Allows;
    hide Padded;
    hide MeasurementOf;
    hide LocalAnchor;
    hide Intermediates;
    hide PeerRootAgrees;
    hide SignedReport;
    hide Issue;
    hide Laws;
    hide Measurement;
    hide Demands;
    DigestPadded(o.digest);
    DemandIsMet(c, o.hex);
    var env := Peer(sm2, files, spki, o.digest, ev);
    IssuedPeerExactly(sm2, o.keys, o.rand, c, env, spki, ev, o.digest, o.hex, o.anonce, o.randomness);
  }

  /** Such a peer is accepted by every strict configuration that resolves to the issued chain. */
  lemma IssuedPeerAccepted(sm2: Sm2, o: Order, root: bytes, ev: Evidence, files: Files, spki: bytes, c: Config,
      pem: bytes)
    requires Issuable(sm2, o) && Issued(sm2, o, root, ev) && Demands(c, o.hex) && PeerRootAgrees(c, ev)
    requires LocalAnchor(c, files) == Some(CertsOf(sm2, o).hrk)
    requires Intermediates(c, files, ev.hskCekCert) == Some(CertsOf(sm2, o).hskCek)
    ensures Verdict(Some(c), Peer(sm2, files, spki, o.digest, ev), pem) == Ok(Some(ev))
  {
    hide *;
    IssuedSizes(sm2, o, root, ev);
    OrderedMeasurement(sm2, o);
    OrderedIsTrusted(sm2, o, root, ev, files, spki, c);
    PeerPresents(sm2, files, spki, o.digest, ev, pem);
    DemandsIsNormal(c, o.hex);
    var env := Peer(sm2, files, spki, o.digest, ev);
    AcceptanceExactly(Some(c), env, pem, ev);
  }

  /** A directory, or explicit paths, to the two files lead to the chain that they hold. */
  lemma FilesResolve(c: Config, certs: Certificates, ev: Evidence)
    requires |certs.hrk| == HRK_CERT_SIZE && |certs.hskCek| == HSK_CEK_SIZE
    requires c.trustedHrk == []
    requires || (c.hrkPath == c.hskCekPath == [] && c.certDir == DIRECTORY)
             || (c.hrkPath == HRK_PATH && c.hskCekPath == HSK_CEK_PATH)
    ensures var files := TwoFiles(certs.hrk, certs.hskCek);
            && LocalAnchor(c, files) == Some(certs.hrk)
            && Intermediates(c, files, ev.hskCekCert) == Some(certs.hskCek)
  {
    var files := TwoFiles(certs.hrk, certs.hskCek);
    FilesRead(certs.hrk, certs.hskCek);
    Text.PlainIsTrimmed(HRK_PATH);
    Text.PlainIsTrimmed(HSK_CEK_PATH);
    hide Text.TrimSpace;
    assert LocalPaths(c, files) == Some((HRK_PATH, HSK_CEK_PATH));
    hide LocalPaths;
    hide ReadFixed;
    hide TwoFiles;
  }

  /**
   A peer's root is not compared when the anchor comes from a certificate directory: an issued
   peer that carries any other root of the right size is accepted all the same.
   */
  lemma OtherRootAccepted(sm2: Sm2, o: Order, root: bytes, ev: Evidence, spki: bytes, pem: bytes)
    returns (c: Config, env: Env)
    requires Issuable(sm2, o) && Issued(sm2, o, root, ev) && root != CertsOf(sm2, o).hrk
    ensures c == Config(Strict, [o.hex], false, [], [], [], DIRECTORY, None)
    ensures LocalAnchor(c, env.files).Some? && ev.hrkCert != LocalAnchor(c, env.files).value && ev.hrkCert != []
    ensures Verdict(Some(c), env, pem) == Ok(Some(ev))
  {
    IssuedChainVerifies(sm2, o.keys, o.rand);
    var certs := CertsOf(sm2, o);
    c := Config(Strict, [o.hex], false, [], [], [], DIRECTORY, None);
    FilesResolve(c, certs, ev);
    var files := TwoFiles(certs.hrk, certs.hskCek);
    env := Peer(sm2, files, spki, o.digest, ev);
    assert env.files == files && Demands(c, o.hex) && PeerRootAgrees(c, ev) && ev.hrkCert == root;
    hide *;
    IssuedPeerAccepted(sm2, o, root, ev, files, spki, c, pem);
  }

  /** With the anchor in memory as well, the same paths lead nowhere. */
  lemma AnchoredRefuses(c: Config, hrk: bytes, hex: bytes, env: Env, pem: bytes)
    requires Demands(c, hex) && Measurement(hex) && HasPaths(c)
    requires c.trustedHrk == hrk && |hrk| == HRK_CERT_SIZE
    ensures LocalAnchor(c, env.files) == Some(hrk) && Verdict(Some(c), env, pem).Err?
  {
    assert hrk[..HRK_CERT_SIZE] == hrk;
    DemandsIsNormal(c, hex);
    hide Verdict;
    hide Normalized;
    hide Measurement;
    AnchorAndPathsRejectAll(Some(c), env, pem);
  }

  /**
   Explicit paths work until their own root is also held in memory: the issued peer is accepted
   through the paths, and refused once that very root is configured as the anchor.
   */
  lemma AnchorBreaksPaths(sm2: Sm2, o: Order, ev: Evidence, spki: bytes, pem: bytes) returns (c: Config, env: Env)
    requires Issuable(sm2, o) && Issued(sm2, o, CertsOf(sm2, o).hrk, ev)
    ensures c == Config(Strict, [o.hex], false, HRK_PATH, HSK_CEK_PATH, [], [], None)
    ensures Verdict(Some(c), env, pem) == Ok(Some(ev))
    ensures LocalAnchor(c, env.files) == Some(ev.hrkCert)
    ensures Verdict(Some(c.(trustedHrk := ev.hrkCert)), env, pem).Err?
  {
    IssuedChainVerifies(sm2, o.keys, o.rand);
    var certs := CertsOf(sm2, o);
    c := Config(Strict, [o.hex], false, HRK_PATH, HSK_CEK_PATH, [], [], None);
    FilesResolve(c, certs, ev);
    var files := TwoFiles(certs.hrk, certs.hskCek);
    env := Peer(sm2, files, spki, o.digest, ev);
    var d := c.(trustedHrk := ev.hrkCert);
    assert env.files == files && Demands(c, o.hex) && PeerRootAgrees(c, ev) && ev.hrkCert == certs.hrk;
    assert Demands(d, o.hex) && HasPaths(d) && Measurement(o.hex);
    hide *;
    IssuedPeerAccepted(sm2, o, certs.hrk, ev, files, spki, c, pem);
    AnchoredRefuses(d, certs.hrk, o.hex, env, pem);
  }

  // The authority itself ------------------------------------------------------------------

  method PutMasked(buf: array<byte>, at: nat, data: bytes, anonce: nat)
    requires at + |data| <= buf.Length && anonce < 0x1_0000_0000
    modifies buf
    ensures buf[..] == Splice(old(buf[..]), at, Unmasked(data, anonce))
  {
    var masked := UnmaskWords(data, anonce);
    Put(buf, at, masked[..]);
  }

  /** Signs a buffer's first n bytes and writes the signature into it. */
  method SignHygonData(sm2: Sm2, secret: nat, buf: array<byte>, n: nat, at: nat, randomness: nat) returns (ok: bool)
    requires Laws(sm2) && n <= at && at + SIG_END <= buf.Length
    modifies buf
    ensures match Sign(sm2, secret, old(buf[..]), n, at, randomness)
            case None => !ok && buf[..] == old(buf[..])
            case Some(signed) => ok && buf[..] == signed
  {
    hide PutSignature;
    hide Coordinate;
    assert buf[..][..n] == buf[..n];
    match sm2.sign(secret, buf[..n], USER_ID, randomness) {
      case None =>
        ok := false;
      case Some((r, s)) =>
        PutHygonSignature(buf, at, r, s);
        ok := true;
    }
  }

  method BuildRoot(sm2: Sm2, usage: nat, subject: nat, issuer: nat, randomness: nat) returns (cert: Option<bytes>)
    requires Laws(sm2)
    ensures cert == SignedRoot(sm2, usage, subject, issuer, randomness)
  {
    var buf := new byte[HRK_CERT_SIZE](_ => 0);
    assert buf[..] == Zeros(HRK_CERT_SIZE);
    Put(buf, ROOT_KEY_USAGE, PutLE(usage, 4));
    PutHygonPubKey(buf, ROOT_PUB_KEY, sm2.publicPoint(subject), USER_ID);
    assert buf[..] == RootBody(usage, sm2.publicPoint(subject));
    hide *;
    var ok := SignHygonData(sm2, issuer, buf, ROOT_SIG, ROOT_SIG, randomness);
    cert := if ok then Some(buf[..]) else None;
  }

  method BuildCsv(sm2: Sm2, usage: nat, sig1Usage: nat, subject: nat, issuer: nat, randomness: nat)
    returns (cert: Option<bytes>)
    requires Laws(sm2)
    ensures cert == SignedCsv(sm2, usage, sig1Usage, subject, issuer, randomness)
  {
    var buf := new byte[CSV_CERT_SIZE](_ => 0);
    assert buf[..] == Zeros(CSV_CERT_SIZE);
    Put(buf, CSV_PUB_KEY_USAGE, PutLE(usage, 4));
    Put(buf, CSV_SIG1_USAGE, PutLE(sig1Usage, 4));
    Put(buf, CSV_SIG2_USAGE, PutLE(KEY_USAGE_INVALID, 4));
    PutHygonPubKey(buf, CSV_PUB_KEY, sm2.publicPoint(subject), USER_ID);
    var ok := SignHygonData(sm2, issuer, buf, CSV_SIG1_USAGE, CSV_SIG1, randomness);
    cert := if ok then Some(buf[..]) else None;
  }

  class MockAttestationAuthority {
    const sm2: Sm2
    const keys: Keys
    var hrkCert: bytes
    var hskCekCert: bytes
    var pekCert: bytes

    constructor (sm2: Sm2, keys: Keys)
      ensures this.sm2 == sm2 && this.keys == keys && hrkCert == [] && hskCekCert == [] && pekCert == []
    {
      this.sm2, this.keys := sm2, keys;
      hrkCert, hskCekCert, pekCert := [], [], [];
    }

    method GenerateCertificates(rand: seq<nat>) returns (ok: bool)
      requires Laws(sm2) && |rand| == 4
      modifies this
      ensures ok <==> Issue(sm2, keys, rand).Some?
      ensures ok ==> Issue(sm2, keys, rand) == Some(Certificates(hrkCert, hskCekCert, pekCert))
    {
      hide SignedRoot;
      hide SignedCsv;
      ok := false;
      var hrk := BuildRoot(sm2, KEY_USAGE_HRK, keys.hrk, keys.hrk, rand[0]);
      if hrk.None? {
        return;
      }
      hrkCert := hrk.value;
      var hsk := BuildRoot(sm2, KEY_USAGE_HSK, keys.hsk, keys.hrk, rand[1]);
      if hsk.None? {
        return;
      }
      var cek := BuildCsv(sm2, KEY_USAGE_CEK, KEY_USAGE_HSK, keys.cek, keys.hsk, rand[2]);
      if cek.None? {
        return;
      }
      var pek := BuildCsv(sm2, KEY_USAGE_PEK, KEY_USAGE_CEK, keys.pek, keys.cek, rand[3]);
      if pek.None? {
        return;
      }
      pekCert := pek.value;
      hskCekCert := hsk.value + cek.value;
      ok := true;
    }

    /**
     A report made for these inputs, field by field, and the two certificate files that go with
     it; the authority does not change.
     */
    method Generate(userData: bytes, hex: bytes, anonce: nat, randomness: nat)
      returns (r: Option<(bytes, bytes, bytes)>)
      requires Laws(sm2) && |pekCert| == CSV_CERT_SIZE && anonce < 0x1_0000_0000
      ensures match SignedReport(sm2, keys.pek, pekCert, userData, hex, anonce, randomness)
              case None => r == None
              case Some(report) => r == Some((report, hrkCert, hskCekCert))
    {
      var buf := new byte[REPORT_SIZE](_ => 0);
      assert buf[..] == Zeros(REPORT_SIZE);
      Put(buf, A_NONCE, PutLE(anonce, 4));
      PutMasked(buf, USER_DATA, Padded(userData), anonce);
      PutMasked(buf, M_NONCE, MOCK_NONCE, anonce);
      PutMasked(buf, MEASURE, MeasurementOf(hex), anonce);
      PutMasked(buf, PEK_CERT, pekCert, anonce);
      PutMasked(buf, CHIP_ID, ChipField(), anonce);
      hide Sign;
      var ok := SignHygonData(sm2, keys.pek, buf, SIGNED_SIZE, SIG1, randomness);
      r := if ok then Some((buf[..], hrkCert, hskCekCert)) else None;
    }
  }
}
