/** Attestation reports: a fixed layout with most fields masked by the 32-bit A nonce. */
module Report {
  import opened Bytes
  import opened Hygon
  import Text

  const REPORT_SIZE := 0x9f4
  const SIGNED_SIZE := 0xb4
  const USER_DATA_SIZE := 64
  const NONCE_SIZE := 16
  const HASH_SIZE := 32
  const CHIP_ID_SIZE := 64
  const SIGNATURE_SIZE := 144

  const PUBKEY_DIGEST := 0x000
  const VM_ID := 0x020
  const VM_VERSION := 0x030
  const USER_DATA := 0x040
  const M_NONCE := 0x080
  const MEASURE := 0x090
  const POLICY := 0x0b0
  const SIG_USAGE := 0x0b4
  const SIG_ALGO := 0x0b8
  const A_NONCE := 0x0bc
  const SIG1 := 0x0c0
  const PEK_CERT := 0x150
  const CHIP_ID := 0x974
  const RESERVED2 := 0x9b4
  const MAC := 0x9d4

  // Masking ------------------------------------------------------------------------

  /** Whole words are masked with the little-endian A nonce, a partial last word is not. */
  function Unmasked(data: bytes, anonce: nat): (out: bytes)
    ensures |out| == |data|
  {
    var mask := PutLE(anonce, 4);
    seq(|data|, i requires 0 <= i < |data| => if i < |data| / 4 * 4 then Xor(data[i], mask[i % 4]) else data[i])
  }

  lemma MaskedWord(word: bytes, anonce: nat)
    requires |word| == 4 && anonce < Pow256(4)
    ensures PutLE(XorNat(LE(word), anonce), 4) == XorBytes(word, PutLE(anonce, 4))
  {
    var mask := PutLE(anonce, 4);
    LEOfPut(anonce, 4);
    XorBytesLE(word, mask);
    PutOfLE(XorBytes(word, mask));
  }

  lemma InWholeWord(n: nat, i: nat, k: nat)
    requires i % 4 == 0 && i + 4 <= n && k < 4
    ensures i + k < n / 4 * 4 && (i + k) % 4 == k
  {
  }

  lemma MaskedWordAt(data: bytes, anonce: nat, i: nat, k: nat)
    requires anonce < Pow256(4) && i % 4 == 0 && i + 4 <= |data| && k < 4
    ensures PutLE(XorNat(LE(data[i..i + 4]), anonce), 4)[k] == Unmasked(data, anonce)[i + k]
  {
    InWholeWord(|data|, i, k);
    assert Unmasked(data, anonce)[i + k] == Xor(data[i + k], PutLE(anonce, 4)[k]);
    hide *;
    MaskedWord(data[i..i + 4], anonce);
  }

  method UnmaskWords(data: bytes, anonce: nat) returns (out: array<byte>)
    requires anonce < 0x1_0000_0000
    ensures out[..] == Unmasked(data, anonce)
  {
    Pow256Values();
    hide PutLE;
    hide LE;
    hide XorNat;
    hide Pow256;
    hide Xor;
    ghost var target := Unmasked(data, anonce);
    out := new byte[|data|];
    var i := 0;
    while i + 4 <= |data|
      invariant 0 <= i <= |data| && i % 4 == 0
      invariant forall k :: 0 <= k < i ==> out[k] == target[k]
    {
      var word := PutLE(XorNat(LE(data[i..i + 4]), anonce), 4);
      MaskedWordAt(data, anonce, i, 0);
      MaskedWordAt(data, anonce, i, 1);
      MaskedWordAt(data, anonce, i, 2);
      MaskedWordAt(data, anonce, i, 3);
      out[i], out[i + 1], out[i + 2], out[i + 3] := word[0], word[1], word[2], word[3];
      i := i + 4;
    }
    assert i == |data| / 4 * 4;
    forall k | i <= k < |data| {
      out[k] := data[k];
    }
  }

  /** Masking is its own inverse. */
  lemma UnmaskedTwice(data: bytes, anonce: nat)
    ensures Unmasked(Unmasked(data, anonce), anonce) == data
  {
    var mask, once := PutLE(anonce, 4), Unmasked(data, anonce);
    forall i | 0 <= i < |data| ensures Unmasked(once, anonce)[i] == data[i] {
      XorCancel(data[i], mask[i % 4]);
    }
  }

  /** One unmasked word pins the nonce that unmasked it. */
  lemma NonceOfWord(data: bytes, a: nat, b: nat)
    requires |data| >= 4 && a < 0x1_0000_0000 && b < 0x1_0000_0000
    requires Unmasked(data, a)[..4] == Unmasked(data, b)[..4]
    ensures a == b
  {
    Pow256Values();
    var p, q := PutLE(a, 4), PutLE(b, 4);
    forall i | 0 <= i < 4 ensures p[i] == q[i] {
      assert Unmasked(data, a)[i] == Unmasked(data, a)[..4][i] == Unmasked(data, b)[..4][i] == Unmasked(data, b)[i];
      XorCommutes(data[i], p[i]);
      XorCommutes(data[i], q[i]);
      XorLeftInjective(p[i], q[i], data[i]);
    }
    assert p == q;
    LEOfPut(a, 4);
    LEOfPut(b, 4);
  }

  // Parsing --------------------------------------------------------------------------

  datatype ChipError = ChipIdEmpty | ChipIdNotPrintable

  function ChipIdAscii(chipId: bytes): Result<bytes, ChipError> {
    var trimmed := Text.TrimSpace(Text.TrimRightZeros(chipId));
    if trimmed == [] then Err(ChipIdEmpty)
    else if exists i :: 0 <= i < |trimmed| && (trimmed[i] < 0x20 || trimmed[i] > 0x7e) then Err(ChipIdNotPrintable)
    else Ok(trimmed)
  }

  datatype Parsed = Parsed(
    pubkeyDigest: bytes, vmId: bytes, vmVersion: bytes,
    userData: bytes, mNonce: bytes, digest: bytes,
    policy: nat, sigUsage: nat, sigAlgo: nat, aNonce: nat,
    signature: bytes, pekCert: bytes, chipId: bytes, chipIdAscii: bytes,
    reserved2: bytes, mac: bytes, pekDetails: CsvDetails, raw: bytes
  )

  datatype ParseError = ShortReport | BadChipId(error: ChipError) | BadPek(cert: CertError)

  function ANonce(report: bytes): nat
    requires |report| >= REPORT_SIZE
  {
    Word(report, A_NONCE)
  }

  function UnmaskedField(report: bytes, at: nat, n: nat): (f: bytes)
    requires |report| >= REPORT_SIZE && at + n <= REPORT_SIZE
    ensures |f| == n
  {
    Unmasked(Field(report, at, n), ANonce(report))
  }

  function ParseReport(data: bytes): Result<Parsed, ParseError> {
    if |data| < REPORT_SIZE then Err(ShortReport)
    else
      var report := data[..REPORT_SIZE];
      var chipId := UnmaskedField(report, CHIP_ID, CHIP_ID_SIZE);
      var pekCert := UnmaskedField(report, PEK_CERT, CSV_CERT_SIZE);
      if ChipIdAscii(chipId).Err? then Err(BadChipId(ChipIdAscii(chipId).error))
      else if ParseCsv(pekCert).Err? then Err(BadPek(ParseCsv(pekCert).error))
      else Ok(Parsed(
        Field(report, PUBKEY_DIGEST, HASH_SIZE), Field(report, VM_ID, 16), Field(report, VM_VERSION, 16),
        UnmaskedField(report, USER_DATA, USER_DATA_SIZE), UnmaskedField(report, M_NONCE, NONCE_SIZE),
        UnmaskedField(report, MEASURE, HASH_SIZE),
        LE(UnmaskedField(report, POLICY, 4)),
        LE(UnmaskedField(report, SIG_USAGE, 4)),
        LE(UnmaskedField(report, SIG_ALGO, 4)),
        ANonce(report),
        Field(report, SIG1, SIGNATURE_SIZE), pekCert, chipId, ChipIdAscii(chipId).value,
        Field(report, RESERVED2, 32), Field(report, MAC, HASH_SIZE), ParseCsv(pekCert).value, report))
  }

  /** USER_DATA starts with this digest: the verifier's public-key binding. */
  predicate BoundTo(res: Parsed, digest: bytes) {
    |res.userData| >= 32 && res.userData[..32] == digest
  }

  lemma PrefixRange(s: bytes, n: nat, lo: nat, hi: nat)
    requires lo <= hi <= n <= |s|
    ensures s[..n][lo..hi] == s[lo..hi]
  {
  }

  lemma ParsedFields(data: bytes)
    requires ParseReport(data).Ok?
    ensures var res := ParseReport(data).value;
            && |data| >= REPORT_SIZE && res.raw == data[..REPORT_SIZE]
            && res.aNonce == Word(data, A_NONCE) < 0x1_0000_0000
            && res.userData == Unmasked(data[USER_DATA..M_NONCE], res.aNonce)
            && res.mNonce == Unmasked(data[M_NONCE..MEASURE], res.aNonce)
            && res.digest == Unmasked(data[MEASURE..POLICY], res.aNonce)
            && res.policy == LE(Unmasked(data[POLICY..SIGNED_SIZE], res.aNonce))
            && res.pubkeyDigest == data[..VM_ID] && res.vmId == data[VM_ID..VM_VERSION]
            && res.vmVersion == data[VM_VERSION..USER_DATA]
  {
    hide Unmasked;
    hide LE;
    PrefixRange(data, REPORT_SIZE, A_NONCE, A_NONCE + 4);
    PrefixRange(data, REPORT_SIZE, USER_DATA, M_NONCE);
    PrefixRange(data, REPORT_SIZE, M_NONCE, MEASURE);
    PrefixRange(data, REPORT_SIZE, MEASURE, POLICY);
    PrefixRange(data, REPORT_SIZE, POLICY, SIGNED_SIZE);
    PrefixRange(data, REPORT_SIZE, 0, VM_ID);
    PrefixRange(data, REPORT_SIZE, VM_ID, VM_VERSION);
    PrefixRange(data, REPORT_SIZE, VM_VERSION, USER_DATA);
    assert data[0..VM_ID] == data[..VM_ID];
    Pow256Values();
    PutOfLE(Field(data, A_NONCE, 4));
  }

  /** The fields outside the signed region, and what is left masked. */
  lemma UnsignedFields(data: bytes)
    requires ParseReport(data).Ok?
    ensures var res := ParseReport(data).value;
            && |data| >= REPORT_SIZE
            && res.sigUsage == LE(Unmasked(data[SIG_USAGE..SIG_USAGE + 4], res.aNonce))
            && res.sigAlgo == LE(Unmasked(data[SIG_ALGO..SIG_ALGO + 4], res.aNonce))
            && res.signature == data[SIG1..SIG1 + SIGNATURE_SIZE]
            && res.pekCert == Unmasked(data[PEK_CERT..PEK_CERT + CSV_CERT_SIZE], res.aNonce)
            && res.chipId == Unmasked(data[CHIP_ID..CHIP_ID + CHIP_ID_SIZE], res.aNonce)
            && res.reserved2 == data[RESERVED2..RESERVED2 + 32] && res.mac == data[MAC..MAC + HASH_SIZE]
            && Ok(res.chipIdAscii) == ChipIdAscii(res.chipId) && Ok(res.pekDetails) == ParseCsv(res.pekCert)
  {
    hide Unmasked;
    hide LE;
    hide ChipIdAscii;
    hide ParseCsv;
    PrefixRange(data, REPORT_SIZE, A_NONCE, A_NONCE + 4);
    PrefixRange(data, REPORT_SIZE, SIG_USAGE, SIG_USAGE + 4);
    PrefixRange(data, REPORT_SIZE, SIG_ALGO, SIG_ALGO + 4);
    PrefixRange(data, REPORT_SIZE, SIG1, SIG1 + SIGNATURE_SIZE);
    PrefixRange(data, REPORT_SIZE, PEK_CERT, PEK_CERT + CSV_CERT_SIZE);
    PrefixRange(data, REPORT_SIZE, CHIP_ID, CHIP_ID + CHIP_ID_SIZE);
    PrefixRange(data, REPORT_SIZE, RESERVED2, RESERVED2 + 32);
    PrefixRange(data, REPORT_SIZE, MAC, MAC + HASH_SIZE);
  }

  lemma SameRange(p: bytes, q: bytes, n: nat, lo: nat, hi: nat)
    requires lo <= hi <= n <= |p| && n <= |q| && p[..n] == q[..n]
    ensures p[lo..hi] == q[lo..hi]
  {
    assert p[lo..hi] == p[..n][lo..hi];
    assert q[lo..hi] == q[..n][lo..hi];
  }

  /**
   The A nonce lies outside the signed region, yet the public-key binding pins it: two reports
   with the same signed bytes, both bound to the same digest, have the same A nonce and so the
   same value of every field in the signed region.
   */
  lemma ANoncePinned(p: bytes, q: bytes, digest: bytes)
    requires ParseReport(p).Ok? && ParseReport(q).Ok?
    requires p[..SIGNED_SIZE] == q[..SIGNED_SIZE]
    requires BoundTo(ParseReport(p).value, digest) && BoundTo(ParseReport(q).value, digest)
    ensures var a, b := ParseReport(p).value, ParseReport(q).value;
            && a.aNonce == b.aNonce && a.userData == b.userData && a.mNonce == b.mNonce
            && a.digest == b.digest && a.policy == b.policy
            && a.pubkeyDigest == b.pubkeyDigest && a.vmId == b.vmId && a.vmVersion == b.vmVersion
  {
    ParsedFields(p);
    ParsedFields(q);
    var a, b := ParseReport(p).value, ParseReport(q).value;
    hide ParseReport;
    hide Unmasked;
    SameRange(p, q, SIGNED_SIZE, 0, VM_ID);
    SameRange(p, q, SIGNED_SIZE, VM_ID, VM_VERSION);
    SameRange(p, q, SIGNED_SIZE, VM_VERSION, USER_DATA);
    SameRange(p, q, SIGNED_SIZE, USER_DATA, M_NONCE);
    SameRange(p, q, SIGNED_SIZE, M_NONCE, MEASURE);
    SameRange(p, q, SIGNED_SIZE, MEASURE, POLICY);
    SameRange(p, q, SIGNED_SIZE, POLICY, SIGNED_SIZE);
    assert p[0..VM_ID] == p[..VM_ID] && q[0..VM_ID] == q[..VM_ID];
    var field := p[USER_DATA..M_NONCE];
    assert field == q[USER_DATA..M_NONCE];
    assert Unmasked(field, a.aNonce)[..4] == a.userData[..32][..4] == b.userData[..32][..4]
           == Unmasked(field, b.aNonce)[..4];
    NonceOfWord(field, a.aNonce, b.aNonce);
  }
}
