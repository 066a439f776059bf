/**
 Report and certificate-chain verification. SM2 verification is a parameter; the file system
 is a partial map from paths to contents.
 */
module Chain {
  import opened Bytes
  import opened Codec
  import opened Hygon
  import opened Report
  import Text

  datatype Cert = Hrk | Hsk | Cek | Pek

  datatype Usage = HrkUsage | HskUsage | CekUsage | CekSig1Usage | CekSig2Usage | PekUsage

  datatype ChainError =
    | HrkTooShort
    | HskCekTooShort
    | BadCert(cert: Cert, error: CertError)
    | WrongUsage(usage: Usage)
    | BadSignature(signee: Cert)

  predicate Verifies(verify: Sm2Verify, key: PubKey, message: bytes, sig: bytes) {
    verify(key.point, message, key.userId, ParseSignature(sig).0, ParseSignature(sig).1)
  }

  /** The first of the checks on key usages that fails; the PEK's own sig1 usage is not among them. */
  function CheckUsages(hrk: RootDetails, hsk: RootDetails, cek: CsvDetails, pek: CsvDetails): Option<Usage> {
    if hrk.keyUsage != KEY_USAGE_HRK then Some(HrkUsage)
    else if hsk.keyUsage != KEY_USAGE_HSK then Some(HskUsage)
    else if cek.pubKeyUsage != KEY_USAGE_CEK then Some(CekUsage)
    else if cek.sig1Usage != KEY_USAGE_HSK then Some(CekSig1Usage)
    else if cek.sig2Usage != KEY_USAGE_INVALID then Some(CekSig2Usage)
    else if pek.pubKeyUsage != KEY_USAGE_PEK then Some(PekUsage)
    else None
  }

  function CheckSignatures(verify: Sm2Verify, hrk: bytes, hsk: bytes, cek: bytes, pek: bytes,
      hrkKey: PubKey, hskKey: PubKey, cekKey: PubKey): Option<Cert>
    requires |hrk| == |hsk| == HRK_CERT_SIZE && |cek| >= CSV_CERT_SIZE && |pek| >= CSV_CERT_SIZE
  {
    if !Verifies(verify, hrkKey, hrk[..ROOT_SIG], hrk[ROOT_SIG..]) then Some(Hrk)
    else if !Verifies(verify, hrkKey, hsk[..ROOT_SIG], hsk[ROOT_SIG..]) then Some(Hsk)
    else if !Verifies(verify, hskKey, cek[..CSV_SIG1_USAGE], cek[CSV_SIG1..]) then Some(Cek)
    else if !Verifies(verify, cekKey, pek[..CSV_SIG1_USAGE], pek[CSV_SIG1..]) then Some(Pek)
    else None
  }

  /** What VerifyCertChain returns, check by check. */
  function CheckChain(verify: Sm2Verify, hrkIn: bytes, hskCekIn: bytes, pek: bytes): Option<ChainError> {
    if |hrkIn| < HRK_CERT_SIZE then Some(HrkTooShort)
    else if |hskCekIn| < HSK_CEK_SIZE then Some(HskCekTooShort)
    else
      var hrk, hsk, cek := hrkIn[..HRK_CERT_SIZE], hskCekIn[..HRK_CERT_SIZE], hskCekIn[HRK_CERT_SIZE..HSK_CEK_SIZE];
      if ParseRoot(hrk).Err? then Some(BadCert(Hrk, ParseRoot(hrk).error))
      else if ParseRoot(hsk).Err? then Some(BadCert(Hsk, ParseRoot(hsk).error))
      else if ParseCsv(cek).Err? then Some(BadCert(Cek, ParseCsv(cek).error))
      else if ParseCsv(pek).Err? then Some(BadCert(Pek, ParseCsv(pek).error))
      else
        var h, s, c, p := ParseRoot(hrk).value, ParseRoot(hsk).value, ParseCsv(cek).value, ParseCsv(pek).value;
        if CheckUsages(h, s, c, p).Some? then Some(WrongUsage(CheckUsages(h, s, c, p).value))
        else
          var bad := CheckSignatures(verify, hrk, hsk, cek, pek, h.pubKey, s.pubKey, c.pubKey);
          if bad.Some? then Some(BadSignature(bad.value)) else None
  }

  class CertChainDetails {
    var hrk: Option<RootDetails>
    var hsk: Option<RootDetails>
    var cek: Option<CsvDetails>
    var pek: Option<CsvDetails>
    var hrkSelfSigned: bool
    var hskSignedByHrk: bool
    var cekSignedByHsk: bool
    var pekSignedByCek: bool

    constructor ()
      ensures hrk == None && hsk == None && cek == None && pek == None
      ensures !hrkSelfSigned && !hskSignedByHrk && !cekSignedByHsk && !pekSignedByCek
    {
      hrk, hsk, cek, pek := None, None, None, None;
      hrkSelfSigned, hskSignedByHrk, cekSignedByHsk, pekSignedByCek := false, false, false, false;
    }
  }

  function OkOf<T, E>(r: Result<T, E>): Option<T> {
    if r.Ok? then Some(r.value) else None
  }

  /** Each flag is set when its own signature and all those before it verified. */
  method VerifySignatures(verify: Sm2Verify, hrk: bytes, hsk: bytes, cek: bytes, pek: bytes,
      hrkKey: PubKey, hskKey: PubKey, cekKey: PubKey, details: CertChainDetails) returns (bad: Option<Cert>)
    requires |hrk| == |hsk| == HRK_CERT_SIZE && |cek| >= CSV_CERT_SIZE && |pek| >= CSV_CERT_SIZE
    requires !details.hrkSelfSigned && !details.hskSignedByHrk && !details.cekSignedByHsk && !details.pekSignedByCek
    modifies details`hrkSelfSigned, details`hskSignedByHrk, details`cekSignedByHsk, details`pekSignedByCek
    ensures bad == CheckSignatures(verify, hrk, hsk, cek, pek, hrkKey, hskKey, cekKey)
    ensures details.pekSignedByCek <==> bad == None
    ensures details.cekSignedByHsk <==> bad == None || bad == Some(Pek)
    ensures details.hskSignedByHrk <==> details.cekSignedByHsk || bad == Some(Cek)
    ensures details.hrkSelfSigned <==> details.hskSignedByHrk || bad == Some(Hsk)
  {
    hide Verifies;
    details.hrkSelfSigned := Verifies(verify, hrkKey, hrk[..ROOT_SIG], hrk[ROOT_SIG..]);
    if !details.hrkSelfSigned {
      return Some(Hrk);
    }
    details.hskSignedByHrk := Verifies(verify, hrkKey, hsk[..ROOT_SIG], hsk[ROOT_SIG..]);
    if !details.hskSignedByHrk {
      return Some(Hsk);
    }
    details.cekSignedByHsk := Verifies(verify, hskKey, cek[..CSV_SIG1_USAGE], cek[CSV_SIG1..]);
    if !details.cekSignedByHsk {
      return Some(Cek);
    }
    details.pekSignedByCek := Verifies(verify, cekKey, pek[..CSV_SIG1_USAGE], pek[CSV_SIG1..]);
    bad := if details.pekSignedByCek then None else Some(Pek);
  }

  method VerifyCertChain(verify: Sm2Verify, hrkIn: bytes, hskCekIn: bytes, pekCert: bytes)
    returns (details: CertChainDetails?, err: Option<ChainError>)
    ensures err == CheckChain(verify, hrkIn, hskCekIn, pekCert)
    ensures details == null <==> err == Some(HrkTooShort) || err == Some(HskCekTooShort)
    ensures details != null ==> fresh(details)
    ensures details != null ==> (details.pekSignedByCek <==> err == None)
    ensures details != null ==> (details.cekSignedByHsk <==> err == None || err == Some(BadSignature(Pek)))
    ensures details != null ==>
              (details.hskSignedByHrk <==> details.cekSignedByHsk || err == Some(BadSignature(Cek)))
    ensures details != null ==>
              (details.hrkSelfSigned <==> details.hskSignedByHrk || err == Some(BadSignature(Hsk)))
    ensures err == None ==>
              && details.hrk == OkOf(ParseRoot(hrkIn[..HRK_CERT_SIZE]))
              && details.hsk == OkOf(ParseRoot(hskCekIn[..HRK_CERT_SIZE]))
              && details.cek == OkOf(ParseCsv(hskCekIn[HRK_CERT_SIZE..HSK_CEK_SIZE]))
              && details.pek == OkOf(ParseCsv(pekCert)) && details.pek.Some?
  {
    hide ParseRoot;
    hide ParseCsv;
    hide CheckSignatures;
    if |hrkIn| < HRK_CERT_SIZE {
      return null, Some(HrkTooShort);
    }
    if |hskCekIn| < HSK_CEK_SIZE {
      return null, Some(HskCekTooShort);
    }
    var hrk, hsk, cek := hrkIn[..HRK_CERT_SIZE], hskCekIn[..HRK_CERT_SIZE], hskCekIn[HRK_CERT_SIZE..HSK_CEK_SIZE];
    details := new CertChainDetails();
    details.hrk := OkOf(ParseRoot(hrk));
    if details.hrk.None? {
      return details, Some(BadCert(Hrk, ParseRoot(hrk).error));
    }
    details.hsk := OkOf(ParseRoot(hsk));
    if details.hsk.None? {
      return details, Some(BadCert(Hsk, ParseRoot(hsk).error));
    }
    details.cek := OkOf(ParseCsv(cek));
    if details.cek.None? {
      return details, Some(BadCert(Cek, ParseCsv(cek).error));
    }
    details.pek := OkOf(ParseCsv(pekCert));
    if details.pek.None? {
      return details, Some(BadCert(Pek, ParseCsv(pekCert).error));
    }
    var usage := CheckUsages(details.hrk.value, details.hsk.value, details.cek.value, details.pek.value);
    if usage.Some? {
      return details, Some(WrongUsage(usage.value));
    }
    var hrkKey, hskKey, cekKey := details.hrk.value.pubKey, details.hsk.value.pubKey, details.cek.value.pubKey;
    assert |pekCert| >= CSV_CERT_SIZE by {
      ParsedCsvIsLong(pekCert);
    }
    var bad := VerifySignatures(verify, hrk, hsk, cek, pekCert, hrkKey, hskKey, cekKey, details);
    err := if bad.Some? then Some(BadSignature(bad.value)) else None;
  }

  lemma ParsedCsvIsLong(cert: bytes)
    requires ParseCsv(cert).Ok?
    ensures |cert| >= CSV_CERT_SIZE
  {
  }

  // What a chain that verifies means ---------------------------------------------------

  /** This key is written at this offset, as little-endian fields. */
  predicate KeyAt(cert: bytes, at: nat, key: PubKey) {
    && at + KEY_USER_ID + 256 <= |cert|
    && LE(cert[at..at + 4]) == CURVE_SM2
    && key.point == Point(LE(cert[at + KEY_QX..at + KEY_QX + 32]), LE(cert[at + KEY_QY..at + KEY_QY + 32]))
    && LE(cert[at + KEY_USER_ID..at + KEY_USER_ID + 2]) == |key.userId|
    && at + KEY_USER_ID + 2 + |key.userId| <= |cert|
    && cert[at + KEY_USER_ID + 2..at + KEY_USER_ID + 2 + |key.userId|] == key.userId
  }

  /** The first n bytes are signed by this key, with the signature written at this offset. */
  predicate SignedAt(verify: Sm2Verify, key: PubKey, buf: bytes, n: nat, at: nat) {
    && n <= |buf| && at + SIG_END <= |buf|
    && verify(key.point, buf[..n], key.userId, LE(buf[at..at + 32]), LE(buf[at + SIG_S..at + SIG_S + 32]))
  }

  /** A complete chain from a root to a PEK, over the exact signed ranges. */
  ghost predicate TrustPath(verify: Sm2Verify, hrk: bytes, hsk: bytes, cek: bytes, pek: bytes) {
    && |hrk| == |hsk| == HRK_CERT_SIZE && |cek| == CSV_CERT_SIZE && |pek| >= CSV_CERT_SIZE
    && Word(hrk, ROOT_KEY_USAGE) == KEY_USAGE_HRK && Word(hsk, ROOT_KEY_USAGE) == KEY_USAGE_HSK
    && Word(cek, CSV_PUB_KEY_USAGE) == KEY_USAGE_CEK && Word(pek, CSV_PUB_KEY_USAGE) == KEY_USAGE_PEK
    && Word(cek, CSV_SIG1_USAGE) == KEY_USAGE_HSK && Word(cek, CSV_SIG2_USAGE) == KEY_USAGE_INVALID
    && (exists hrkKey :: KeyAt(hrk, ROOT_PUB_KEY, hrkKey)
          && SignedAt(verify, hrkKey, hrk, ROOT_SIG, ROOT_SIG) && SignedAt(verify, hrkKey, hsk, ROOT_SIG, ROOT_SIG))
    && (exists hskKey :: KeyAt(hsk, ROOT_PUB_KEY, hskKey) && SignedAt(verify, hskKey, cek, CSV_SIG1_USAGE, CSV_SIG1))
    && (exists cekKey :: KeyAt(cek, CSV_PUB_KEY, cekKey) && SignedAt(verify, cekKey, pek, CSV_SIG1_USAGE, CSV_SIG1))
    && (exists pekKey :: KeyAt(pek, CSV_PUB_KEY, pekKey))
  }

  lemma FieldOfTail(s: bytes, at: nat, from: nat, n: nat)
    requires at + from + n <= |s|
    ensures Field(s[at..], from, n) == s[at + from..at + from + n]
  {
  }

  lemma NumberIsLE(s: bytes, at: nat, from: nat)
    requires at + from + 32 <= |s|
    ensures Number(s[at..], from) == LE(s[at + from..at + from + 32])
  {
    FieldOfTail(s, at, from, 32);
    BEOfReversed(Field(s[at..], from, 32));
  }

  lemma ParseIsKeyAt(cert: bytes, at: nat, key: PubKey)
    requires at <= |cert|
    ensures ParsePubKey(cert[at..]) == Ok(key) <==> KeyAt(cert, at, key)
  {
    if at + KEY_USER_ID + 256 <= |cert| {
      NumberIsLE(cert, at, KEY_QX);
      NumberIsLE(cert, at, KEY_QY);
      FieldOfTail(cert, at, 0, 4);
      FieldOfTail(cert, at, KEY_USER_ID, 2);
      var n := LE(cert[at + KEY_USER_ID..at + KEY_USER_ID + 2]);
      hide LE;
      hide Number;
      if at + KEY_USER_ID + 2 + n <= |cert| {
        FieldOfTail(cert, at, KEY_USER_ID + 2, n);
      }
    }
  }

  lemma VerifiesIsSignedAt(verify: Sm2Verify, key: PubKey, buf: bytes, n: nat, at: nat)
    requires n <= |buf| && at + SIG_END <= |buf|
    ensures Verifies(verify, key, buf[..n], buf[at..]) <==> SignedAt(verify, key, buf, n, at)
  {
    NumberIsLE(buf, at, SIG_R);
    NumberIsLE(buf, at, SIG_S);
  }

  lemma RootExactly(cert: bytes)
    requires |cert| == HRK_CERT_SIZE
    ensures ParseRoot(cert).Ok? <==> exists key :: KeyAt(cert, ROOT_PUB_KEY, key)
    ensures ParseRoot(cert).Ok? ==> ParseRoot(cert).value.keyUsage == Word(cert, ROOT_KEY_USAGE)
    ensures forall key :: KeyAt(cert, ROOT_PUB_KEY, key) ==> ParseRoot(cert).value.pubKey == key
    ensures ParseRoot(cert).Ok? ==> KeyAt(cert, ROOT_PUB_KEY, ParseRoot(cert).value.pubKey)
  {
    forall key ensures ParsePubKey(cert[ROOT_PUB_KEY..]) == Ok(key) <==> KeyAt(cert, ROOT_PUB_KEY, key) {
      ParseIsKeyAt(cert, ROOT_PUB_KEY, key);
    }
    hide KeyAt;
    hide ParsePubKey;
  }

  lemma CsvExactly(cert: bytes)
    requires |cert| >= CSV_CERT_SIZE
    ensures ParseCsv(cert).Ok? <==> exists key :: KeyAt(cert, CSV_PUB_KEY, key)
    ensures forall key :: KeyAt(cert, CSV_PUB_KEY, key) ==> ParseCsv(cert).value.pubKey == key
    ensures ParseCsv(cert).Ok? ==>
              ParseCsv(cert).value
                  == CsvDetails(Word(cert, CSV_PUB_KEY_USAGE), Word(cert, CSV_SIG1_USAGE), Word(cert, CSV_SIG2_USAGE),
                                                 ParseCsv(cert).value.pubKey)
              && KeyAt(cert, CSV_PUB_KEY, ParseCsv(cert).value.pubKey)
  {
    forall key ensures ParsePubKey(cert[CSV_PUB_KEY..]) == Ok(key) <==> KeyAt(cert, CSV_PUB_KEY, key) {
      ParseIsKeyAt(cert, CSV_PUB_KEY, key);
    }
    hide KeyAt;
    hide ParsePubKey;
  }

  /** TrustPath between files that may be longer than the certificates they hold. */
  ghost predicate ChainsTo(verify: Sm2Verify, hrk: bytes, hskCek: bytes, pek: bytes) {
    && |hrk| >= HRK_CERT_SIZE && |hskCek| >= HSK_CEK_SIZE
    && TrustPath(verify, hrk[..HRK_CERT_SIZE], hskCek[..HRK_CERT_SIZE], hskCek[HRK_CERT_SIZE..HSK_CEK_SIZE], pek)
  }

  /** The checks accept exactly the complete chains, reading no byte past the fixed sizes. */
  lemma ChainExactly(verify: Sm2Verify, hrkIn: bytes, hskCekIn: bytes, pek: bytes)
    ensures CheckChain(verify, hrkIn, hskCekIn, pek) == None <==> ChainsTo(verify, hrkIn, hskCekIn, pek)
  {
    hide KeyAt;
    hide SignedAt;
    hide Verifies;
    hide ParseRoot;
    hide Word;
    if |hrkIn| >= HRK_CERT_SIZE && |hskCekIn| >= HSK_CEK_SIZE && |pek| >= CSV_CERT_SIZE {
      var hrk, hsk, cek := hrkIn[..HRK_CERT_SIZE], hskCekIn[..HRK_CERT_SIZE], hskCekIn[HRK_CERT_SIZE..HSK_CEK_SIZE];
      RootExactly(hrk);
      RootExactly(hsk);
      CsvExactly(cek);
      CsvExactly(pek);
      if ParseRoot(hrk).Ok? && ParseRoot(hsk).Ok? && ParseCsv(cek).Ok? {
        VerifiesIsSignedAt(verify, ParseRoot(hrk).value.pubKey, hrk, ROOT_SIG, ROOT_SIG);
        VerifiesIsSignedAt(verify, ParseRoot(hrk).value.pubKey, hsk, ROOT_SIG, ROOT_SIG);
        VerifiesIsSignedAt(verify, ParseRoot(hsk).value.pubKey, cek, CSV_SIG1_USAGE, CSV_SIG1);
        VerifiesIsSignedAt(verify, ParseCsv(cek).value.pubKey, pek, CSV_SIG1_USAGE, CSV_SIG1);
      }
    }
  }

  // The report's own signature ------------------------------------------------------------

  datatype PekError =
    | NilResult
    | ShortPekCert
    | ShortSignature
    | BadPekKey(error: KeyError)
    | ShortRaw
    | PekSignatureInvalid

  function CheckPekSignature(verify: Sm2Verify, res: Parsed): Option<PekError> {
    if |res.pekCert| < CSV_CERT_SIZE then Some(ShortPekCert)
    else if |res.signature| < SIG_END then Some(ShortSignature)
    else
      var key := ParsePubKey(res.pekCert[CSV_PUB_KEY..]);
      if key.Err? then Some(BadPekKey(key.error))
      else if |res.raw| < SIGNED_SIZE then Some(ShortRaw)
      else if !Verifies(verify, key.value, res.raw[..SIGNED_SIZE], res.signature) then Some(PekSignatureInvalid)
      else None
  }

  /**
   The check, exactly, on any result a caller may have built: it passes when the fields are long
   enough, a key is spelled in the PEK, and that key signed the first 0xb4 bytes of the report.
   */
  lemma PekSignatureExactly(verify: Sm2Verify, res: Parsed)
    ensures CheckPekSignature(verify, res) == None <==>
            && |res.pekCert| >= CSV_CERT_SIZE && |res.signature| >= SIG_END && |res.raw| >= SIGNED_SIZE
            && exists key :: KeyAt(res.pekCert, CSV_PUB_KEY, key)
                 && verify(key.point, res.raw[..SIGNED_SIZE], key.userId,
                           LE(res.signature[..32]), LE(res.signature[SIG_S..SIG_S + 32]))
  {
    hide KeyAt;
    hide LE;
    hide Number;
    if |res.pekCert| >= CSV_CERT_SIZE && |res.signature| >= SIG_END {
      CsvExactly(res.pekCert);
      SignatureHalves(res.signature);
    }
    hide ParsePubKey;
  }

  lemma SignatureHalves(sig: bytes)
    requires |sig| >= SIG_END
    ensures ParseSignature(sig) == (LE(sig[..32]), LE(sig[SIG_S..SIG_S + 32]))
  {
    BEOfReversed(sig[..32]);
    BEOfReversed(sig[SIG_S..SIG_S + 32]);
    assert sig[0..32] == sig[..32];
    hide LE;
    hide BE;
  }

  class VerificationResult {
    var report: Parsed
    var pekDetails: Option<CsvDetails>
    var reportVerified: bool
    var chainVerified: bool
    var chainOrigin: Option<Origin>
    var certDetails: CertChainDetails?

    constructor (report: Parsed)
      ensures this.report == report && pekDetails == Some(report.pekDetails)
      ensures !reportVerified && !chainVerified && chainOrigin == None && certDetails == null
    {
      this.report, pekDetails := report, Some(report.pekDetails);
      reportVerified, chainVerified, chainOrigin, certDetails := false, false, None, null;
    }
  }

  /** Takes any result a caller may have built, short fields included; marks it only on success. */
  method VerifyReportPEKSignature(verify: Sm2Verify, res: VerificationResult?) returns (err: Option<PekError>)
    modifies res
    ensures res == null ==> err == Some(NilResult)
    ensures res != null ==> err == CheckPekSignature(verify, old(res.report))
    ensures res != null ==> res.reportVerified == (old(res.reportVerified) || err == None)
    ensures res != null ==>
              && res.report == old(res.report) && res.pekDetails == old(res.pekDetails)
              && res.chainVerified == old(res.chainVerified) && res.chainOrigin == old(res.chainOrigin)
              && res.certDetails == old(res.certDetails)
  {
    if res == null {
      return Some(NilResult);
    }
    var report := res.report;
    if |report.pekCert| < CSV_CERT_SIZE {
      return Some(ShortPekCert);
    }
    if |report.signature| < SIG_END {
      return Some(ShortSignature);
    }
    var key := ParsePubKey(report.pekCert[CSV_PUB_KEY..]);
    if key.Err? {
      return Some(BadPekKey(key.error));
    }
    if |report.raw| < SIGNED_SIZE {
      return Some(ShortRaw);
    }
    if !Verifies(verify, key.value, report.raw[..SIGNED_SIZE], report.signature) {
      return Some(PekSignatureInvalid);
    }
    res.reportVerified := true;
    err := None;
  }

  /** The PEK inside a report, unmasked. */
  function PekOf(data: bytes): bytes
    requires |data| >= REPORT_SIZE
  {
    Unmasked(data[PEK_CERT..CHIP_ID], Word(data, A_NONCE))
  }

  /** The header of a report, as it is on the wire, is signed by the PEK inside it. */
  ghost predicate HeaderSigned(verify: Sm2Verify, data: bytes)
    requires |data| >= REPORT_SIZE
  {
    exists key :: KeyAt(PekOf(data), CSV_PUB_KEY, key) && SignedAt(verify, key, data, SIGNED_SIZE, SIG1)
  }

  lemma ParsedCertificate(data: bytes)
    requires ParseReport(data).Ok?
    ensures var res := ParseReport(data).value;
            |data| >= REPORT_SIZE && res.raw == data[..REPORT_SIZE] && |res.pekCert| == CSV_CERT_SIZE
            && res.pekCert == PekOf(data) && res.signature == data[SIG1..PEK_CERT] && ParseCsv(res.pekCert).Ok?
  {
    var report := data[..REPORT_SIZE];
    PrefixRange(data, REPORT_SIZE, A_NONCE, A_NONCE + 4);
    PrefixRange(data, REPORT_SIZE, PEK_CERT, CHIP_ID);
    PrefixRange(data, REPORT_SIZE, SIG1, PEK_CERT);
    hide Unmasked;
    hide ParseCsv;
    hide ChipIdAscii;
  }

  lemma FieldOfWindow(s: bytes, at: nat, hi: nat, from: nat, n: nat)
    requires at + from + n <= hi <= |s|
    ensures Field(s[at..hi], from, n) == Field(s[at..], from, n)
  {
    forall i | 0 <= i < n ensures Field(s[at..hi], from, n)[i] == Field(s[at..], from, n)[i] {
      assert Field(s[at..hi], from, n)[i] == s[at..hi][from + i] == s[at + from + i];
    }
  }

  /** A short window on a signature reads the same as a long one. */
  lemma SignatureWindow(s: bytes, at: nat, hi: nat)
    requires at + SIG_END <= hi <= |s|
    ensures ParseSignature(s[at..hi]) == ParseSignature(s[at..])
  {
    FieldOfWindow(s, at, hi, SIG_R, 32);
    FieldOfWindow(s, at, hi, SIG_S, 32);
  }

  lemma HeaderExactly(verify: Sm2Verify, data: bytes)
    requires ParseReport(data).Ok?
    ensures |data| >= REPORT_SIZE
    ensures CheckPekSignature(verify, ParseReport(data).value) == None <==> HeaderSigned(verify, data)
  {
    hide ParseReport;
    hide KeyAt;
    hide SignedAt;
    hide PekOf;
    hide ParseSignature;
    ParsedCertificate(data);
    var res := ParseReport(data).value;
    CsvExactly(res.pekCert);
    var key := ParseCsv(res.pekCert).value.pubKey;
    assert ParsePubKey(res.pekCert[CSV_PUB_KEY..]) == Ok(key);
    SignatureWindow(data, SIG1, PEK_CERT);
    assert data[..REPORT_SIZE][..SIGNED_SIZE] == data[..SIGNED_SIZE];
    VerifiesIsSignedAt(verify, key, data, SIGNED_SIZE, SIG1);
  }

  // Local chain material ----------------------------------------------------------------

  datatype Files = Files(contents: map<bytes, bytes>, join: (bytes, string) -> bytes)

  datatype Origin = InMemory | LocalFile

  datatype Material = Material(hrk: bytes, hskCek: bytes, origin: Origin)

  datatype LoadError = MissingCertChain | HrkUnreadable | HskCekUnreadable

  /** readFixedFile: the file's first bytes, None if it is absent or too short. */
  function ReadFixed(files: Files, path: bytes, size: nat): (r: Option<bytes>)
    ensures r.Some? ==> |r.value| == size
  {
    if path in files.contents && |files.contents[path]| >= size then Some(files.contents[path][..size]) else None
  }

  function LoadFromFiles(files: Files, hrkPath: bytes, hskCekPath: bytes): Result<Material, LoadError> {
    if ReadFixed(files, hrkPath, HRK_CERT_SIZE).None? then Err(HrkUnreadable)
    else if ReadFixed(files, hskCekPath, HSK_CEK_SIZE).None? then Err(HskCekUnreadable)
    else Ok(Material(ReadFixed(files, hrkPath, HRK_CERT_SIZE).value, ReadFixed(files, hskCekPath, HSK_CEK_SIZE).value,
        LocalFile))
  }

  function LoadLocal(files: Files, certDir: bytes): Result<Material, LoadError> {
    LoadFromFiles(files, files.join(certDir, "hrk.cert"), files.join(certDir, "hsk_cek.cert"))
  }

  datatype Options = Options(
    verifyChain: bool,
    trustedHrk: bytes, trustedHrkPath: bytes,
    hskCek: bytes, hskCekPath: bytes,
    certDir: bytes,
    hrkAlias: bytes, hrkPathAlias: bytes
  )

  const NO_OPTIONS := Options(true, [], [], [], [], [], [], [])

  /** loadChainFromOptions. */
  function LoadChain(opts: Options, files: Files): Result<Material, LoadError> {
    var hrk := if opts.trustedHrk == [] then opts.hrkAlias else opts.trustedHrk;
    var hrkPath := if Text.TrimSpace(opts.trustedHrkPath) == [] then Text.TrimSpace(opts.hrkPathAlias)
        else Text.TrimSpace(opts.trustedHrkPath);
    var hskCekPath := Text.TrimSpace(opts.hskCekPath);
    if hrk != [] || opts.hskCek != [] then
      if hrk == [] || opts.hskCek == [] then Err(MissingCertChain) else Ok(Material(hrk, opts.hskCek, InMemory))
    else if hrkPath != [] || hskCekPath != [] then
      if hrkPath == [] || hskCekPath == [] then Err(MissingCertChain) else LoadFromFiles(files, hrkPath, hskCekPath)
    else if Text.TrimSpace(opts.certDir) != [] && LoadLocal(files, opts.certDir).Ok? then LoadLocal(files, opts.certDir)
    else Err(MissingCertChain)
  }

  /** The deprecated aliases count exactly when what they stand for is empty or blank. */
  lemma AliasesStandIn(opts: Options, files: Files)
    ensures LoadChain(opts, files) ==
            LoadChain(opts.(trustedHrk := if opts.trustedHrk != [] then opts.trustedHrk else opts.hrkAlias,
                            hrkAlias := []), files)
    ensures Text.TrimSpace(opts.trustedHrkPath) != [] ==>
              LoadChain(opts, files) == LoadChain(opts.(hrkPathAlias := []), files)
    ensures Text.TrimSpace(opts.trustedHrkPath) == [] ==>
              LoadChain(opts, files) == LoadChain(opts.(trustedHrkPath := opts.hrkPathAlias, hrkPathAlias := []), files)
  {
    hide LoadFromFiles;
    hide LoadLocal;
    Text.TrimOfEmpty();
    hide Text.TrimSpace;
  }

  /**
   Chain material is never mixed: it is two byte strings held in memory, or, with none held, the
   files under two explicit paths, or, with no path either, those of the certificate directory.
   */
  lemma MaterialIsWhole(opts: Options, files: Files, m: Material)
    requires opts.hrkAlias == [] && opts.hrkPathAlias == []
    ensures var hrkPath, hskCekPath := Text.TrimSpace(opts.trustedHrkPath), Text.TrimSpace(opts.hskCekPath);
            LoadChain(opts, files) == Ok(m) <==>
            || (opts.trustedHrk != [] && opts.hskCek != [] && m == Material(opts.trustedHrk, opts.hskCek, InMemory))
            || (opts.trustedHrk == [] && opts.hskCek == [] && hrkPath != [] && hskCekPath != []
                && LoadFromFiles(files, hrkPath, hskCekPath) == Ok(m))
            || (opts.trustedHrk == [] && opts.hskCek == [] && hrkPath == [] && hskCekPath == []
                && Text.TrimSpace(opts.certDir) != []
                && LoadFromFiles(files, files.join(opts.certDir, "hrk.cert"), files.join(opts.certDir, "hsk_cek.cert"))
                     == Ok(m))
  {
    hide LoadFromFiles;
    Text.TrimOfEmpty();
    hide Text.TrimSpace;
  }

  lemma ReadsPrefix(files: Files, path: bytes, size: nat, b: bytes)
    ensures ReadFixed(files, path, size) == Some(b) <==>
            |b| == size && path in files.contents && b <= files.contents[path]
  {
    if path in files.contents && size <= |files.contents[path]| {
      assert files.contents[path][..size] <= files.contents[path];
      assert |b| == size && b <= files.contents[path] ==> b == files.contents[path][..size];
    }
  }

  /** Two files are read to their fixed sizes, whatever follows; a missing or short one is an error. */
  lemma FilesExactly(files: Files, hrkPath: bytes, hskCekPath: bytes, m: Material)
    ensures LoadFromFiles(files, hrkPath, hskCekPath) == Ok(m) <==>
            && m.origin == LocalFile && |m.hrk| == HRK_CERT_SIZE && |m.hskCek| == HSK_CEK_SIZE
            && hrkPath in files.contents && m.hrk <= files.contents[hrkPath]
            && hskCekPath in files.contents && m.hskCek <= files.contents[hskCekPath]
  {
    hide ReadFixed;
    ReadsPrefix(files, hrkPath, HRK_CERT_SIZE, m.hrk);
    ReadsPrefix(files, hskCekPath, HSK_CEK_SIZE, m.hskCek);
  }

  // The whole report ------------------------------------------------------------------------

  datatype ReportError =
    | BadReport(parse: ParseError)
    | BadHeader(pek: PekError)
    | NoChain(load: LoadError)
    | BadChain(chain: ChainError)

  /** What VerifyReportWithOptions returns: the parsed report, or the first error. */
  function CheckReport(verify: Sm2Verify, files: Files, opts: Options, data: bytes): Result<Parsed, ReportError> {
    var parsed := ParseReport(data);
    if parsed.Err? then Err(BadReport(parsed.error))
    else
      var res := parsed.value;
      var pek := CheckPekSignature(verify, res);
      if pek.Some? then Err(BadHeader(pek.value))
      else if !opts.verifyChain then Ok(res)
      else
        var bad := CheckMaterial(verify, files, opts, res.pekCert);
        if bad.Some? then Err(bad.value) else Ok(res)
  }

  function CheckMaterial(verify: Sm2Verify, files: Files, opts: Options, pekCert: bytes): Option<ReportError> {
    var material := LoadChain(opts, files);
    if material.Err? then Some(NoChain(material.error))
    else
      var bad := CheckChain(verify, material.value.hrk, material.value.hskCek, pekCert);
      if bad.Some? then Some(BadChain(bad.value)) else None
  }

  /** A report is accepted exactly when it parses, its header is signed, and its PEK chains to the loaded root. */
  lemma ReportExactly(verify: Sm2Verify, files: Files, opts: Options, data: bytes)
    ensures CheckReport(verify, files, opts, data).Ok? <==>
            && ParseReport(data).Ok? && |data| >= REPORT_SIZE && HeaderSigned(verify, data)
            && (opts.verifyChain ==>
                  && LoadChain(opts, files).Ok?
                  && ChainsTo(verify, LoadChain(opts, files).value.hrk, LoadChain(opts, files).value.hskCek,
                     PekOf(data)))
    ensures CheckReport(verify, files, opts, data).Ok? ==>
            CheckReport(verify, files, opts, data) == Ok(ParseReport(data).value)
  {
    if ParseReport(data).Ok? {
      HeaderExactly(verify, data);
      ParsedCertificate(data);
      if LoadChain(opts, files).Ok? {
        ChainExactly(verify, LoadChain(opts, files).value.hrk, LoadChain(opts, files).value.hskCek, PekOf(data));
      }
    }
    hide ParseReport;
    hide HeaderSigned;
    hide ChainsTo;
    hide CheckChain;
    hide CheckPekSignature;
    hide LoadChain;
    hide PekOf;
  }

  method VerifyMaterial(verify: Sm2Verify, files: Files, opts: Options, res: VerificationResult)
    returns (err: Option<ReportError>)
    modifies res
    ensures err == CheckMaterial(verify, files, opts, old(res.report).pekCert)
    ensures res.report == old(res.report) && res.reportVerified == old(res.reportVerified)
    ensures res.chainVerified == (old(res.chainVerified) || err == None)
    ensures res.chainOrigin == match LoadChain(opts, files)
                               case Ok(m) => Some(m.origin) case Err(_) => old(res.chainOrigin)
    ensures err == None ==> res.certDetails != null && fresh(res.certDetails) && res.certDetails.pekSignedByCek
  {
    var material := LoadChain(opts, files);
    hide LoadChain;
    hide CheckChain;
    hide ParseCsv;
    if material.Err? {
      return Some(NoChain(material.error));
    }
    res.chainOrigin := Some(material.value.origin);
    var details, bad := VerifyCertChain(verify, material.value.hrk, material.value.hskCek, res.report.pekCert);
    if details != null {
      res.certDetails, res.pekDetails := details, details.pek;
    }
    if bad.Some? {
      return Some(BadChain(bad.value));
    }
    res.chainVerified := true;
    err := None;
  }

  method VerifyReportWithOptions(verify: Sm2Verify, files: Files, data: bytes, opts: Options)
    returns (res: VerificationResult?, err: Option<ReportError>)
    ensures match CheckReport(verify, files, opts, data)
            case Ok(parsed) => err == None && res != null && res.report == parsed
            case Err(e) => err == Some(e)
    ensures res == null <==> ParseReport(data).Err?
    ensures res != null ==> fresh(res)
    ensures res != null ==> (res.reportVerified <==> CheckPekSignature(verify, ParseReport(data).value) == None)
    ensures res != null ==> (res.chainVerified <==> err == None && opts.verifyChain)
    ensures res != null && res.chainVerified ==> res.certDetails != null && res.certDetails.pekSignedByCek
  {
    var parsed := ParseReport(data);
    if parsed.Err? {
      return null, Some(BadReport(parsed.error));
    }
    res := new VerificationResult(parsed.value);
    hide ParseReport;
    hide CheckPekSignature;
    hide CheckMaterial;
    var pek := VerifyReportPEKSignature(verify, res);
    if pek.Some? {
      return res, Some(BadHeader(pek.value));
    }
    if !opts.verifyChain {
      return res, None;
    }
    err := VerifyMaterial(verify, files, opts, res);
  }
}
