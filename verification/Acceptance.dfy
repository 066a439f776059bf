/**
 Peer verification from the caller's own fields: what each of them means for who is accepted,
 with nothing filled in beforehand.
 */
module Acceptance {
  import opened Bytes
  import opened Hygon
  import opened Report
  import opened Chain
  import opened Verifier
  import Text

  // The configuration --------------------------------------------------------------------------

  /** 64 hexadecimal digits, in either case. */
  predicate HexDigits(s: bytes) {
    |s| == 64 && forall i :: 0 <= i < |s| ==> 48 <= s[i] <= 57 || 65 <= s[i] <= 70 || 97 <= s[i] <= 102
  }

  predicate WellFormed(c: Config) {
    && c.mode != Unknown
    && ((c.hrkPath == []) <==> (c.hskCekPath == []))
    && forall i :: 0 <= i < |c.expected| ==> HexDigits(c.expected[i])
  }

  predicate ConfigError(e: VerifyError) {
    e == InvalidMode || e == PathsApart || e.BadMeasurement?
  }

  lemma HexDigitsAreMeasurement(s: bytes)
    ensures HexDigits(s) <==> Measurement(s)
  {
    if HexDigits(s) {
      forall i | 0 <= i < |s| ensures Text.HexValue(s[i]) >= 0 {
      }
      assert Text.AllHex(s);
    }
    if Measurement(s) {
      assert Text.AllHex(s);
      forall i | 0 <= i < |s| ensures Text.HexValue(s[i]) >= 0 {
      }
    }
  }

  lemma NormalExactly(c: Config)
    ensures Normalized(Some(c)).Ok? <==> WellFormed(c)
    ensures Normalized(Some(c)).Err? ==> ConfigError(Normalized(Some(c)).error)
    ensures WellFormed(c) ==> Normalized(Some(c)).value == Resolved(c)
  {
    forall i | 0 <= i < |c.expected| ensures HexDigits(c.expected[i]) <==> Measurement(c.expected[i]) {
      HexDigitsAreMeasurement(c.expected[i]);
    }
    hide HexDigits;
    hide Measurement;
  }

  /** The anchor that counts: the configured one, or the provider's if and only if that is empty. */
  function AnchorOf(c: Config): bytes {
    if c.trustedHrk != [] then c.trustedHrk else if c.provider.Some? then c.provider.value else []
  }

  /** The same configuration with that anchor in place, and strict unless it says otherwise. */
  function Resolved(c: Config): Config {
    c.(mode := if c.mode == Unset then Strict else c.mode, trustedHrk := AnchorOf(c))
  }

  /** An unset mode is the strict one, and no configuration is the empty strict one. */
  lemma UnsetIsStrict(c: Config, env: Env, pem: bytes)
    ensures Verdict(Some(c.(mode := Unset)), env, pem) == Verdict(Some(c.(mode := Strict)), env, pem)
    ensures Verdict(None, env, pem) == Verdict(Some(Config(Strict, [], false, [], [], [], [], None)), env, pem)
  {
    hide CheckEvidence;
    hide DecodeEvidence;
    hide FindEvidence;
    hide FirstBad;
    assert Normalized(Some(c.(mode := Unset))) == Normalized(Some(c.(mode := Strict)));
    assert Normalized(None) == Normalized(Some(Config(Strict, [], false, [], [], [], [], None)));
  }

  /** The provider's anchor stands in for an empty one, and is not looked at otherwise. */
  lemma ProviderStandsIn(c: Config, env: Env, pem: bytes)
    ensures c.trustedHrk != [] ==> Verdict(Some(c), env, pem) == Verdict(Some(c.(provider := None)), env, pem)
    ensures c.trustedHrk == [] && c.provider.Some? ==>
              Verdict(Some(c), env, pem)
                  == Verdict(Some(c.(trustedHrk := c.provider.value, provider := None)), env, pem)
  {
    hide Normalized;
    hide Verdict;
    if c.trustedHrk != [] || c.provider.Some? {
      var d := c.(trustedHrk := AnchorOf(c), provider := None);
      SpentNormal(c);
      SpentVerdict(c, d, env, pem);
    }
  }

  lemma SpentNormal(c: Config)
    requires c.trustedHrk != [] || c.provider.Some?
    ensures var n, m := Normalized(Some(c)), Normalized(Some(c.(trustedHrk := AnchorOf(c), provider := None)));
            if n.Err? then m == n else m == Ok(n.value.(provider := None))
  {
    hide FirstBad;
  }

  lemma SpentVerdict(c: Config, d: Config, env: Env, pem: bytes)
    requires var n, m := Normalized(Some(c)), Normalized(Some(d));
             if n.Err? then m == n else m == Ok(n.value.(provider := None))
    ensures Verdict(Some(c), env, pem) == Verdict(Some(d), env, pem)
  {
    hide Normalized;
    hide DecodeEvidence;
    hide FindEvidence;
    hide CheckEvidence;
    if Normalized(Some(c)).Ok? {
      ProviderIsSpent(Normalized(Some(c)).value, env);
    }
  }

  /** Once the anchor is settled the provider plays no part. */
  lemma ProviderIsSpent(c: Config, env: Env)
    ensures forall spki, ev :: CheckEvidence(c.(provider := None), env, spki, ev) == CheckEvidence(c, env, spki, ev)
  {
    hide CheckReport;
    hide BoundTo;
    hide LoadLocal;
    hide NormalizeHrk;
    hide Listed;
  }

  /** A configuration that is not well-formed accepts nobody, and says why. */
  lemma IllFormedAcceptsNobody(c: Config, env: Env, pem: bytes)
    ensures Verdict(Some(c), env, pem).Err? && ConfigError(Verdict(Some(c), env, pem).error) <==> !WellFormed(c)
  {
    NormalExactly(c);
    hide WellFormed;
    hide Normalized;
    hide DecodeEvidence;
    hide FindEvidence;
    if WellFormed(c) && env.parse(pem).Some? {
      ErrorsOfEvidence(Resolved(c), env, env.parse(pem).value.spki);
      hide CheckEvidence;
    }
  }

  lemma ErrorsOfEvidence(c: Config, env: Env, spki: bytes)
    ensures forall ev :: CheckEvidence(c, env, spki, ev).Some? ==> !ConfigError(CheckEvidence(c, env, spki, ev).value)
  {
    hide OptionsFor;
    hide CheckReport;
    hide BoundTo;
    hide Policy;
  }

  // The certificate and its evidence -----------------------------------------------------------

  /** The i-th extension is the first with the evidence identifier. */
  predicate FirstEvidence(extensions: seq<Extension>, i: nat) {
    && i < |extensions| && extensions[i].id == EVIDENCE_OID
    && forall j :: 0 <= j < i ==> extensions[j].id != EVIDENCE_OID
  }

  lemma {:induction false} FindsFirst(extensions: seq<Extension>)
    ensures match FindEvidence(extensions)
            case None => forall i :: 0 <= i < |extensions| ==> extensions[i].id != EVIDENCE_OID
            case Some(value) => exists i: nat :: FirstEvidence(extensions, i) && extensions[i].value == value
  {
    if extensions != [] {
      if extensions[0].id == EVIDENCE_OID {
        assert FirstEvidence(extensions, 0);
      } else {
        FindsFirst(extensions[1..]);
        assert forall i :: 1 <= i < |extensions| ==> extensions[i] == extensions[1..][i - 1];
        if FindEvidence(extensions).Some? {
          var i: nat :| FirstEvidence(extensions[1..], i) && extensions[1..][i].value == FindEvidence(extensions).value;
          assert FirstEvidence(extensions, i + 1);
        }
      }
    }
  }

  lemma FirstIsUnique(extensions: seq<Extension>, i: nat, j: nat)
    requires FirstEvidence(extensions, i) && FirstEvidence(extensions, j)
    ensures i == j
  {
  }

  /** A readable certificate, in date. */
  predicate InDate(env: Env, pem: bytes, cert: Certificate) {
    env.parse(pem) == Some(cert) && cert.notBefore <= env.now && env.now <= cert.notAfter
  }

  predicate WellSized(ev: Evidence) {
    && ev.version == 1 && |ev.report| == REPORT_SIZE
    && (|ev.hrkCert| == 0 || |ev.hrkCert| == HRK_CERT_SIZE)
    && (|ev.hskCekCert| == 0 || |ev.hskCekCert| == HSK_CEK_SIZE)
  }

  /** The certificate's first evidence extension decodes to this, of the one version and the right sizes. */
  predicate Shows(env: Env, pem: bytes, cert: Certificate, i: nat, ev: Evidence) {
    && InDate(env, pem, cert) && FirstEvidence(cert.extensions, i)
    && env.decode(cert.extensions[i].value) == Some(ev) && WellSized(ev)
  }

  lemma DecodesExactly(env: Env, value: bytes, ev: Evidence)
    ensures DecodeEvidence(env, value) == Some(ev) <==> env.decode(value) == Some(ev) && WellSized(ev)
  {
  }

  lemma PresentsExactly(env: Env, pem: bytes, cert: Certificate, ev: Evidence)
    ensures Presents(env, pem, cert, ev) <==> exists i: nat :: Shows(env, pem, cert, i, ev)
  {
    FindsFirst(cert.extensions);
    hide FindEvidence;
    hide DecodeEvidence;
    hide WellSized;
    var value := FindEvidence(cert.extensions);
    if value.Some? {
      var i: nat :| FirstEvidence(cert.extensions, i) && cert.extensions[i].value == value.value;
      DecodesExactly(env, value.value, ev);
      forall j: nat | FirstEvidence(cert.extensions, j) ensures j == i {
        FirstIsUnique(cert.extensions, i, j);
      }
      assert Presents(env, pem, cert, ev) ==> Shows(env, pem, cert, i, ev);
    }
  }

  // What the evidence says ----------------------------------------------------------------------

  /** A field of a report, unmasked. */
  function Shown(report: bytes, lo: nat, hi: nat): bytes
    requires lo <= hi <= |report| && REPORT_SIZE <= |report|
  {
    Unmasked(report[lo..hi], Word(report, A_NONCE))
  }

  /** The report speaks for this key. */
  predicate Binds(env: Env, spki: bytes, report: bytes)
    requires REPORT_SIZE <= |report|
  {
    Shown(report, USER_DATA, M_NONCE)[..32] == env.sm3(spki)
  }

  /** Its measurement is on the list, in whatever case. */
  predicate Lists(c: Config, report: bytes)
    requires REPORT_SIZE <= |report|
  {
    exists i :: 0 <= i < |c.expected| && Text.HexDecode(c.expected[i]) == Some(Shown(report, MEASURE, POLICY))
  }

  /** Its chip has a name: printable once trimmed. */
  predicate NamesChip(report: bytes)
    requires REPORT_SIZE <= |report|
  {
    var name := Text.TrimSpace(Text.TrimRightZeros(Shown(report, CHIP_ID, RESERVED2)));
    name != [] && forall i :: 0 <= i < |name| ==> 0x20 <= name[i] <= 0x7e
  }

  /** It is signed by a PEK that chains to the anchor that counts. */
  ghost predicate Genuine(c: Config, env: Env, ev: Evidence)
    requires REPORT_SIZE <= |ev.report|
  {
    var d := Resolved(c);
    var anchor, middle := LocalAnchor(d, env.files), Intermediates(d, env.files, ev.hskCekCert);
    && anchor.Some? && middle.Some?
    && (AnchorOf(c) != [] && ev.hrkCert != [] ==> Some(ev.hrkCert) == anchor)
    && NamesChip(ev.report) && HeaderSigned(env.verify, ev.report)
    && ChainsTo(env.verify, anchor.value, middle.value, PekOf(ev.report))
  }

  lemma ParsesExactly(report: bytes)
    requires |report| == REPORT_SIZE
    ensures ParseReport(report).Ok? <==> NamesChip(report) && exists key :: KeyAt(PekOf(report), CSV_PUB_KEY, key)
    ensures ParseReport(report).Ok? ==>
              && ParseReport(report).value.userData == Shown(report, USER_DATA, M_NONCE)
              && ParseReport(report).value.digest == Shown(report, MEASURE, POLICY)
  {
    assert report[..REPORT_SIZE] == report;
    CsvExactly(PekOf(report));
    ChipExactly(report);
    hide KeyAt;
    hide Unmasked;
    hide ParseCsv;
    hide ChipIdAscii;
    hide NamesChip;
    hide LE;
  }

  lemma ChipExactly(report: bytes)
    requires REPORT_SIZE <= |report|
    ensures NamesChip(report) <==> ChipIdAscii(Shown(report, CHIP_ID, RESERVED2)).Ok?
  {
    hide Text.TrimSpace;
    hide Text.TrimRightZeros;
    hide Unmasked;
  }

  // Verdicts -------------------------------------------------------------------------------------

  /** The checks up to the key binding pass exactly for genuine evidence. */
  lemma GenuineExactly(c: Config, env: Env, ev: Evidence)
    requires WellFormed(c) && |ev.report| == REPORT_SIZE
    ensures var opts := OptionsFor(Resolved(c), ev, env.files);
            && (Genuine(c, env, ev) <==>
                  opts.Ok? && CheckReport(env.verify, env.files, opts.value, ev.report).Ok?)
            && (Genuine(c, env, ev) ==>
                  && ParseReport(ev.report).Ok?
                  && CheckReport(env.verify, env.files, opts.value, ev.report) == Ok(ParseReport(ev.report).value))
  {
    hide ParseReport;
    hide OptionsFor;
    hide LoadChain;
    hide LocalAnchor;
    hide Intermediates;
    hide CheckReport;
    hide ChainsTo;
    hide PekOf;
    hide KeyAt;
    hide SignedAt;
    hide NamesChip;
    hide WellFormed;
    var d := Resolved(c);
    PathsTogether(c);
    MaterialExactly(d, ev, env.files);
    AgreesExactly(c, env.files, ev);
    ParsesExactly(ev.report);
    if OptionsFor(d, ev, env.files).Ok? {
      ReportExactly(env.verify, env.files, OptionsFor(d, ev, env.files).value, ev.report);
    }
    hide PeerRootAgrees;
  }

  lemma PathsTogether(c: Config)
    requires WellFormed(c)
    ensures (Resolved(c).hrkPath == []) == (Resolved(c).hskCekPath == [])
  {
  }

  lemma AgreesExactly(c: Config, files: Files, ev: Evidence)
    ensures PeerRootAgrees(Resolved(c), ev)
            <==> (AnchorOf(c) != [] && ev.hrkCert != [] ==> Some(ev.hrkCert) == LocalAnchor(Resolved(c), files))
  {
    hide LocalPaths;
    hide ReadFixed;
    hide NormalizeHrk;
  }

  /** The verdict on evidence of the right sizes. */
  lemma EvidenceVerdict(c: Config, env: Env, spki: bytes, ev: Evidence)
    requires WellFormed(c) && |ev.report| == REPORT_SIZE
    ensures var bad := CheckEvidence(Resolved(c), env, spki, ev);
            if !Genuine(c, env, ev) then bad.Some? && bad.value.InvalidEvidence?
            else if !Binds(env, spki, ev.report) then bad == Some(KeyMismatch)
            else if c.mode != Permissive && !Lists(c, ev.report) then bad == Some(MeasurementMismatch)
            else bad == None
  {
    hide ParseReport;
    hide OptionsFor;
    hide CheckReport;
    hide Genuine;
    hide Policy;
    hide Unmasked;
    hide Word;
    GenuineExactly(c, env, ev);
    ParsesExactly(ev.report);
    PolicyOf(c, ev.report);
    ModeOf(c);
  }

  lemma ModeOf(c: Config)
    requires WellFormed(c)
    ensures Resolved(c).mode == Strict <==> c.mode != Permissive
  {
    hide HexDigits;
  }

  lemma PolicyOf(c: Config, report: bytes)
    requires WellFormed(c) && REPORT_SIZE <= |report|
    ensures Policy(Resolved(c), Shown(report, MEASURE, POLICY)) <==> c.mode == Permissive || Lists(c, report)
  {
    hide Unmasked;
    hide Text.HexDecode;
    hide HexDigits;
    hide Measurement;
    forall i | 0 <= i < |c.expected| ensures Measurement(c.expected[i]) {
      HexDigitsAreMeasurement(c.expected[i]);
    }
    PolicyExactly(Resolved(c), Shown(report, MEASURE, POLICY));
    hide Policy;
    hide WellFormed;
    ModeOf(c);
  }

  /** Once evidence is shown, the verdict is on it. */
  lemma VerdictShown(c: Config, env: Env, pem: bytes, cert: Certificate, i: nat, ev: Evidence)
    requires WellFormed(c) && Shows(env, pem, cert, i, ev)
    ensures Verdict(Some(c), env, pem) ==
            if c.skipVerify then Ok(Some(ev))
            else match CheckEvidence(Resolved(c), env, cert.spki, ev) case None => Ok(Some(ev)) case Some(e) => Err(e)
  {
    hide WellFormed;
    hide Normalized;
    hide CheckEvidence;
    hide DecodeEvidence;
    hide FindEvidence;
    NormalExactly(c);
    assert InDate(env, pem, cert);
    PresentsExactly(env, pem, cert, ev);
    hide Shows;
  }

  /** The certificate, if it is in date, has no evidence extension. */
  predicate Bare(env: Env, pem: bytes, cert: Certificate) {
    InDate(env, pem, cert) && forall i :: 0 <= i < |cert.extensions| ==> cert.extensions[i].id != EVIDENCE_OID
  }

  /** Otherwise it is about the certificate, or its evidence does not decode. */
  lemma VerdictHidden(c: Config, env: Env, pem: bytes)
    requires WellFormed(c)
    ensures var v := Verdict(Some(c), env, pem);
            match env.parse(pem)
            case None => v == Err(BadCertificate)
            case Some(cert) =>
              if env.now < cert.notBefore then v == Err(NotYetValid)
              else if cert.notAfter < env.now then v == Err(Expired)
              else if Bare(env, pem, cert) then v == if c.skipVerify then Ok(None) else Err(MissingEvidence)
              else v == Err(InvalidEvidence(Undecodable)) || exists i: nat, ev :: Shows(env, pem, cert, i, ev)
  {
    hide WellFormed;
    hide Normalized;
    hide CheckEvidence;
    hide DecodeEvidence;
    hide FindEvidence;
    hide WellSized;
    NormalExactly(c);
    if env.parse(pem).Some? {
      var cert := env.parse(pem).value;
      FindsFirst(cert.extensions);
      var value := FindEvidence(cert.extensions);
      if value.Some? && InDate(env, pem, cert) {
        var i: nat :| FirstEvidence(cert.extensions, i) && cert.extensions[i].value == value.value;
        assert !Bare(env, pem, cert);
        if DecodeEvidence(env, value.value).Some? {
          DecodesExactly(env, value.value, DecodeEvidence(env, value.value).value);
          assert Shows(env, pem, cert, i, DecodeEvidence(env, value.value).value);
        }
      }
    }
  }

  /** The evidence a peer shows is one. */
  lemma ShownIsOne(env: Env, pem: bytes, cert: Certificate, i: nat, ev: Evidence, cert': Certificate, i': nat,
      ev': Evidence)
    requires Shows(env, pem, cert, i, ev) && Shows(env, pem, cert', i', ev')
    ensures cert' == cert && i' == i && ev' == ev
  {
    hide WellSized;
    FirstIsUnique(cert.extensions, i, i');
  }

  /** The policy on genuine evidence for this key: unset means strict. */
  predicate Permits(c: Config, report: bytes)
    requires REPORT_SIZE <= |report|
  {
    c.mode == Permissive || Lists(c, report)
  }

  /**
   Who is accepted, from the caller's fields. Unless verification is switched off: the
   configuration is well-formed, the certificate is readable and in date, its first evidence
   extension decodes to evidence of version 1 and the right sizes, the report is signed by a PEK
   that chains to the caller's anchor, or the provider's if the caller has none, its user data
   start with the digest of the certificate's key, and unless the mode is permissive its
   measurement is on the caller's list. And who is refused for the key or the measurement.
   */
  lemma AcceptedExactly(c: Config, env: Env, pem: bytes, ev: Evidence)
    requires !c.skipVerify
    ensures Verdict(Some(c), env, pem) != Ok(None)
    ensures Verdict(Some(c), env, pem) == Ok(Some(ev)) <==>
            WellFormed(c) && exists cert, i: nat :: Shows(env, pem, cert, i, ev) && Genuine(c, env, ev)
                                                     && Binds(env, cert.spki, ev.report) && Permits(c, ev.report)
  {
    hide WellFormed;
    hide Normalized;
    hide Shows;
    hide Bare;
    hide Genuine;
    hide Binds;
    hide Lists;
    hide Verdict;
    hide CheckEvidence;
    IllFormedAcceptsNobody(c, env, pem);
    if WellFormed(c) {
      VerdictHidden(c, env, pem);
      forall cert, i: nat, e | Shows(env, pem, cert, i, e)
        ensures |e.report| == REPORT_SIZE
        ensures Verdict(Some(c), env, pem) == Ok(Some(ev)) <==>
                e == ev && Genuine(c, env, e) && Binds(env, cert.spki, e.report) && Permits(c, e.report)
        ensures Verdict(Some(c), env, pem) != Ok(None)
      {
        ShownSize(env, pem, cert, i, e);
        VerdictShown(c, env, pem, cert, i, e);
        EvidenceVerdict(c, env, cert.spki, e);
      }
    }
  }

  lemma ShownSize(env: Env, pem: bytes, cert: Certificate, i: nat, ev: Evidence)
    requires Shows(env, pem, cert, i, ev)
    ensures |ev.report| == REPORT_SIZE && env.parse(pem) == Some(cert) && InDate(env, pem, cert)
  {
  }

  /**
   The errors a caller can tell apart, each exactly: no evidence, another key, another
   measurement, and a certificate that is not in date.
   */
  lemma RefusedExactly(c: Config, env: Env, pem: bytes)
    requires WellFormed(c) && !c.skipVerify
    ensures var v := Verdict(Some(c), env, pem);
            && (v == Err(NotYetValid) <==> exists cert :: env.parse(pem) == Some(cert) && env.now < cert.notBefore)
            && (v == Err(Expired) <==>
                  exists cert :: env.parse(pem) == Some(cert) && cert.notBefore <= env.now && cert.notAfter < env.now)
            && (v == Err(MissingEvidence) <==> exists cert :: Bare(env, pem, cert))
            && (v == Err(KeyMismatch) <==>
                  exists cert, i: nat, ev :: Shows(env, pem, cert, i, ev) && Genuine(c, env, ev)
                                             && !Binds(env, cert.spki, ev.report))
            && (v == Err(MeasurementMismatch) <==>
                  exists cert, i: nat, ev :: Shows(env, pem, cert, i, ev) && Genuine(c, env, ev)
                                             && Binds(env, cert.spki, ev.report) && !Permits(c, ev.report))
  {
    hide WellFormed;
    hide Shows;
    hide Genuine;
    hide Binds;
    hide Lists;
    hide Verdict;
    hide CheckEvidence;
    VerdictHidden(c, env, pem);
    forall cert, i: nat, e | Shows(env, pem, cert, i, e)
      ensures |e.report| == REPORT_SIZE && env.parse(pem) == Some(cert) && InDate(env, pem, cert)
      ensures Verdict(Some(c), env, pem) ==
              if !Genuine(c, env, e) then Verdict(Some(c), env, pem)
              else if !Binds(env, cert.spki, e.report) then Err(KeyMismatch)
              else if !Permits(c, e.report) then Err(MeasurementMismatch)
              else Ok(Some(e))
      ensures !Genuine(c, env, e) ==>
              Verdict(Some(c), env, pem).Err? && Verdict(Some(c), env, pem).error.InvalidEvidence?
    {
      ShownSize(env, pem, cert, i, e);
      VerdictShown(c, env, pem, cert, i, e);
      EvidenceVerdict(c, env, cert.spki, e);
    }
    forall cert, i: nat, e, cert', i': nat, e' | Shows(env, pem, cert, i, e) && Shows(env, pem, cert', i', e')
      ensures cert' == cert && e' == e
    {
      ShownIsOne(env, pem, cert, i, e, cert', i', e');
    }
    BareShowsNothing(env, pem);
  }

  lemma BareShowsNothing(env: Env, pem: bytes)
    ensures forall cert, i: nat, ev :: Shows(env, pem, cert, i, ev) ==> !Bare(env, pem, cert)
  {
    hide WellSized;
  }

  /** With verification switched off, evidence of the right form or none at all is all it takes. */
  lemma SkippedExactly(c: Config, env: Env, pem: bytes, ev: Evidence)
    requires c.skipVerify
    ensures Verdict(Some(c), env, pem) == Ok(Some(ev)) <==>
            WellFormed(c) && exists cert, i: nat :: Shows(env, pem, cert, i, ev)
    ensures Verdict(Some(c), env, pem) == Ok(None) <==> WellFormed(c) && exists cert :: Bare(env, pem, cert)
  {
    hide WellFormed;
    hide Shows;
    hide Verdict;
    hide CheckEvidence;
    IllFormedAcceptsNobody(c, env, pem);
    if WellFormed(c) {
      VerdictHidden(c, env, pem);
      forall cert, i: nat, e | Shows(env, pem, cert, i, e)
        ensures Verdict(Some(c), env, pem) == Ok(Some(e)) && env.parse(pem) == Some(cert) && InDate(env, pem, cert)
      {
        ShownSize(env, pem, cert, i, e);
        VerdictShown(c, env, pem, cert, i, e);
      }
      BareShowsNothing(env, pem);
    }
  }
}
