/**
 Peer verification: configuration, chain resolution, key binding and measurement policy.
 Certificate parsing, evidence decoding, SM3 and SM2 verification are parameters.
 */
module Verifier {
  import opened Bytes
  import opened Hygon
  import opened Report
  import opened Chain
  import Text

  datatype Mode = Unset | Strict | Permissive | Unknown

  /** The fields verification looks at; `provider` is the provider's anchor if it offers one. */
  datatype Config = Config(
    mode: Mode,
    expected: seq<bytes>,
    skipVerify: bool,
    hrkPath: bytes,
    hskCekPath: bytes,
    trustedHrk: bytes,
    certDir: bytes,
    provider: Option<bytes>
  )

  const NO_CONFIG := Config(Unset, [], false, [], [], [], [], None)

  const EVIDENCE_OID: seq<nat> := [1, 3, 6, 1, 4, 1, 58270, 1, 1]
  const EVIDENCE_VERSION := 1

  datatype Extension = Extension(id: seq<nat>, value: bytes)

  datatype Certificate = Certificate(notBefore: int, notAfter: int, spki: bytes, extensions: seq<Extension>)

  datatype Evidence = Evidence(version: int, report: bytes, hrkCert: bytes, hskCekCert: bytes)

  datatype Env = Env(
    parse: bytes -> Option<Certificate>,
    decode: bytes -> Option<Evidence>,
    sm3: bytes -> bytes,
    verify: Sm2Verify,
    files: Files,
    now: int
  )

  datatype Cause =
    | Undecodable
    | AnchorTooShort
    | UntrustedHrk
    | NoLocalChain(load: LoadError)
    | Unverified(report: ReportError)

  datatype VerifyError =
    | InvalidMode
    | PathsApart
    | BadMeasurement(index: nat)
    | BadCertificate
    | NotYetValid
    | Expired
    | MissingEvidence
    | InvalidEvidence(cause: Cause)
    | KeyMismatch
    | MeasurementMismatch

  // Configuration ---------------------------------------------------------------------

  predicate Measurement(m: bytes) {
    |m| == 2 * HASH_SIZE && Text.HexDecode(m).Some?
  }

  function FirstBad(ms: seq<bytes>): (i: nat)
    ensures i <= |ms|
    ensures i < |ms| ==> !Measurement(ms[i])
    ensures forall k :: 0 <= k < i ==> Measurement(ms[k])
  {
    if ms == [] || !Measurement(ms[0]) then 0 else 1 + FirstBad(ms[1..])
  }

  method ValidateExpectedMeasurements(ms: seq<bytes>) returns (bad: Option<nat>)
    ensures bad == if FirstBad(ms) < |ms| then Some(FirstBad(ms)) else None
  {
    for i := 0 to |ms|
      invariant forall k :: 0 <= k < i ==> Measurement(ms[k])
    {
      if |ms[i]| != 2 * HASH_SIZE || Text.HexDecode(ms[i]).None? {
        return Some(i);
      }
    }
    bad := None;
  }

  /** normalizedVerifyConfig: defaults filled in, or the first thing wrong with it. */
  function Normalized(cfg: Option<Config>): Result<Config, VerifyError> {
    var c := if cfg.None? then NO_CONFIG else cfg.value;
    if c.mode == Unknown then Err(InvalidMode)
    else if (c.hrkPath == []) != (c.hskCekPath == []) then Err(PathsApart)
    else if FirstBad(c.expected) < |c.expected| then Err(BadMeasurement(FirstBad(c.expected)))
    else Ok(c.(mode := if c.mode == Unset then Strict else c.mode,
               trustedHrk := if c.trustedHrk == [] && c.provider.Some? then c.provider.value else c.trustedHrk))
  }

  method NormalizeVerifyConfig(cfg: Option<Config>) returns (r: Result<Config, VerifyError>)
    ensures r == Normalized(cfg)
  {
    var copy := if cfg.None? then NO_CONFIG else cfg.value;
    if copy.mode == Unset {
      copy := copy.(mode := Strict);
    }
    if copy.mode != Strict && copy.mode != Permissive {
      return Err(InvalidMode);
    }
    if (copy.hrkPath == []) != (copy.hskCekPath == []) {
      return Err(PathsApart);
    }
    var bad := ValidateExpectedMeasurements(copy.expected);
    if bad.Some? {
      return Err(BadMeasurement(bad.value));
    }
    if copy.trustedHrk == [] {
      if copy.provider.Some? {
        copy := copy.(trustedHrk := copy.provider.value);
      }
    }
    r := Ok(copy);
  }

  // Verification -----------------------------------------------------------------------

  function FindEvidence(extensions: seq<Extension>): Option<bytes> {
    if extensions == [] then None
    else if extensions[0].id == EVIDENCE_OID then Some(extensions[0].value)
    else FindEvidence(extensions[1..])
  }

  /** DecodeCSVEvidence: what the decoder yields, if its version and sizes are right. */
  function DecodeEvidence(env: Env, value: bytes): (r: Option<Evidence>)
    ensures r.Some? ==> |r.value.report| == REPORT_SIZE
    ensures r.Some? && r.value.hskCekCert != [] ==> |r.value.hskCekCert| == HSK_CEK_SIZE
  {
    match env.decode(value)
    case None => None
    case Some(ev) =>
      if ev.version != EVIDENCE_VERSION || |ev.report| != REPORT_SIZE then None
      else if ev.hrkCert != [] && |ev.hrkCert| != HRK_CERT_SIZE then None
      else if ev.hskCekCert != [] && |ev.hskCekCert| != HSK_CEK_SIZE then None
      else Some(ev)
  }

  /** normalizeHRKCert. */
  function NormalizeHrk(cert: bytes): Option<bytes> {
    if |cert| < HRK_CERT_SIZE then None else Some(cert[..HRK_CERT_SIZE])
  }

  predicate HasPaths(c: Config) {
    c.hrkPath != [] && c.hskCekPath != []
  }

  function OptionsFor(c: Config, ev: Evidence, files: Files): Result<Options, Cause> {
    if c.trustedHrk != [] && NormalizeHrk(c.trustedHrk).None? then Err(AnchorTooShort)
    else
      var anchor := if c.trustedHrk != [] then NormalizeHrk(c.trustedHrk).value else [];
      if anchor != [] && ev.hrkCert != [] && ev.hrkCert != anchor then Err(UntrustedHrk)
      else
        var opts := NO_OPTIONS.(certDir := c.certDir, trustedHrk := anchor);
        if HasPaths(c) then Ok(opts.(trustedHrkPath := c.hrkPath, hskCekPath := c.hskCekPath))
        else if c.certDir != [] then
          match LoadLocal(files, c.certDir)
          case Err(e) => Err(NoLocalChain(e))
          case Ok(m) => Ok(opts.(hskCek := m.hskCek, trustedHrk := if anchor == [] then m.hrk else anchor))
        else if ev.hskCekCert != [] then Ok(opts.(hskCek := ev.hskCekCert))
        else Ok(opts)
  }

  predicate Listed(expected: seq<bytes>, digest: bytes) {
    exists i :: 0 <= i < |expected| && Text.EqualFold(expected[i], Text.HexEncode(digest))
  }

  predicate Policy(c: Config, digest: bytes) {
    c.mode == Strict ==> Listed(c.expected, digest)
  }

  /** The checks on decoded evidence, in order. */
  function CheckEvidence(c: Config, env: Env, spki: bytes, ev: Evidence): Option<VerifyError> {
    match OptionsFor(c, ev, env.files)
    case Err(cause) => Some(InvalidEvidence(cause))
    case Ok(opts) =>
      match CheckReport(env.verify, env.files, opts, ev.report)
      case Err(e) => Some(InvalidEvidence(Unverified(e)))
      case Ok(res) =>
        if !BoundTo(res, env.sm3(spki)) then Some(KeyMismatch)
        else if !Policy(c, res.digest) then Some(MeasurementMismatch)
        else None
  }

  function Verdict(cfg: Option<Config>, env: Env, pem: bytes): Result<Option<Evidence>, VerifyError> {
    if Normalized(cfg).Err? then Err(Normalized(cfg).error)
    else if env.parse(pem).None? then Err(BadCertificate)
    else
      var c, cert := Normalized(cfg).value, env.parse(pem).value;
      if env.now < cert.notBefore then Err(NotYetValid)
      else if env.now > cert.notAfter then Err(Expired)
      else
        var value := FindEvidence(cert.extensions);
        if value.None? then (if c.skipVerify then Ok(None) else Err(MissingEvidence))
        else
          var ev := DecodeEvidence(env, value.value);
          if ev.None? then Err(InvalidEvidence(Undecodable))
          else if c.skipVerify then Ok(ev)
          else
            var bad := CheckEvidence(c, env, cert.spki, ev.value);
            if bad.Some? then Err(bad.value) else Ok(ev)
  }

  method BuildOptions(c: Config, ev: Evidence, files: Files) returns (r: Result<Options, Cause>)
    ensures r == OptionsFor(c, ev, files)
  {
    var opts := NO_OPTIONS.(certDir := c.certDir);
    hide ReadFixed;
    if |c.trustedHrk| > 0 {
      var trusted := NormalizeHrk(c.trustedHrk);
      if trusted.None? {
        return Err(AnchorTooShort);
      }
      opts := opts.(trustedHrk := trusted.value);
      if |ev.hrkCert| > 0 && ev.hrkCert != trusted.value {
        return Err(UntrustedHrk);
      }
    }
    if c.hrkPath != [] && c.hskCekPath != [] {
      opts := opts.(trustedHrkPath := c.hrkPath, hskCekPath := c.hskCekPath);
    } else if c.certDir != [] {
      var material := LoadLocal(files, c.certDir);
      if material.Err? {
        return Err(NoLocalChain(material.error));
      }
      opts := opts.(hskCek := material.value.hskCek);
      if opts.trustedHrk == [] {
        opts := opts.(trustedHrk := material.value.hrk);
      }
    } else if |ev.hskCekCert| > 0 {
      opts := opts.(hskCek := ev.hskCekCert);
    }
    r := Ok(opts);
  }

  method MeasurementAllowed(c: Config, digest: bytes) returns (ok: bool)
    ensures ok == Policy(c, digest)
  {
    if c.mode == Strict && |c.expected| == 0 {
      return false;
    }
    if |c.expected| > 0 {
      var hexMeas := Text.HexEncode(digest);
      var matched := false;
      for i := 0 to |c.expected|
        invariant !matched
        invariant forall k :: 0 <= k < i ==> !Text.EqualFold(c.expected[k], hexMeas)
      {
        if Text.EqualFold(c.expected[i], hexMeas) {
          matched := true;
          break;
        }
      }
      if !matched && c.mode == Strict {
        return false;
      }
    }
    ok := true;
  }

  method FindExtension(extensions: seq<Extension>) returns (value: Option<bytes>)
    ensures value == FindEvidence(extensions)
  {
    value := None;
    for i := 0 to |extensions|
      invariant value == None
      invariant FindEvidence(extensions[i..]) == FindEvidence(extensions)
    {
      assert extensions[i..][1..] == extensions[i + 1..];
      if extensions[i].id == EVIDENCE_OID {
        value := Some(extensions[i].value);
        break;
      }
    }
  }

  /** The second half of VerifyPeerCertificateAndEvidence, from decoded evidence on. */
  method CheckPeerEvidence(c: Config, env: Env, spki: bytes, ev: Evidence) returns (bad: Option<VerifyError>)
    ensures bad == CheckEvidence(c, env, spki, ev)
  {
    var opts := BuildOptions(c, ev, env.files);
    hide OptionsFor;
    hide CheckReport;
    hide BoundTo;
    hide Policy;
    if opts.Err? {
      return Some(InvalidEvidence(opts.error));
    }
    var res, err := VerifyReportWithOptions(env.verify, env.files, ev.report, opts.value);
    if err.Some? {
      return Some(InvalidEvidence(Unverified(err.value)));
    }
    if !BoundTo(res.report, env.sm3(spki)) {
      return Some(KeyMismatch);
    }
    var allowed := MeasurementAllowed(c, res.report.digest);
    bad := if allowed then None else Some(MeasurementMismatch);
  }

  method VerifyPeerCertificateAndEvidence(cfg: Option<Config>, env: Env, pem: bytes)
    returns (r: Result<Option<Evidence>, VerifyError>)
    ensures r == Verdict(cfg, env, pem)
  {
    var config := NormalizeVerifyConfig(cfg);
    if config.Err? {
      return Err(config.error);
    }
    var c := config.value;
    hide Normalized;
    hide DecodeEvidence;
    hide FindEvidence;
    hide CheckEvidence;
    var parsed := env.parse(pem);
    if parsed.None? {
      return Err(BadCertificate);
    }
    var cert := parsed.value;
    if env.now < cert.notBefore {
      return Err(NotYetValid);
    }
    if env.now > cert.notAfter {
      return Err(Expired);
    }
    var value := FindExtension(cert.extensions);
    if value.None? {
      if c.skipVerify {
        return Ok(None);
      }
      return Err(MissingEvidence);
    }
    var evidence := DecodeEvidence(env, value.value);
    if evidence.None? {
      return Err(InvalidEvidence(Undecodable));
    }
    if c.skipVerify {
      return Ok(evidence);
    }
    var bad := CheckPeerEvidence(c, env, cert.spki, evidence.value);
    r := if bad.Some? then Err(bad.value) else Ok(evidence);
  }

  // Where chain material comes from -------------------------------------------------------

  predicate Blank(path: bytes) {
    Text.TrimSpace(path) == []
  }

  /** Paths or a certificate directory are configured: the chain is local. */
  predicate LocalChain(c: Config) {
    HasPaths(c) || c.certDir != []
  }

  /** The two local files a configuration names; blank paths fall back on the directory. */
  function LocalPaths(c: Config, files: Files): Option<(bytes, bytes)> {
    if HasPaths(c) && !(Blank(c.hrkPath) && Blank(c.hskCekPath)) then
      if Blank(c.hrkPath) || Blank(c.hskCekPath) then None
      else Some((Text.TrimSpace(c.hrkPath), Text.TrimSpace(c.hskCekPath)))
    else if (if HasPaths(c) then !Blank(c.certDir) else c.certDir != []) then
      Some((files.join(c.certDir, "hrk.cert"), files.join(c.certDir, "hsk_cek.cert")))
    else None
  }

  /** The root of trust. The peer's evidence is not an argument. */
  function LocalAnchor(c: Config, files: Files): (r: Option<bytes>)
    ensures r.Some? ==> |r.value| == HRK_CERT_SIZE
  {
    if c.trustedHrk != [] then NormalizeHrk(c.trustedHrk)
    else if LocalPaths(c, files).None? then None
    else ReadFixed(files, LocalPaths(c, files).value.0, HRK_CERT_SIZE)
  }

  /** The intermediates: the peer's only when no local chain is configured. */
  function Intermediates(c: Config, files: Files, peer: bytes): Option<bytes> {
    if LocalChain(c) then
      if HasPaths(c) && c.trustedHrk != [] then None
      else
        var paths := LocalPaths(c, files);
        if paths.None? || ReadFixed(files, paths.value.0, HRK_CERT_SIZE).None? then None
        else ReadFixed(files, paths.value.1, HSK_CEK_SIZE)
    else if c.trustedHrk != [] && peer != [] then Some(peer)
    else None
  }

  /** A peer root matters only against an in-memory anchor, which it must then equal. */
  predicate PeerRootAgrees(c: Config, ev: Evidence) {
    c.trustedHrk != [] && ev.hrkCert != [] ==> Some(ev.hrkCert) == NormalizeHrk(c.trustedHrk)
  }

  /** OptionsFor and LoadChain between them: the material the chain is checked on. */
  function MaterialFor(c: Config, ev: Evidence, files: Files): Option<Material> {
    match OptionsFor(c, ev, files)
    case Err(_) => None
    case Ok(opts) => OkOf(LoadChain(opts, files))
  }

  /** It exists and is what it is because of these two functions. */
  ghost predicate MaterialIsLocal(c: Config, ev: Evidence, files: Files) {
    var m, anchor, middle := MaterialFor(c, ev, files), LocalAnchor(c, files), Intermediates(c, files, ev.hskCekCert);
    && (m.Some? <==> PeerRootAgrees(c, ev) && anchor.Some? && middle.Some?)
    && (m.Some? ==> Some(m.value.hrk) == anchor && Some(m.value.hskCek) == middle)
  }

  function LoadNamed(c: Config, files: Files): Option<Material> {
    match LocalPaths(c, files)
    case None => None
    case Some(paths) => OkOf(LoadFromFiles(files, paths.0, paths.1))
  }

  lemma PathsAreLoaded(c: Config, ev: Evidence, files: Files)
    requires HasPaths(c) && c.trustedHrk == []
    ensures MaterialFor(c, ev, files) == LoadNamed(c, files)
  {
    hide Text.TrimSpace;
    Text.TrimOfEmpty();
    var opts := NO_OPTIONS.(certDir := c.certDir, trustedHrkPath := c.hrkPath, hskCekPath := c.hskCekPath);
    assert OptionsFor(c, ev, files) == Ok(opts);
    assert MaterialFor(c, ev, files) == OkOf(LoadChain(opts, files));
    assert LoadLocal(files, c.certDir)
           == LoadFromFiles(files, files.join(c.certDir, "hrk.cert"), files.join(c.certDir, "hsk_cek.cert"));
    hide OptionsFor;
    hide MaterialFor;
    hide LoadLocal;
    hide LoadFromFiles;
    if Blank(c.hrkPath) && Blank(c.hskCekPath) {
      assert LoadNamed(c, files) == if Blank(c.certDir) then None else OkOf(LoadLocal(files, c.certDir));
    } else if Blank(c.hrkPath) || Blank(c.hskCekPath) {
      assert LoadNamed(c, files) == None;
    } else {
      assert LoadNamed(c, files) == OkOf(LoadFromFiles(files, Text.TrimSpace(c.hrkPath), Text.TrimSpace(c.hskCekPath)));
    }
    hide LoadNamed;
  }

  lemma MaterialFromPaths(c: Config, ev: Evidence, files: Files)
    requires HasPaths(c)
    ensures MaterialIsLocal(c, ev, files)
  {
    if c.trustedHrk == [] {
      PathsAreLoaded(c, ev, files);
      hide MaterialFor;
      hide LocalPaths;
    }
    hide ReadFixed;
    hide Text.TrimSpace;
  }

  lemma MaterialFromDirectory(c: Config, ev: Evidence, files: Files)
    requires c.hrkPath == [] && c.hskCekPath == [] && c.certDir != []
    ensures MaterialIsLocal(c, ev, files)
  {
    hide Text.TrimSpace;
    Text.TrimOfEmpty();
    hide ReadFixed;
  }

  lemma MaterialFromPeer(c: Config, ev: Evidence, files: Files)
    requires c.hrkPath == [] && c.hskCekPath == [] && c.certDir == []
    ensures MaterialIsLocal(c, ev, files)
  {
    hide Text.TrimSpace;
    Text.TrimOfEmpty();
  }

  lemma MaterialExactly(c: Config, ev: Evidence, files: Files)
    requires (c.hrkPath == []) == (c.hskCekPath == [])
    ensures MaterialIsLocal(c, ev, files)
    ensures OptionsFor(c, ev, files).Ok? ==> OptionsFor(c, ev, files).value.verifyChain
  {
    if HasPaths(c) {
      MaterialFromPaths(c, ev, files);
    } else if c.certDir != [] {
      MaterialFromDirectory(c, ev, files);
    } else {
      MaterialFromPeer(c, ev, files);
    }
    hide MaterialIsLocal;
  }

  // What acceptance means -------------------------------------------------------------------

  /** In strict mode, some entry of the list decodes to this measurement. */
  predicate Allows(c: Config, digest: bytes) {
    c.mode == Strict ==> exists i :: 0 <= i < |c.expected| && Text.HexDecode(c.expected[i]) == Some(digest)
  }

  /** The evidence, signed and chained up to the local anchor, speaks for this key and is allowed. */
  ghost predicate Trusted(c: Config, env: Env, spki: bytes, ev: Evidence) {
    var anchor, middle := LocalAnchor(c, env.files), Intermediates(c, env.files, ev.hskCekCert);
    && PeerRootAgrees(c, ev) && anchor.Some? && middle.Some?
    && ParseReport(ev.report).Ok? && |ev.report| >= REPORT_SIZE
    && HeaderSigned(env.verify, ev.report)
    && ChainsTo(env.verify, anchor.value, middle.value, PekOf(ev.report))
    && BoundTo(ParseReport(ev.report).value, env.sm3(spki))
    && Allows(c, ParseReport(ev.report).value.digest)
  }

  /** The policy compares hexadecimal text caselessly; that is comparing what it decodes to. */
  lemma PolicyExactly(c: Config, digest: bytes)
    requires forall i :: 0 <= i < |c.expected| ==> Measurement(c.expected[i])
    ensures Policy(c, digest) <==> Allows(c, digest)
  {
    forall i | 0 <= i < |c.expected|
      ensures Text.EqualFold(c.expected[i], Text.HexEncode(digest)) <==> Text.HexDecode(c.expected[i]) == Some(digest)
    {
      Text.EqualFoldIsDecoding(c.expected[i], digest);
    }
    hide Text.EqualFold;
    hide Text.HexDecode;
    hide Text.HexEncode;
  }

  lemma EvidenceExactly(c: Config, env: Env, spki: bytes, ev: Evidence)
    requires (c.hrkPath == []) == (c.hskCekPath == [])
    requires forall i :: 0 <= i < |c.expected| ==> Measurement(c.expected[i])
    ensures CheckEvidence(c, env, spki, ev) == None <==> Trusted(c, env, spki, ev)
  {
    MaterialExactly(c, ev, env.files);
    if OptionsFor(c, ev, env.files).Ok? {
      ReportExactly(env.verify, env.files, OptionsFor(c, ev, env.files).value, ev.report);
    }
    if ParseReport(ev.report).Ok? {
      PolicyExactly(c, ParseReport(ev.report).value.digest);
    }
    hide ParseReport;
    hide OptionsFor;
    hide LoadChain;
    hide LocalAnchor;
    hide Intermediates;
    hide PeerRootAgrees;
    hide CheckReport;
    hide ChainsTo;
    hide HeaderSigned;
    hide PekOf;
    hide BoundTo;
    hide Policy;
    hide Allows;
    hide Measurement;
  }

  /** The certificate is readable, in date, and carries well-formed evidence. */
  predicate Presents(env: Env, pem: bytes, cert: Certificate, ev: Evidence) {
    && env.parse(pem) == Some(cert)
    && cert.notBefore <= env.now <= cert.notAfter
    && FindEvidence(cert.extensions).Some?
    && DecodeEvidence(env, FindEvidence(cert.extensions).value) == Some(ev)
  }

  /**
   Acceptance, exactly. Unless verification is switched off, a peer is accepted if and only if
   it presents evidence that is Trusted: a complete chain HRK, HSK, CEK, PEK, report over the
   exact signed ranges from an anchor taken from local configuration and files alone, USER_DATA
   bound to the certificate's public key, and in strict mode a measurement on the list.
   */
  lemma AcceptanceExactly(cfg: Option<Config>, env: Env, pem: bytes, ev: Evidence)
    requires Normalized(cfg).Ok? && !Normalized(cfg).value.skipVerify
    ensures Verdict(cfg, env, pem) == Ok(Some(ev)) <==>
            exists cert :: Presents(env, pem, cert, ev) && Trusted(Normalized(cfg).value, env, cert.spki, ev)
    ensures Verdict(cfg, env, pem) != Ok(None)
  {
    var c := Normalized(cfg).value;
    if env.parse(pem).Some? {
      var cert := env.parse(pem).value;
      var value := FindEvidence(cert.extensions);
      if value.Some? && DecodeEvidence(env, value.value) == Some(ev) {
        EvidenceExactly(c, env, cert.spki, ev);
        assert cert.notBefore <= env.now <= cert.notAfter <==> Presents(env, pem, cert, ev);
      }
    }
    hide Trusted;
    hide CheckEvidence;
    hide DecodeEvidence;
    hide FindEvidence;
    hide Normalized;
  }

  /** What a peer sends besides its report can only be held against it. */
  lemma PeerMaterialNeverHelps(c: Config, env: Env, spki: bytes, ev: Evidence, other: bytes)
    requires Trusted(c, env, spki, ev)
    ensures Trusted(c, env, spki, ev.(hrkCert := []))
    ensures LocalChain(c) ==> Trusted(c, env, spki, ev.(hskCekCert := other))
    ensures !LocalChain(c) ==> c.trustedHrk != [] && ev.hskCekCert != []
  {
    hide HeaderSigned;
    hide ChainsTo;
    hide PekOf;
    hide BoundTo;
    hide ParseReport;
    hide ReadFixed;
    hide Allows;
  }

  /**
   The rule that a peer's root must equal the trusted one, exactly: an accepted peer stays
   accepted with another root in its evidence if and only if no anchor is held in memory, or it
   sends none, or it sends that anchor.
   */
  lemma PeerRootExactly(c: Config, env: Env, spki: bytes, ev: Evidence, other: bytes)
    requires Trusted(c, env, spki, ev)
    ensures Trusted(c, env, spki, ev.(hrkCert := other)) <==>
            c.trustedHrk == [] || other == [] || Some(other) == NormalizeHrk(c.trustedHrk)
  {
    hide HeaderSigned;
    hide ChainsTo;
    hide PekOf;
    hide BoundTo;
    hide ParseReport;
    hide ReadFixed;
    hide Allows;
  }

  /**
   The documented order, explicit paths first, is followed exactly when no anchor is held in
   memory; with one, from the configuration or the provider, the chain is always missing.
   */
  lemma PathsNeedNoAnchor(c: Config, ev: Evidence, files: Files)
    requires HasPaths(c) && !Blank(c.hrkPath) && !Blank(c.hskCekPath)
    requires OptionsFor(c, ev, files).Ok?
    ensures LoadChain(OptionsFor(c, ev, files).value, files)
              == LoadFromFiles(files, Text.TrimSpace(c.hrkPath), Text.TrimSpace(c.hskCekPath))
        <==> c.trustedHrk == []
    ensures c.trustedHrk != [] ==> LoadChain(OptionsFor(c, ev, files).value, files) == Err(MissingCertChain)
  {
    hide Text.TrimSpace;
  }

  /** So such a configuration accepts nobody. */
  lemma AnchorAndPathsRejectAll(cfg: Option<Config>, env: Env, pem: bytes)
    requires Normalized(cfg).Ok? && !Normalized(cfg).value.skipVerify
    requires Normalized(cfg).value.trustedHrk != [] && HasPaths(Normalized(cfg).value)
    ensures Verdict(cfg, env, pem).Err?
  {
    forall ev ensures Verdict(cfg, env, pem) != Ok(Some(ev)) && Verdict(cfg, env, pem) != Ok(None) {
      AcceptanceExactly(cfg, env, pem, ev);
      hide Verdict;
      hide Normalized;
      hide PeerRootAgrees;
    }
    hide Verdict;
  }

  /**
   The A nonce is no loophole: verifiers, however configured, that accept one key on reports
   with the same signed header accept the same measurement.
   */
  lemma SameHeaderSameMeasurement(c: Config, d: Config, env: Env, spki: bytes, ev: Evidence, other: Evidence)
    requires Trusted(c, env, spki, ev) && Trusted(d, env, spki, other)
    requires ev.report[..SIGNED_SIZE] == other.report[..SIGNED_SIZE]
    ensures ParseReport(ev.report).value.digest == ParseReport(other.report).value.digest
    ensures ParseReport(ev.report).value.aNonce == ParseReport(other.report).value.aNonce
  {
    ANoncePinned(ev.report, other.report, env.sm3(spki));
  }
}
