/** The XML signature verifier: every ds:Signature of the document is
    checked (signature value, references, and the signer certificate's
    revocation status at the signing instant, reported in full or, with the
    -simple flag, in short); the document is valid when every signature is. */
module XmlVerifySignatures {
  import opened Wrappers
  import opened JavaStrings
  import opened Extensions
  import opened Responders
  import opened SigningTime
  import opened XmlRevocation
  import opened XmlCertificateUtils
  import opened KeyInfo

  /** What a verification consults outside the document: whether the
      connectivity probe succeeds, the trust store (None when it cannot be
      opened), the OCSP responders and CRL servers by URL, the date parser
      and the current instant. */
  datatype Environment = Environment(
    online: bool,
    trustStore: Option<seq<StoreEntry>>,
    ocsp: string -> OcspAnswer,
    crl: string -> CrlAnswer,
    parse: DateParser,
    now: int)

  /** One ds:Signature: whether it unmarshals, its SignatureMethod
      algorithm, its KeyInfo (None when absent), the cryptographic outcome
      of the signature value and of each reference, the DigestMethod
      algorithm of each reference (None when unavailable) and the URI of
      each reference. */
  datatype SignatureNode = SignatureNode(
    unmarshals: bool,
    signatureAlgorithm: string,
    keyInfo: Option<seq<KeyInfoItem>>,
    signatureValueValid: bool,
    referenceValid: seq<bool>,
    digestMethods: seq<Option<string>>,
    referenceUris: seq<string>)

  /** A parsed document: the texts of its elements and its signatures in
      document order. */
  datatype Document = Document(texts: ElementTexts, signatures: seq<SignatureNode>)

  /** The -simple flag: a short report, the certificate checked in place. */
  datatype OutputMode = Full | Simple

  /** The message standing for the exception of an unmarshalling failure. */
  const UNMARSHAL_FAILURE := "signature could not be unmarshalled"

  const SHA1_URI := "http://www.w3.org/2000/09/xmldsig#sha1"
  const SHA256_URI := "http://www.w3.org/2001/04/xmlenc#sha256"

  // -------------------------------------------------------- digest name

  /** getDigestAlgorithm: the short name of the first reference's digest. */
  function DigestAlgorithmName(digestMethods: seq<Option<string>>): (r: string)
    ensures digestMethods == [] ==> r == "No especificado"
    ensures digestMethods != [] && digestMethods[0].None? ==> r == "Desconocido"
    ensures digestMethods != [] && digestMethods[0] == Some(SHA1_URI) ==> r == "SHA1"
    ensures digestMethods != [] && digestMethods[0] == Some(SHA256_URI) ==> r == "SHA256"
    ensures digestMethods != [] && digestMethods[0].Some? && digestMethods[0].value !in {SHA1_URI, SHA256_URI} ==>
              EndsWith(digestMethods[0].value, r) && '#' !in r &&
              ('#' !in digestMethods[0].value ==> r == digestMethods[0].value)
  {
    if digestMethods == [] then "No especificado"
    else match digestMethods[0]
      case None => "Desconocido"
      case Some(uri) =>
        if uri == SHA1_URI then "SHA1"
        else if uri == SHA256_URI then "SHA256"
        else AfterLast(uri, '#')
  }

  // -------------------------------------------------------- key selection

  /** The key selector of the verifier: KeyInfo must be present and one of
      its X509Data must carry a certificate with a valid key. */
  function KeySelection(keyInfo: Option<seq<KeyInfoItem>>, alg: string): Result<PublicKey>
  {
    if keyInfo.None? then Err("No se encontr\U{00F3} KeyInfo")
    else match FirstValidCertKey(keyInfo.value, alg)
      case Some(k) => Ok(k)
      case None => Err("No se encontr\U{00F3} una clave v\U{00E1}lida")
  }

  /** X509KeySelector.select of the verifier. */
  method SelectKey(keyInfo: Option<seq<KeyInfoItem>>, alg: string) returns (r: Result<PublicKey>)
    ensures r == KeySelection(keyInfo, alg)
    ensures r.Ok? ==> IsKeyValid(alg, r.value) && CertKeyAmong(keyInfo.value, r.value)
    ensures r.Err? && keyInfo.Some? ==>
              forall d, c :: d in keyInfo.value && d.X509Data? && X509Cert(c) in d.contents ==>
                !IsKeyValid(alg, c.publicKey)
  {
    if keyInfo.None? {
      return Err("No se encontr\U{00F3} KeyInfo");
    }
    FirstValidCertKeyExact(keyInfo.value, alg);
    var k := ScanX509Data(keyInfo.value, alg);
    if k.Some? {
      return Ok(k.value);
    }
    return Err("No se encontr\U{00F3} una clave v\U{00E1}lida");
  }

  /** An unsupported signature algorithm leaves the selector without a key,
      whatever the certificates. */
  lemma UnsupportedAlgorithmHasNoKey(keyInfo: Option<seq<KeyInfoItem>>, alg: string)
    requires !IsSupportedAlgorithm(Some(alg))
    ensures KeySelection(keyInfo, alg).Err?
  {
  }

  // ------------------------------------------------------- references

  /** validateReferences: every reference validates. */
  method ValidateReferences(referenceValid: seq<bool>) returns (valid: bool)
    ensures valid <==> forall i :: 0 <= i < |referenceValid| ==> referenceValid[i]
  {
    valid := true;
    var i := 0;
    while i < |referenceValid|
      invariant 0 <= i <= |referenceValid|
      invariant valid <==> forall j :: 0 <= j < i ==> referenceValid[j]
    {
      if !referenceValid[i] {
        valid := false;
      }
      i := i + 1;
    }
  }

  // ------------------------------------------------------- revocation

  /** The first OCSP URL whose check is conclusive (not UNKNOWN), and its result. */
  function FirstConclusiveOcsp(urls: seq<string>, issuerFound: bool, st: SigningTimeResult, ocsp: string -> OcspAnswer)
    : (r: Option<RevocationResult>)
    ensures r.None? <==> forall i :: 0 <= i < |urls| ==> CheckOcspStatus(urls[i], issuerFound, st, ocsp).status == Unknown
    ensures r.Some? ==> r.value.status != Unknown && r.value.methodName == "OCSP" && Consistent(r.value)
    ensures r.Some? ==> exists i :: 0 <= i < |urls| && r.value == CheckOcspStatus(urls[i], issuerFound, st, ocsp)
    decreases |urls|
  {
    if urls == [] then None
    else
      var here := CheckOcspStatus(urls[0], issuerFound, st, ocsp);
      if here.status != Unknown then Some(here)
      else
        var rest := FirstConclusiveOcsp(urls[1..], issuerFound, st, ocsp);
        assert forall i :: 1 <= i < |urls| ==> urls[i] == urls[1..][i - 1];
        rest
  }

  /** The first CRL URL whose check is conclusive, and its result. */
  function FirstConclusiveCrl(urls: seq<string>, st: SigningTimeResult, crl: string -> CrlAnswer)
    : (r: Option<RevocationResult>)
    ensures r.None? <==> forall i :: 0 <= i < |urls| ==> CheckCrlStatus(urls[i], st, crl).status == Unknown
    ensures r.Some? ==> r.value.status != Unknown && r.value.methodName == "CRL" && Consistent(r.value)
    ensures r.Some? ==> exists i :: 0 <= i < |urls| && r.value == CheckCrlStatus(urls[i], st, crl)
    decreases |urls|
  {
    if urls == [] then None
    else
      var here := CheckCrlStatus(urls[0], st, crl);
      if here.status != Unknown then Some(here)
      else
        var rest := FirstConclusiveCrl(urls[1..], st, crl);
        assert forall i :: 1 <= i < |urls| ==> urls[i] == urls[1..][i - 1];
        rest
  }

  /** validateRevocationStatus(cert, ...): the result that decides, if any.
      Offline, unreadable extensions, or no URL at all decide nothing; OCSP
      is tried first, then the CRLs. */
  function RevocationDecision(cert: Certificate, st: SigningTimeResult, env: Environment): Option<RevocationResult>
  {
    if !env.online then None
    else
      var ocspUrls := OcspUrls(cert.aia);
      var crlUrls := CrlUrls(cert.cdp);
      if ocspUrls.Err? || crlUrls.Err? then None
      else if ocspUrls.value == [] && crlUrls.value == [] then None
      else
        var issuerFound := IssuerReachable(cert.issuerDN, env.trustStore);
        var byOcsp := FirstConclusiveOcsp(ocspUrls.value, issuerFound, st, env.ocsp);
        if byOcsp.Some? then byOcsp else FirstConclusiveCrl(crlUrls.value, st, env.crl)
  }

  /** The certificate counts as revoked for this signature. */
  predicate RevokedFor(cert: Certificate, st: SigningTimeResult, env: Environment)
  {
    var d := RevocationDecision(cert, st, env);
    d.Some? && d.value.status == Revoked
  }

  /** validateRevocationStatus(cert, signatureElement): returns whether the
      certificate is revoked, and the result it printed (if any). */
  method ValidateRevocationStatus(cert: Certificate, referenceUris: seq<string>, texts: ElementTexts, env: Environment)
    returns (revoked: bool, decisive: Option<RevocationResult>)
    ensures decisive == RevocationDecision(cert, ExtractSigningTime(referenceUris, texts, env.parse, env.now), env)
    ensures revoked <==> decisive.Some? && decisive.value.status == Revoked
  {
    if !env.online {
      return false, None;
    }
    var ocspUrls := GetOcspUrls(cert.aia);
    if ocspUrls.Err? {
      return false, None;
    }
    var crlUrls := GetCrlUrls(cert.cdp);
    if crlUrls.Err? {
      return false, None;
    }
    if ocspUrls.value == [] && crlUrls.value == [] {
      return false, None;
    }
    var st := ExtractSigningTime(referenceUris, texts, env.parse, env.now);
    var issuer := GetIssuerCertificate(cert.issuerDN, env.trustStore);
    decisive := TryOcspUrls(ocspUrls.value, issuer.Some?, st, env.ocsp);
    if decisive.None? {
      decisive := TryCrlUrls(crlUrls.value, st, env.crl);
    }
    revoked := decisive.Some? && decisive.value.status == Revoked;
  }

  /** The OCSP loop: URLs in order, the first conclusive result returned. */
  method TryOcspUrls(urls: seq<string>, issuerFound: bool, st: SigningTimeResult, ocsp: string -> OcspAnswer)
    returns (decisive: Option<RevocationResult>)
    ensures decisive == FirstConclusiveOcsp(urls, issuerFound, st, ocsp)
  {
    var i := 0;
    while i < |urls|
      invariant 0 <= i <= |urls|
      invariant FirstConclusiveOcsp(urls, issuerFound, st, ocsp) == FirstConclusiveOcsp(urls[i..], issuerFound, st, ocsp)
    {
      assert urls[i..][1..] == urls[i + 1..];
      var result := CheckOcspStatus(urls[i], issuerFound, st, ocsp);
      assert FirstConclusiveOcsp(urls[i..], issuerFound, st, ocsp) ==
             if result.status != Unknown then Some(result) else FirstConclusiveOcsp(urls[i + 1..], issuerFound, st, ocsp);
      if result.status != Unknown {
        return Some(result);
      }
      i := i + 1;
    }
    return None;
  }

  /** The CRL loop: URLs in order, the first conclusive result returned. */
  method TryCrlUrls(urls: seq<string>, st: SigningTimeResult, crl: string -> CrlAnswer)
    returns (decisive: Option<RevocationResult>)
    ensures decisive == FirstConclusiveCrl(urls, st, crl)
  {
    var i := 0;
    while i < |urls|
      invariant 0 <= i <= |urls|
      invariant FirstConclusiveCrl(urls, st, crl) == FirstConclusiveCrl(urls[i..], st, crl)
    {
      assert urls[i..][1..] == urls[i + 1..];
      var result := CheckCrlStatus(urls[i], st, crl);
      assert FirstConclusiveCrl(urls[i..], st, crl) ==
             if result.status != Unknown then Some(result) else FirstConclusiveCrl(urls[i + 1..], st, crl);
      if result.status != Unknown {
        return Some(result);
      }
      i := i + 1;
    }
    return None;
  }

  /** Nothing is ever reported revoked without a connection. */
  lemma OfflineNeverRevoked(cert: Certificate, st: SigningTimeResult, env: Environment)
    requires !env.online
    ensures !RevokedFor(cert, st, env)
  {
  }

  /** A certificate is revoked for a signature exactly when the first
      conclusive responder answer names a revocation at or before the
      signing instant. */
  lemma RevokedMeansRevokedAtSigning(cert: Certificate, st: SigningTimeResult, env: Environment)
    requires RevokedFor(cert, st, env)
    ensures var d := RevocationDecision(cert, st, env).value;
            d.revocationDate.Some? && d.validationDate == Some(st.date) &&
            RevokedAtSigning(d.revocationDate.value, st.date)
  {
    var d := RevocationDecision(cert, st, env).value;
    var ocspUrls := OcspUrls(cert.aia).value;
    var crlUrls := CrlUrls(cert.cdp).value;
    var issuerFound := IssuerReachable(cert.issuerDN, env.trustStore);
    if FirstConclusiveOcsp(ocspUrls, issuerFound, st, env.ocsp).Some? {
      var i :| 0 <= i < |ocspUrls| && d == CheckOcspStatus(ocspUrls[i], issuerFound, st, env.ocsp);
      assert issuerFound;
    } else {
      var i :| 0 <= i < |crlUrls| && d == CheckCrlStatus(crlUrls[i], st, env.crl);
    }
  }

  /** Without the issuer certificate every OCSP check is UNKNOWN, so only a
      CRL can decide. */
  lemma NoIssuerMeansCrlDecides(cert: Certificate, st: SigningTimeResult, env: Environment)
    requires !IssuerReachable(cert.issuerDN, env.trustStore)
    ensures RevocationDecision(cert, st, env).Some? ==> RevocationDecision(cert, st, env).value.methodName == "CRL"
  {
  }

  /** OCSP takes precedence: once some OCSP URL is conclusive, the CRLs are
      not consulted. */
  lemma OcspTakesPrecedence(cert: Certificate, st: SigningTimeResult, env: Environment, i: nat)
    requires env.online && OcspUrls(cert.aia).Ok? && CrlUrls(cert.cdp).Ok?
    requires i < |OcspUrls(cert.aia).value|
    requires CheckOcspStatus(OcspUrls(cert.aia).value[i], IssuerReachable(cert.issuerDN, env.trustStore), st, env.ocsp).status != Unknown
    ensures RevocationDecision(cert, st, env).Some? && RevocationDecision(cert, st, env).value.methodName == "OCSP"
  {
  }

  // ------------------------------------------------------ which certificate

  /** The first certificate of the LAST X509Data holding one. */
  function LastDataFirstCertificate(items: seq<KeyInfoItem>): (r: Option<Certificate>)
    ensures r.None? <==> forall d :: d in items ==> !HoldsCertificate(d)
    decreases |items|
  {
    if items == [] then None
    else
      var last := items[|items| - 1];
      var init := items[..|items| - 1];
      assert forall d :: d in items ==> d == last || d in init;
      if HoldsCertificate(last) then FirstCertIn(last.contents) else LastDataFirstCertificate(init)
  }

  /** The revocation loop of the short report as written: for every
      X509Data the first certificate is checked and the inner loop left, so
      the outcome for the last X509Data holding a certificate prevails. */
  method SimpleModeRevoked(items: seq<KeyInfoItem>, referenceUris: seq<string>, texts: ElementTexts, env: Environment)
    returns (revoked: bool)
    ensures var st := ExtractSigningTime(referenceUris, texts, env.parse, env.now);
            revoked <==> LastDataFirstCertificate(items).Some? && RevokedFor(LastDataFirstCertificate(items).value, st, env)
  {
    ghost var st := ExtractSigningTime(referenceUris, texts, env.parse, env.now);
    ghost var chosen: Option<Certificate> := None;
    revoked := false;
    var i := 0;
    while i < |items|
      invariant 0 <= i <= |items|
      invariant chosen == LastDataFirstCertificate(items[..i])
      invariant revoked <==> chosen.Some? && RevokedFor(chosen.value, st, env)
    {
      LastDataStep(items, i);
      if items[i].X509Data? {
        var contents := items[i].contents;
        var j := 0;
        while j < |contents|
          invariant 0 <= j <= |contents|
          invariant FirstCertIn(contents) == FirstCertIn(contents[j..])
          invariant chosen == LastDataFirstCertificate(items[..i])
          invariant revoked <==> chosen.Some? && RevokedFor(chosen.value, st, env)
        {
          assert contents[j..][1..] == contents[j + 1..];
          if contents[j].X509Cert? {
            var decisive;
            revoked, decisive := ValidateRevocationStatus(contents[j].cert, referenceUris, texts, env);
            chosen := Some(contents[j].cert);
            break;
          }
          j := j + 1;
        }
      }
      i := i + 1;
    }
    assert items[..i] == items;
  }

  lemma LastDataStep(items: seq<KeyInfoItem>, i: nat)
    requires i < |items|
    ensures LastDataFirstCertificate(items[..i + 1]) ==
              if HoldsCertificate(items[i]) then FirstCertIn(items[i].contents) else LastDataFirstCertificate(items[..i])
  {
    assert items[..i + 1][..i] == items[..i];
  }

  /** The short report and the full report check the same certificate only
      when at most one X509Data holds certificates: with two, the full
      report checks the first and the short one the second. */
  lemma ModesDisagreeOnTwoX509Data(a: Certificate, b: Certificate)
    requires a != b
    ensures var items := [X509Data([X509Cert(a)]), X509Data([X509Cert(b)])];
            FirstCertificate(items) == Some(a) && LastDataFirstCertificate(items) == Some(b)
  {
    var items := [X509Data([X509Cert(a)]), X509Data([X509Cert(b)])];
    assert HoldsCertificate(items[0]) && HoldsCertificate(items[1]);
    assert items[..1] == [items[0]];
  }

  /** With a single X509Data holding certificates, both reports agree. */
  lemma {:induction false} ModesAgreeOnOneX509Data(items: seq<KeyInfoItem>, k: nat)
    requires k < |items| && HoldsCertificate(items[k])
    requires forall j :: 0 <= j < |items| && j != k ==> !HoldsCertificate(items[j])
    ensures FirstCertificate(items) == LastDataFirstCertificate(items) == FirstCertIn(items[k].contents)
    decreases |items|
  {
    if k > 0 {
      assert !HoldsCertificate(items[0]);
      ModesAgreeOnOneX509DataFirst(items[1..], k - 1);
    }
    if k < |items| - 1 {
      var init := items[..|items| - 1];
      assert !HoldsCertificate(items[|items| - 1]);
      ModesAgreeOnOneX509DataLast(init, k);
    }
  }

  lemma {:induction false} ModesAgreeOnOneX509DataFirst(items: seq<KeyInfoItem>, k: nat)
    requires k < |items| && HoldsCertificate(items[k])
    requires forall j :: 0 <= j < k ==> !HoldsCertificate(items[j])
    ensures FirstCertificate(items) == FirstCertIn(items[k].contents)
    decreases k
  {
    if k > 0 {
      assert !HoldsCertificate(items[0]);
      ModesAgreeOnOneX509DataFirst(items[1..], k - 1);
    }
  }

  lemma {:induction false} ModesAgreeOnOneX509DataLast(items: seq<KeyInfoItem>, k: nat)
    requires k < |items| && HoldsCertificate(items[k])
    requires forall j :: k < j < |items| ==> !HoldsCertificate(items[j])
    ensures LastDataFirstCertificate(items) == FirstCertIn(items[k].contents)
    decreases |items|
  {
    if k < |items| - 1 {
      var init := items[..|items| - 1];
      assert !HoldsCertificate(items[|items| - 1]);
      ModesAgreeOnOneX509DataLast(init, k);
    }
  }

  // ------------------------------------------------------ one signature

  /** The certificate whose revocation status is checked: the full report
      takes the first certificate of the first X509Data holding one, the
      short report's loop that of the last. */
  function CheckedCertificate(items: seq<KeyInfoItem>, mode: OutputMode): Option<Certificate>
  {
    if mode == Full then FirstCertificate(items) else LastDataFirstCertificate(items)
  }

  /** verifySignature as written: Err when the signature cannot be
      unmarshalled or no key can be selected for it (the validation
      raises); otherwise the signature is accepted when its value and every
      reference validate and the certificate the mode checks is not revoked
      at the signing instant. */
  function SignatureVerdict(sig: SignatureNode, mode: OutputMode, texts: ElementTexts, env: Environment): Result<bool>
  {
    if !sig.unmarshals then Err(UNMARSHAL_FAILURE)
    else match KeySelection(sig.keyInfo, sig.signatureAlgorithm)
      case Err(e) => Err(e)
      case Ok(_) =>
        var refsValid := forall i :: 0 <= i < |sig.referenceValid| ==> sig.referenceValid[i];
        var coreValid := sig.signatureValueValid && refsValid;
        var cert := CheckedCertificate(sig.keyInfo.value, mode);
        var st := ExtractSigningTime(sig.referenceUris, texts, env.parse, env.now);
        var revoked := cert.Some? && RevokedFor(cert.value, st, env);
        Ok(coreValid && sig.signatureValueValid && refsValid && !revoked)
  }

  /** One signature, checked in the given mode. */
  method VerifySignature(sig: SignatureNode, mode: OutputMode, texts: ElementTexts, env: Environment)
    returns (r: Result<bool>)
    ensures r == SignatureVerdict(sig, mode, texts, env)
  {
    if !sig.unmarshals {
      return Err(UNMARSHAL_FAILURE);
    }
    var key := SelectKey(sig.keyInfo, sig.signatureAlgorithm);
    if key.Err? {
      return Err(key.error);
    }
    var sv := sig.signatureValueValid;
    var referencesValid := ValidateReferences(sig.referenceValid);
    var coreValidity := sv && referencesValid;
    var isRevoked := false;
    if mode == Full {
      var cert := FirstCertificate(sig.keyInfo.value);
      if cert.Some? {
        var decisive;
        isRevoked, decisive := ValidateRevocationStatus(cert.value, sig.referenceUris, texts, env);
      }
    } else {
      isRevoked := SimpleModeRevoked(sig.keyInfo.value, sig.referenceUris, texts, env);
    }
    return Ok(coreValidity && sv && referencesValid && !isRevoked);
  }

  /** A signature is accepted only if it unmarshals, a key is selected, its
      value and references validate and the certificate the mode checks was
      not revoked at the signing instant. */
  lemma AcceptedSignatureIsSound(sig: SignatureNode, mode: OutputMode, texts: ElementTexts, env: Environment)
    requires SignatureVerdict(sig, mode, texts, env) == Ok(true)
    ensures sig.unmarshals && sig.keyInfo.Some? && sig.signatureValueValid
    ensures forall i :: 0 <= i < |sig.referenceValid| ==> sig.referenceValid[i]
    ensures KeySelection(sig.keyInfo, sig.signatureAlgorithm).Ok?
    ensures var cert := CheckedCertificate(sig.keyInfo.value, mode);
            cert.Some? ==> !RevokedFor(cert.value, ExtractSigningTime(sig.referenceUris, texts, env.parse, env.now), env)
  {
  }

  /** The verdict as both reports evidently intend it: the certificate
      checked is the first one, as in the full report, whatever the mode. */
  function CorrectedSignatureVerdict(sig: SignatureNode, texts: ElementTexts, env: Environment): Result<bool>
  {
    SignatureVerdict(sig, Full, texts, env)
  }

  /** The corrected verdict accepts a signature only if the first
      certificate of its first X509Data holding one was not revoked at the
      signing instant, in either mode. */
  lemma CorrectedVerdictIsSound(sig: SignatureNode, texts: ElementTexts, env: Environment)
    requires CorrectedSignatureVerdict(sig, texts, env) == Ok(true)
    ensures sig.unmarshals && sig.keyInfo.Some? && sig.signatureValueValid
    ensures forall i :: 0 <= i < |sig.referenceValid| ==> sig.referenceValid[i]
    ensures var cert := FirstCertificate(sig.keyInfo.value);
            cert.Some? ==> !RevokedFor(cert.value, ExtractSigningTime(sig.referenceUris, texts, env.parse, env.now), env)
  {
    AcceptedSignatureIsSound(sig, Full, texts, env);
  }

  /** When at most one X509Data of the KeyInfo holds a certificate, the
      short report as written gives the corrected verdict. */
  lemma SimpleVerdictCorrectOnOneX509Data(sig: SignatureNode, texts: ElementTexts, env: Environment, k: nat)
    requires sig.keyInfo.Some? && k < |sig.keyInfo.value| && HoldsCertificate(sig.keyInfo.value[k])
    requires forall j :: 0 <= j < |sig.keyInfo.value| && j != k ==> !HoldsCertificate(sig.keyInfo.value[j])
    ensures SignatureVerdict(sig, Simple, texts, env) == CorrectedSignatureVerdict(sig, texts, env)
  {
    ModesAgreeOnOneX509Data(sig.keyInfo.value, k);
  }

  // ------------------------------------------------------ the document

  datatype DocumentOutcome = NoSignatures | Verified(hasGraveErrors: bool)

  /** Some signature of the document is rejected or cannot be checked. */
  predicate HasGraveErrors(doc: Document, mode: OutputMode, env: Environment)
  {
    exists i :: 0 <= i < |doc.signatures| && SignatureVerdict(doc.signatures[i], mode, doc.texts, env) != Ok(true)
  }

  /** Some of the first n signatures is rejected or cannot be checked. */
  predicate GraveErrorsBefore(doc: Document, mode: OutputMode, env: Environment, n: int)
  {
    exists j :: 0 <= j < n && j < |doc.signatures| && SignatureVerdict(doc.signatures[j], mode, doc.texts, env) != Ok(true)
  }

  lemma GraveErrorsStep(doc: Document, mode: OutputMode, env: Environment, i: nat)
    requires i < |doc.signatures|
    ensures GraveErrorsBefore(doc, mode, env, i + 1) <==>
              GraveErrorsBefore(doc, mode, env, i) || SignatureVerdict(doc.signatures[i], mode, doc.texts, env) != Ok(true)
  {
  }

  /** verifyXMLSignatures: every signature is checked in the mode of the
      run, failures and exceptions alike mark the document as having grave
      errors. */
  method VerifyXmlSignatures(doc: Document, mode: OutputMode, env: Environment) returns (outcome: DocumentOutcome)
    ensures outcome.NoSignatures? <==> doc.signatures == []
    ensures outcome.Verified? ==> (outcome.hasGraveErrors <==> HasGraveErrors(doc, mode, env))
  {
    if doc.signatures == [] {
      return NoSignatures;
    }
    var hasGraveErrors := false;
    var i := 0;
    while i < |doc.signatures|
      invariant 0 <= i <= |doc.signatures|
      invariant hasGraveErrors <==> GraveErrorsBefore(doc, mode, env, i)
    {
      var valid := VerifySignature(doc.signatures[i], mode, doc.texts, env);
      GraveErrorsStep(doc, mode, env, i);
      if valid != Ok(true) {
        hasGraveErrors := true;
      }
      i := i + 1;
    }
    return Verified(hasGraveErrors);
  }

  // ------------------------------------------------------ the command line

  /** What the arguments ask for. */
  datatype Command = ShowVersion | ShowLicense | ShowHelp | Verify(xmlFile: string, mode: OutputMode) | UsageError(message: string)

  const WRONG_COUNT := "N\U{00FA}mero incorrecto de argumentos."
  const INVALID_ARGUMENT := "Argumento no v\U{00E1}lido: "
  /** What separates a usage message from the help text that follows it. */
  const BEFORE_HELP := "\n\n"

  /** processArguments: a single -version, -licencia or -ayuda (any case)
      prints; otherwise the file, optionally followed by -simple (any case).
      The help text follows the wrong-count and invalid-argument messages. */
  function ParseArguments(args: seq<string>, helpText: string): (c: Command)
    ensures args == [] ==> c == UsageError("No se proporcionaron argumentos.")
    ensures |args| > 2 ==> c == UsageError(WRONG_COUNT + BEFORE_HELP + helpText)
    ensures c.Verify? ==> c.xmlFile == args[0] && (c.mode == Simple <==> |args| == 2)
    ensures |args| == 2 ==> (c.Verify? <==> EqualsIgnoreCase("-simple", args[1]))
    ensures |args| == 2 && !c.Verify? ==> c == UsageError(INVALID_ARGUMENT + args[1] + BEFORE_HELP + helpText)
  {
    if args == [] then UsageError("No se proporcionaron argumentos.")
    else if |args| == 1 && ToLower(args[0]) == "-version" then ShowVersion
    else if |args| == 1 && ToLower(args[0]) == "-licencia" then ShowLicense
    else if |args| == 1 && ToLower(args[0]) == "-ayuda" then ShowHelp
    else if |args| > 2 then UsageError(WRONG_COUNT + BEFORE_HELP + helpText)
    else if |args| == 2 && !EqualsIgnoreCase("-simple", args[1]) then
      UsageError(INVALID_ARGUMENT + args[1] + BEFORE_HELP + helpText)
    else Verify(args[0], if |args| == 2 then Simple else Full)
  }

  /** The option names are matched without regard to case: upper-casing a
      lone argument changes nothing but the file name of a verification. */
  lemma OptionsIgnoreCase(arg: string, helpText: string)
    ensures ParseArguments([ToUpper(arg)], helpText).Verify? <==> ParseArguments([arg], helpText).Verify?
    ensures !ParseArguments([arg], helpText).Verify? ==> ParseArguments([ToUpper(arg)], helpText) == ParseArguments([arg], helpText)
    ensures ParseArguments([arg], helpText).Verify? ==> ParseArguments([arg], helpText) == Verify(arg, Full)
  {
    LowerOfUpper(arg);
  }

  lemma LowerOfUpper(s: string)
    ensures ToLower(ToUpper(s)) == ToLower(s)
  {
    forall i | 0 <= i < |s| ensures ToLower(ToUpper(s))[i] == ToLower(s)[i] {
      LowerOfUpperChar(s[i]);
    }
  }

  lemma LowerOfUpperChar(c: char)
    ensures LowerChar(UpperChar(c)) == LowerChar(c)
  {
  }

  /** main: the process exit status. The document is None when the file
      does not exist or cannot be read as XML; the help text is the one
      loaded from the resources. */
  method Run(args: seq<string>, helpText: string, document: Option<Document>, env: Environment) returns (exitCode: int)
    ensures exitCode == 0 <==>
              ParseArguments(args, helpText) in {ShowVersion, ShowLicense, ShowHelp} ||
              (ParseArguments(args, helpText).Verify? && document.Some? && document.value.signatures != [] &&
               !HasGraveErrors(document.value, ParseArguments(args, helpText).mode, env))
    ensures exitCode in {0, 1}
  {
    var command := ParseArguments(args, helpText);
    match command {
      case ShowVersion => return 0;
      case ShowLicense => return 0;
      case ShowHelp => return 0;
      case UsageError(_) => return 1;
      case Verify(_, mode) =>
        if document.None? {
          return 1;
        }
        var outcome := VerifyXmlSignatures(document.value, mode, env);
        if outcome.NoSignatures? || outcome.hasGraveErrors {
          return 1;
        }
        return 0;
    }
  }
}
