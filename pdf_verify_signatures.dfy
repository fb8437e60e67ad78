/** The PDF signature verifier: the acceptance chain for one signature,
    the document verdict over all signatures and the command line. */
module PdfVerifySignatures {
  import opened Wrappers
  import opened JavaStrings
  import opened Responders
  import opened KeyInfo
  import opened DistinguishedNames
  import PdfRevocation
  import PdfCertificateUtils
  import XmlVerifySignatures

  // ------------------------------------------------------ names in a DN

  /** extractCN: the value of the first trimmed "CN=" piece, or "". */
  function ExtractCN(dn: string): string
  {
    match Attribute(dn, CN_KEY)
    case None => ""
    case Some(v) => v
  }

  /** extractO: the value of the first trimmed "O=" piece, or "". */
  function ExtractO(dn: string): string
  {
    match Attribute(dn, O_KEY)
    case None => ""
    case Some(v) => v
  }

  /** The name read is "" when no piece carries "CN=", and never holds a comma. */
  lemma ExtractCNFound(dn: string)
    ensures ',' !in ExtractCN(dn)
    ensures ExtractCN(dn) == "" <==> Attribute(dn, CN_KEY) in {None, Some("")}
  {
    AttributeHasNoComma(dn, CN_KEY);
    match Attribute(dn, CN_KEY) {
      case None =>
      case Some(v) => assert ExtractCN(dn) == v;
    }
  }

  /** A name written "CN=v,..." yields v, whatever follows the first comma. */
  lemma ExtractCNOfLeadingCN(v: string, rest: string)
    requires ',' !in v && (v == [] || v[|v| - 1] > ' ')
    requires rest == [] || rest[0] == ','
    ensures ExtractCN(CN_KEY + v + rest) == v
  {
    LeadingAttribute(CN_KEY, v, rest);
  }

  /** A name written "O=v,..." yields v as organisation. */
  lemma ExtractOOfLeadingO(v: string, rest: string)
    requires ',' !in v && (v == [] || v[|v| - 1] > ' ')
    requires rest == [] || rest[0] == ','
    ensures ExtractO(O_KEY + v + rest) == v
  {
    LeadingAttribute(O_KEY, v, rest);
  }

  // --------------------------------------------------- one signature

  /** What the verifier reads about one signature. readable is false when
      reading the signature data or checking its integrity raises;
      signDate is None when the signature carries no signing date (the
      verifier then dereferences null). */
  datatype PdfSignature = PdfSignature(
    readable: bool,
    integrityValid: bool,
    signingCert: Option<Certificate>,
    signDate: Option<int>)

  /** The issuer test: an issuer CN that is empty, or mentions "self
      signed" or "localhost" in any case, marks an untrusted certificate. */
  predicate IssuerTrusted(cert: Certificate)
  {
    var cn := ExtractCN(cert.issuerDN);
    cn != "" && !Contains(ToLower(cn), "self signed") && !Contains(ToLower(cn), "localhost")
  }

  const NO_SIGN_DATE: string := "La firma no tiene fecha de firma"
  const UNREADABLE: string := "No se pudo leer la firma"

  /** verifySignature: Ok(valid) when the chain runs to the end or stops
      at a rejection, Err when it raises. */
  function SignatureVerdict(sig: PdfSignature, network: PdfRevocation.Network): Result<bool>
  {
    if !sig.readable then Err(UNREADABLE)
    else if !sig.integrityValid then Ok(false)
    else if sig.signingCert.None? then Ok(false)
    else if !IssuerTrusted(sig.signingCert.value) then Ok(false)
    else if sig.signDate.None? then Err(NO_SIGN_DATE)
    else Ok(PdfRevocation.CheckCertificateRevocation(sig.signingCert.value, sig.signDate.value, network) != Revoked)
  }

  /** A signature is accepted exactly when it is intact, has a signing
      certificate from a trusted-looking issuer and a signing date, and the
      revocation check does not say REVOKED: an UNKNOWN answer passes. */
  lemma AcceptedExactly(sig: PdfSignature, network: PdfRevocation.Network)
    ensures SignatureVerdict(sig, network) == Ok(true) <==>
              sig.readable && sig.integrityValid && sig.signingCert.Some? &&
              IssuerTrusted(sig.signingCert.value) && sig.signDate.Some? &&
              PdfRevocation.CheckCertificateRevocation(sig.signingCert.value, sig.signDate.value, network) in {Good, Unknown}
  {
    if sig.readable && sig.integrityValid && sig.signingCert.Some? && IssuerTrusted(sig.signingCert.value) && sig.signDate.Some? {
      var status := PdfRevocation.CheckCertificateRevocation(sig.signingCert.value, sig.signDate.value, network);
      assert SignatureVerdict(sig, network) == Ok(status != Revoked);
    }
  }

  /** An issuer whose CN says "Self Signed" is rejected before any
      revocation check. */
  lemma SelfSignedIssuerRejected(sig: PdfSignature, network: PdfRevocation.Network, rest: string)
    requires sig.readable && sig.integrityValid && sig.signingCert.Some?
    requires sig.signingCert.value.issuerDN == CN_KEY + "Self Signed" + rest
    requires rest == [] || rest[0] == ','
    ensures SignatureVerdict(sig, network) == Ok(false)
  {
    SelfSignedNotTrusted(sig.signingCert.value, rest);
  }

  lemma SelfSignedNotTrusted(cert: Certificate, rest: string)
    requires cert.issuerDN == CN_KEY + "Self Signed" + rest
    requires rest == [] || rest[0] == ','
    ensures !IssuerTrusted(cert)
  {
    ExtractCNOfLeadingCN("Self Signed", rest);
    SelfSignedMentioned();
  }

  lemma SelfSignedMentioned()
    ensures Contains(ToLower("Self Signed"), "self signed")
  {
    assert ToLower("Self Signed") == "self signed";
    assert StartsWith("self signed", "self signed");
  }

  /** As deployed no OCSP request can be built, so the CRLs decide alone: a
      certificate whose only CRL lists it as revoked at the very instant of
      signing is accepted. */
  lemma RevokedAtSigningInstantAccepted(sig: PdfSignature, network: PdfRevocation.Network, url: string)
    requires sig.readable && sig.integrityValid && sig.signingCert.Some? && sig.signDate.Some?
    requires IssuerTrusted(sig.signingCert.value)
    requires !network.requestBuilt
    requires PdfCertificateUtils.CrlUrls(sig.signingCert.value.cdp) == [url]
    requires network.crl(url) == PdfRevocation.Reply(PdfRevocation.HTTP_OK, Listed(sig.signDate.value))
    ensures SignatureVerdict(sig, network) == Ok(true)
  {
    PdfRevocation.LaterRevocationIsUnknown(url, network, sig.signDate.value, sig.signDate.value);
  }

  // ------------------------------------------------------ the document

  datatype PdfDocument = PdfDocument(signatures: seq<PdfSignature>)

  const NO_SIGNATURES: string := "El documento no contiene firmas digitales."

  /** Some signature was rejected or raised. */
  predicate HasErrors(doc: PdfDocument, network: PdfRevocation.Network)
  {
    exists i :: 0 <= i < |doc.signatures| && SignatureVerdict(doc.signatures[i], network) != Ok(true)
  }

  /** verifyPDFSignatures: Err for a document without signatures, otherwise
      whether some signature has errors. */
  method VerifyPdfSignatures(doc: PdfDocument, network: PdfRevocation.Network) returns (r: Result<bool>)
    ensures r.Err? <==> doc.signatures == []
    ensures r.Ok? ==> (r.value <==> HasErrors(doc, network))
  {
    if doc.signatures == [] {
      return Err(NO_SIGNATURES);
    }
    var hasErrors := false;
    var i := 0;
    while i < |doc.signatures|
      invariant 0 <= i <= |doc.signatures|
      invariant hasErrors <==> exists j :: 0 <= j < i && SignatureVerdict(doc.signatures[j], network) != Ok(true)
    {
      var verdict := SignatureVerdict(doc.signatures[i], network);
      match verdict {
        case Ok(isValid) => hasErrors := hasErrors || !isValid;
        case Err(_) => hasErrors := true;
      }
      i := i + 1;
    }
    return Ok(hasErrors);
  }

  // ------------------------------------------------------ the command line

  datatype Command = ShowVersion | ShowLicense | ShowHelp | Verify(pdfPath: string, simple: bool) | UsageError(message: string)

  /** main's reading of the arguments: none is an error; a lone -version,
      -licencia or -ayuda (any case) prints; otherwise the first argument
      is the file and a second "-simple" (any case) selects the short
      output; anything further is ignored. */
  function ParseArguments(args: seq<string>): (c: Command)
    ensures c.UsageError? <==> args == []
    ensures c.Verify? ==> c.pdfPath == args[0] && (c.simple <==> |args| > 1 && EqualsIgnoreCase("-simple", args[1]))
    ensures |args| > 1 ==> c.Verify?
  {
    if args == [] then UsageError("No se proporcionaron argumentos.")
    else if |args| == 1 && ToLower(args[0]) == "-version" then ShowVersion
    else if |args| == 1 && ToLower(args[0]) == "-licencia" then ShowLicense
    else if |args| == 1 && ToLower(args[0]) == "-ayuda" then ShowHelp
    else Verify(args[0], |args| > 1 && EqualsIgnoreCase("-simple", args[1]))
  }

  /** Arguments after the second never matter, while the XML verifier
      rejects a third argument outright. */
  lemma ExtraArgumentsIgnored(args: seq<string>)
    requires |args| > 2
    ensures ParseArguments(args) == ParseArguments(args[..2])
    ensures XmlVerifySignatures.ParseArguments(args, "").UsageError?
  {
  }

  /** main: the exit status. document is None when the file cannot be
      opened as a PDF. */
  method Run(args: seq<string>, document: Option<PdfDocument>, network: PdfRevocation.Network)
    returns (exitCode: int)
    ensures exitCode in {0, 1}
    ensures exitCode == 0 <==>
              ParseArguments(args) in {ShowVersion, ShowLicense, ShowHelp} ||
              (ParseArguments(args).Verify? && document.Some? && document.value.signatures != [] &&
               !HasErrors(document.value, network))
  {
    var command := ParseArguments(args);
    match command {
      case ShowVersion => return 0;
      case ShowLicense => return 0;
      case ShowHelp => return 0;
      case UsageError(_) => return 1;
      case Verify(_, _) =>
        if document.None? {
          return 1;
        }
        var outcome := VerifyPdfSignatures(document.value, network);
        if outcome.Err? || outcome.value {
          return 1;
        }
        return 0;
    }
  }
}
