/** The XML verifier's revocation classification: one decoded OCSP or CRL
    answer, the resolved signing time and (for OCSP) whether the issuer
    certificate was found become a RevocationResult. A certificate revoked
    strictly after the signing instant is still GOOD for that signature;
    one revoked at or before it is REVOKED. */
module XmlRevocation {
  import opened Wrappers
  import opened JavaStrings
  import opened Responders
  import opened SigningTime

  /** RevocationResult: the verdict, the method that produced it ("OCSP" or
      "CRL"), a message, whether the signing time fell back to the current
      time, and the revocation and signing instants when known. */
  datatype RevocationResult = RevocationResult(
    status: RevocationStatus,
    methodName: string,
    errorMessage: Option<string>,
    usedCurrentTime: bool,
    revocationDate: Option<int>,
    validationDate: Option<int>)

  const NO_ISSUER := "No se pudo obtener el certificado emisor"
  const NOT_SUCCESSFUL := "Respuesta OCSP no exitosa"
  const NO_RESPONSES := "Sin respuestas OCSP"
  const REVOKED_AFTER_SIGNING := "Certificado revocado posteriormente a la firma"
  const ALREADY_REVOKED := "La firma se realiz\U{00F3} cuando el certificado ya estaba revocado"
  const CURRENT_TIME_PREFIX := "Validaci\U{00F3}n realizada con fecha actual debido a: "

  /** The certificate was already revoked at the signing instant. */
  predicate RevokedAtSigning(revokedAt: int, signingTime: int)
  {
    revokedAt <= signingTime
  }

  /** What every result promises about its dates: a REVOKED result records a
      revocation no later than the signing instant and says why; a GOOD result
      that records a revocation records one strictly after signing; only
      conclusive results record a revocation date. */
  predicate Consistent(r: RevocationResult)
  {
    (r.status == Revoked ==>
       r.revocationDate.Some? && r.validationDate.Some? &&
       RevokedAtSigning(r.revocationDate.value, r.validationDate.value) && r.errorMessage.Some?) &&
    (r.status == Good && r.revocationDate.Some? ==>
       r.validationDate.Some? && !RevokedAtSigning(r.revocationDate.value, r.validationDate.value)) &&
    (r.revocationDate.Some? ==> r.status != Unknown)
  }

  /** The REVOKED message: why the current time was used, or the fixed text. */
  function RevokedMessage(st: SigningTimeResult): string
  {
    if st.useCurrentTime then CURRENT_TIME_PREFIX + TextOf(st.errorMessage) else ALREADY_REVOKED
  }

  /** The shared rule for a listed or revoked certificate (OCSP and CRL alike). */
  function RevokedEntryResult(methodName: string, revokedAt: int, st: SigningTimeResult): (r: RevocationResult)
    ensures r.status == Revoked <==> RevokedAtSigning(revokedAt, st.date)
    ensures r.status != Unknown && r.methodName == methodName && Consistent(r)
    ensures r.revocationDate == Some(revokedAt) && r.validationDate == Some(st.date)
    ensures r.usedCurrentTime == st.useCurrentTime
    ensures r.status == Revoked ==> r.errorMessage == Some(RevokedMessage(st))
    ensures r.status == Good ==> r.errorMessage == Some(REVOKED_AFTER_SIGNING)
  {
    if st.date < revokedAt then
      RevocationResult(Good, methodName, Some(REVOKED_AFTER_SIGNING), st.useCurrentTime, Some(revokedAt), Some(st.date))
    else
      RevocationResult(Revoked, methodName, Some(RevokedMessage(st)), st.useCurrentTime, Some(revokedAt), Some(st.date))
  }

  /** Unknown result after a failure: never marked as using the current time. */
  function FailureResult(methodName: string, message: string, st: SigningTimeResult): RevocationResult
  {
    RevocationResult(Unknown, methodName, Some(message), false, None, Some(st.date))
  }

  /** The decision of checkOCSPStatus once the issuer is known and the
      responder's answer has been decoded. */
  function ClassifyOcsp(answer: OcspAnswer, st: SigningTimeResult): (r: RevocationResult)
    ensures r.methodName == "OCSP" && Consistent(r)
    ensures r.status == Revoked <==> answer.CertRevoked? && RevokedAtSigning(answer.revokedAt, st.date)
    ensures r.status == Good <==>
              answer.CertGood? || (answer.CertRevoked? && !RevokedAtSigning(answer.revokedAt, st.date))
    ensures r.status != Unknown ==> r.usedCurrentTime == st.useCurrentTime && r.validationDate == Some(st.date)
    ensures answer.CertGood? ==> r.revocationDate.None? && r.errorMessage.None?
    ensures (answer.NonSuccessful? || answer.NoSingleResponses? || answer.OcspFailure?) ==> !r.usedCurrentTime
  {
    match answer
    case OcspFailure(message) => FailureResult("OCSP", "Error en consulta OCSP: " + TextOf(message), st)
    case NonSuccessful => FailureResult("OCSP", NOT_SUCCESSFUL, st)
    case NoSingleResponses => FailureResult("OCSP", NO_RESPONSES, st)
    case CertGood => RevocationResult(Good, "OCSP", None, st.useCurrentTime, None, Some(st.date))
    case CertRevoked(revokedAt) => RevokedEntryResult("OCSP", revokedAt, st)
    case CertStatusUnknown => RevocationResult(Unknown, "OCSP", None, st.useCurrentTime, None, Some(st.date))
  }

  /** The decision of checkCRLStatus once the CRL has been fetched and read. */
  function ClassifyCrl(answer: CrlAnswer, st: SigningTimeResult): (r: RevocationResult)
    ensures r.methodName == "CRL" && Consistent(r)
    ensures r.status == Revoked <==> answer.Listed? && RevokedAtSigning(answer.revokedAt, st.date)
    ensures r.status == Unknown <==> answer.DownloadFailure? || answer.ProcessingFailure?
    ensures r.status != Unknown ==> r.usedCurrentTime == st.useCurrentTime && r.validationDate == Some(st.date)
    ensures answer.NotListed? ==> r.status == Good && r.revocationDate.None? && r.errorMessage.None?
    ensures r.status == Unknown ==> !r.usedCurrentTime
  {
    match answer
    case DownloadFailure(message) => FailureResult("CRL", "Error descargando CRL: " + TextOf(message), st)
    case ProcessingFailure(message) => FailureResult("CRL", "Error procesando CRL: " + TextOf(message), st)
    case NotListed => RevocationResult(Good, "CRL", None, st.useCurrentTime, None, Some(st.date))
    case Listed(revokedAt) => RevokedEntryResult("CRL", revokedAt, st)
  }

  // ------------------------------------------------------------- cleanUrl

  const CONTEXT_OPEN := "[CONTEXT "

  function DigitRunLength(s: string): (n: nat)
    ensures n <= |s| && AllDigits(s[..n])
    ensures n == |s| || !IsDigit(s[n])
  {
    if s == [] || !IsDigit(s[0]) then 0
    else
      var k := DigitRunLength(s[1..]);
      assert s[..k + 1] == [s[0]] + s[1..][..k];
      k + 1
  }

  /** The length of a "[CONTEXT <digits>]" tag at the start of s, or 0. */
  function ContextTagLength(s: string): (n: nat)
    ensures n <= |s|
    ensures n > 0 ==> n >= |CONTEXT_OPEN| + 2 && StartsWith(s, CONTEXT_OPEN) && s[n - 1] == ']'
    ensures n > 0 ==> AllDigits(s[|CONTEXT_OPEN|..n - 1]) && |CONTEXT_OPEN| < n - 1
  {
    if !StartsWith(s, CONTEXT_OPEN) then 0
    else
      var d := DigitRunLength(s[|CONTEXT_OPEN|..]);
      var close := |CONTEXT_OPEN| + d;
      if d > 0 && close < |s| && s[close] == ']' then
        assert s[|CONTEXT_OPEN|..close] == s[|CONTEXT_OPEN|..][..d];
        close + 1
      else 0
  }

  /** cleanUrl: url.replaceAll("\\[CONTEXT \\d+\\]", ""), scanning left to right. */
  function CleanUrl(url: string): (r: string)
    ensures |r| <= |url|
    decreases |url|
  {
    if url == [] then []
    else
      var n := ContextTagLength(url);
      if n > 0 then CleanUrl(url[n..]) else [url[0]] + CleanUrl(url[1..])
  }

  /** A URL with no '[' is left as it is. */
  lemma {:induction false} CleanUrlWithoutBracket(url: string)
    requires '[' !in url
    ensures CleanUrl(url) == url
    decreases |url|
  {
    if url != [] {
      assert url[0] != '[';
      assert ContextTagLength(url) == 0;
      CleanUrlWithoutBracket(url[1..]);
    }
  }

  /** A leading "[CONTEXT 6]" (the text BouncyCastle gives a tagged URI name)
      is removed and nothing else is touched. */
  lemma CleanUrlRemovesUriTag(url: string)
    requires '[' !in url
    ensures CleanUrl("[CONTEXT 6]" + url) == url
  {
    var s := "[CONTEXT 6]" + url;
    assert StartsWith(s, CONTEXT_OPEN);
    assert s[|CONTEXT_OPEN|..] == "6]" + url;
    assert DigitRunLength("6]" + url) == 1 by {
      assert ("6]" + url)[1..] == "]" + url;
      assert DigitRunLength("]" + url) == 0;
    }
    assert ContextTagLength(s) == 11;
    assert s[11..] == url;
    CleanUrlWithoutBracket(url);
  }

  // --------------------------------------------------- the two checks

  /** checkOCSPStatus: with no issuer certificate no request is made;
      otherwise the responder at the cleaned URL is asked and its answer
      classified. The network is the function from URL to decoded answer. */
  function CheckOcspStatus(url: string, issuerFound: bool, st: SigningTimeResult, network: string -> OcspAnswer): (r: RevocationResult)
    ensures r.methodName == "OCSP" && Consistent(r)
    ensures !issuerFound ==> r == RevocationResult(Unknown, "OCSP", Some(NO_ISSUER), false, None, None)
    ensures issuerFound ==> r == ClassifyOcsp(network(CleanUrl(url)), st)
  {
    if !issuerFound then RevocationResult(Unknown, "OCSP", Some(NO_ISSUER), false, None, None)
    else ClassifyOcsp(network(CleanUrl(url)), st)
  }

  /** checkCRLStatus: the CRL at the cleaned URL is fetched and classified. */
  function CheckCrlStatus(url: string, st: SigningTimeResult, network: string -> CrlAnswer): (r: RevocationResult)
    ensures r.methodName == "CRL" && Consistent(r)
    ensures r == ClassifyCrl(network(CleanUrl(url)), st)
  {
    ClassifyCrl(network(CleanUrl(url)), st)
  }

  /** OCSP and CRL apply the same boundary: for the same revocation instant
      they reach the same verdict, and revocation exactly at the signing
      instant counts as revoked. */
  lemma SameBoundaryForOcspAndCrl(revokedAt: int, st: SigningTimeResult)
    ensures ClassifyOcsp(CertRevoked(revokedAt), st).status == ClassifyCrl(Listed(revokedAt), st).status
    ensures revokedAt == st.date ==> ClassifyOcsp(CertRevoked(revokedAt), st).status == Revoked
    ensures revokedAt == st.date + 1 ==> ClassifyCrl(Listed(revokedAt), st).status == Good
  {
  }
}
