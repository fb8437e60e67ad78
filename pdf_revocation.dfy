/** The PDF verifier's revocation check. It differs from the XML verifier's:
    only the first OCSP responder that answers HTTP 200 is decoded and its
    revocation date is ignored; a CRL lists the certificate as revoked only
    when the revocation is strictly before the signing date, and an entry on
    or after that date makes the walk go on to the next CRL. */
module PdfRevocation {
  import opened Wrappers
  import opened Responders
  import opened KeyInfo
  import PdfCertificateUtils
  import XmlRevocation
  import SigningTime

  /** One HTTP exchange: sending raised, or a reply with its status code and
      its decoded body. */
  datatype HttpReply<A> = SendFailed | Reply(statusCode: int, body: A)

  const HTTP_OK: int := 200

  predicate IsOk<A>(reply: HttpReply<A>)
  {
    reply.Reply? && reply.statusCode == HTTP_OK
  }

  /** What the PDF verifier consults: whether an OCSP request can be built
      for the certificate at all, the OCSP responders and the CRL servers by
      URL. */
  datatype Network = Network(
    requestBuilt: bool,
    ocsp: string -> HttpReply<OcspAnswer>,
    crl: string -> HttpReply<CrlAnswer>)

  // ------------------------------------------------------------------ OCSP

  /** The decision on a decoded OCSP body: a successful response whose first
      single response has no status object is GOOD, a RevokedStatus is
      REVOKED whatever its date, anything else UNKNOWN. */
  function OcspVerdict(answer: OcspAnswer): (s: RevocationStatus)
    ensures s == Good <==> answer.CertGood?
    ensures s == Revoked <==> answer.CertRevoked?
  {
    match answer
    case CertGood => Good
    case CertRevoked(_) => Revoked
    case _ => Unknown
  }

  /** The body of the first URL that answers HTTP 200. */
  function FirstOkBody<A>(urls: seq<string>, net: string -> HttpReply<A>): (r: Option<A>)
    ensures r.None? <==> forall k :: 0 <= k < |urls| ==> !IsOk(net(urls[k]))
    ensures r.Some? ==>
              exists k :: 0 <= k < |urls| && net(urls[k]) == Reply(HTTP_OK, r.value) &&
                          forall j :: 0 <= j < k ==> !IsOk(net(urls[j]))
    decreases |urls|
  {
    if urls == [] then None
    else if IsOk(net(urls[0])) then Some(net(urls[0]).body)
    else
      var rest := FirstOkBody(urls[1..], net);
      assert forall k :: 1 <= k < |urls| ==> urls[k] == urls[1..][k - 1];
      rest
  }

  /** checkOCSP on the certificate's OCSP URLs. */
  function CheckOcsp(urls: seq<string>, network: Network): RevocationStatus
  {
    if !network.requestBuilt then Unknown
    else match FirstOkBody(urls, network.ocsp)
      case None => Unknown
      case Some(answer) => OcspVerdict(answer)
  }

  /** checkOCSP: the loop stops at the first HTTP 200; the signing date is
      not consulted. */
  method CheckOcspUrls(urls: seq<string>, validationDate: int, network: Network) returns (status: RevocationStatus)
    ensures status == CheckOcsp(urls, network)
  {
    var response: Option<OcspAnswer> := None;
    var i := 0;
    while i < |urls|
      invariant 0 <= i <= |urls|
      invariant response.None?
      invariant network.requestBuilt ==> FirstOkBody(urls, network.ocsp) == FirstOkBody(urls[i..], network.ocsp)
    {
      assert urls[i..][1..] == urls[i + 1..];
      if network.requestBuilt {
        var reply := network.ocsp(urls[i]);
        if reply.Reply? && reply.statusCode == HTTP_OK {
          response := Some(reply.body);
          break;
        }
      }
      i := i + 1;
    }
    if response.None? {
      return Unknown;
    }
    return OcspVerdict(response.value);
  }

  /** Only the first responder answering HTTP 200 is decoded: what later
      responders would say does not matter, even when that first answer is
      inconclusive. */
  lemma OnlyFirstOkReplyDecoded(urls: seq<string>, network: Network, k: nat)
    requires network.requestBuilt && k < |urls| && IsOk(network.ocsp(urls[k]))
    requires forall j :: 0 <= j < k ==> !IsOk(network.ocsp(urls[j]))
    ensures CheckOcsp(urls, network) == OcspVerdict(network.ocsp(urls[k]).body)
  {
    var r := FirstOkBody(urls, network.ocsp);
    var m :| 0 <= m < |urls| && network.ocsp(urls[m]) == Reply(HTTP_OK, r.value) &&
             forall j :: 0 <= j < m ==> !IsOk(network.ocsp(urls[j]));
  }

  // ------------------------------------------------------------------- CRL

  /** What one CRL URL decides: an HTTP 200 whose CRL lists the certificate
      strictly before the validation date is REVOKED, one that does not
      list it is GOOD; anything else (another status, an exception, an entry
      on or after that date) decides nothing. */
  function CrlUrlVerdict(reply: HttpReply<CrlAnswer>, validationDate: int): (r: Option<RevocationStatus>)
    ensures r == Some(Revoked) <==>
              IsOk(reply) && reply.body.Listed? && reply.body.revokedAt < validationDate
    ensures r == Some(Good) <==> IsOk(reply) && reply.body.NotListed?
    ensures r.Some? ==> r.value != Unknown
  {
    if !IsOk(reply) then None
    else match reply.body
      case Listed(revokedAt) => if revokedAt < validationDate then Some(Revoked) else None
      case NotListed => Some(Good)
      case _ => None
  }

  /** The verdict of the first CRL URL that decides. */
  function FirstCrlVerdict(urls: seq<string>, crl: string -> HttpReply<CrlAnswer>, validationDate: int)
    : (r: Option<RevocationStatus>)
    ensures r.None? <==> forall k :: 0 <= k < |urls| ==> CrlUrlVerdict(crl(urls[k]), validationDate).None?
    ensures r.Some? ==> exists k :: 0 <= k < |urls| && CrlUrlVerdict(crl(urls[k]), validationDate) == r
    decreases |urls|
  {
    if urls == [] then None
    else
      var here := CrlUrlVerdict(crl(urls[0]), validationDate);
      if here.Some? then here
      else
        var rest := FirstCrlVerdict(urls[1..], crl, validationDate);
        assert forall k :: 1 <= k < |urls| ==> urls[k] == urls[1..][k - 1];
        rest
  }

  /** checkCRL on the certificate's CRL URLs. */
  function CheckCrl(urls: seq<string>, network: Network, validationDate: int): RevocationStatus
  {
    match FirstCrlVerdict(urls, network.crl, validationDate)
    case None => Unknown
    case Some(s) => s
  }

  /** checkCRL: the URLs in order, returning at the first that decides. */
  method CheckCrlUrls(urls: seq<string>, validationDate: int, network: Network) returns (status: RevocationStatus)
    ensures status == CheckCrl(urls, network, validationDate)
  {
    var i := 0;
    while i < |urls|
      invariant 0 <= i <= |urls|
      invariant FirstCrlVerdict(urls, network.crl, validationDate) ==
                FirstCrlVerdict(urls[i..], network.crl, validationDate)
    {
      assert urls[i..][1..] == urls[i + 1..];
      var reply := network.crl(urls[i]);
      if reply.Reply? && reply.statusCode == HTTP_OK {
        match reply.body {
          case Listed(revokedAt) =>
            if revokedAt < validationDate {
              return Revoked;
            }
          case NotListed =>
            return Good;
          case _ =>
        }
      }
      i := i + 1;
    }
    return Unknown;
  }

  /** A CRL answer of REVOKED always comes from a CRL listing the
      certificate strictly before the validation date. */
  lemma CrlRevokedMeansListedBefore(urls: seq<string>, network: Network, validationDate: int)
    requires CheckCrl(urls, network, validationDate) == Revoked
    ensures exists k :: 0 <= k < |urls| && IsOk(network.crl(urls[k])) &&
                        network.crl(urls[k]).body.Listed? && network.crl(urls[k]).body.revokedAt < validationDate
  {
    var k :| 0 <= k < |urls| && CrlUrlVerdict(network.crl(urls[k]), validationDate) == Some(Revoked);
  }

  /** An entry revoked at or after the validation date decides nothing: with
      no other CRL the result is UNKNOWN, not GOOD. */
  lemma LaterRevocationIsUnknown(url: string, network: Network, validationDate: int, revokedAt: int)
    requires network.crl(url) == Reply(HTTP_OK, Listed(revokedAt)) && validationDate <= revokedAt
    ensures CheckCrl([url], network, validationDate) == Unknown
  {
    assert CrlUrlVerdict(network.crl([url][0]), validationDate).None?;
  }

  // ------------------------------------------------------------- combined

  /** checkCertificateRevocation: OCSP first, the CRLs when OCSP is UNKNOWN. */
  function CheckCertificateRevocation(cert: Certificate, validationDate: int, network: Network): RevocationStatus
  {
    var byOcsp := CheckOcsp(PdfCertificateUtils.OcspUrls(cert.aia), network);
    if byOcsp != Unknown then byOcsp
    else CheckCrl(PdfCertificateUtils.CrlUrls(cert.cdp), network, validationDate)
  }

  method CheckCertificateRevocationNow(cert: Certificate, validationDate: int, network: Network)
    returns (status: RevocationStatus)
    ensures status == CheckCertificateRevocation(cert, validationDate, network)
  {
    var ocspUrls := PdfCertificateUtils.GetOcspUrls(cert.aia);
    status := CheckOcspUrls(ocspUrls, validationDate, network);
    if status != Unknown {
      return;
    }
    var crlUrls := PdfCertificateUtils.GetCrlUrls(cert.cdp);
    status := CheckCrlUrls(crlUrls, validationDate, network);
  }

  /** The overall answer is UNKNOWN exactly when neither OCSP nor the CRLs
      decide, and a conclusive OCSP answer does not depend on the date. */
  lemma CombinedDecision(cert: Certificate, d1: int, d2: int, network: Network)
    ensures var ocsp := CheckOcsp(PdfCertificateUtils.OcspUrls(cert.aia), network);
            (CheckCertificateRevocation(cert, d1, network) == Unknown <==>
               ocsp == Unknown && FirstCrlVerdict(PdfCertificateUtils.CrlUrls(cert.cdp), network.crl, d1).None?) &&
            (ocsp != Unknown ==> CheckCertificateRevocation(cert, d1, network) == CheckCertificateRevocation(cert, d2, network))
  {
    var crlUrls := PdfCertificateUtils.CrlUrls(cert.cdp);
    var v := FirstCrlVerdict(crlUrls, network.crl, d1);
    if v.Some? {
      var k :| 0 <= k < |crlUrls| && CrlUrlVerdict(network.crl(crlUrls[k]), d1) == v;
    }
  }

  /** The two verifiers draw the boundary differently: a certificate revoked
      exactly at the signing instant is REVOKED for the XML verifier's CRL
      check, while for the PDF verifier that CRL decides nothing. */
  lemma BoundaryDiffersFromXml(t: int, st: SigningTime.SigningTimeResult)
    requires st.date == t
    ensures XmlRevocation.ClassifyCrl(Listed(t), st).status == Revoked
    ensures CrlUrlVerdict(Reply(HTTP_OK, Listed(t)), t).None?
    ensures XmlRevocation.ClassifyOcsp(CertRevoked(t + 1), st).status == Good && OcspVerdict(CertRevoked(t + 1)) == Revoked
  {
  }
}
