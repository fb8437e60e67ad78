/** What a revocation responder says once its reply has been decoded. The
    verifiers never see bytes: an OCSP reply (RFC 6960 section 4.2.1) or a
    CRL (RFC 5280 section 5) reaches them as one of these values. */
module Responders {
  import opened Wrappers

  /** The verdict both verifiers report. */
  datatype RevocationStatus = Good | Revoked | Unknown

  /** One OCSP exchange for the signer's certificate: building the request,
      the transport or the decoding raised (with the exception's message, if
      any), the responseStatus was not "successful", the basic response held
      no SingleResponse, or the first SingleResponse's certStatus was good,
      revoked at an instant, or unknown. */
  datatype OcspAnswer =
    | OcspFailure(message: Option<string>)
    | NonSuccessful
    | NoSingleResponses
    | CertGood
    | CertRevoked(revokedAt: int)
    | CertStatusUnknown

  /** One CRL download for the signer's certificate: the HTTP exchange raised,
      the body could not be read as a CRL, or the CRL was read and either has
      no entry for the serial number or lists it with a revocation date. */
  datatype CrlAnswer =
    | DownloadFailure(message: Option<string>)
    | ProcessingFailure(message: Option<string>)
    | NotListed
    | Listed(revokedAt: int)
}
