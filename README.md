# S-FIDE in Dafny

S-FIDE (Grupo Sauken S.A.) is a set of Java command-line tools, plus a Swing
front end, for signing and verifying digital certificates of origin (the
COD and CODEH XML documents) and PDF documents. The keys come from a PKCS#11
token or a PKCS#12 file. This project models the logic of those tools in
Dafny and proves properties of the model:

- **Revocation checking.** This is the heart of both verifiers:
  - reading the OCSP responder and CRL distribution-point URLs out of a
    certificate's extensions (`Extensions`, `XmlCertificateUtils`,
    `PdfCertificateUtils`);
  - finding the signing instant in the signed COD/CODEH payload, with the
    exporter country's time zone (`SigningTime`, `Timezones`);
  - the OCSP-then-CRL fallback, and the rule that compares the revocation
    instant with the signing instant rather than with "now"
    (`XmlRevocation`, `PdfRevocation`, `Responders`).
- **The two signature verifiers.** `XmlVerifySignatures` models the XML
  verifier: key selection from ds:KeyInfo (`KeyInfo`) and its short and full
  reports. `PdfVerifySignatures` models the PDF verifier.
- **The XSD structure verifier** (`XsdStructure`), with its schema
  downloader (`XsdDownloader`) and error handler (`XmlErrorHandler`).
- **The signers.**
  - `XmlSigner` covers argument parsing, output names, the XML declaration
    and the Reference lookup of the two XML signers.
  - `PdfSigner` covers the argument parsing, output paths and visible
    signature text of the two PDF signers.
- **The GUI's support code.**
  - `ModuleValidator` is the pre-flight validation of each tool's inputs.
  - `Configuration` is the remembered defaults.
- **The two certificate extractors.**
  - `CertificateExport` holds their shared export loop, file names and PEM
    framing.
  - `TokenCertificateExtractor` and `Pkcs12CertificateExtractor` model the
    two command lines.

The model does not reach the network, the clock, the file system or the
cryptography. Each of these is a parameter:
- an OCSP or CRL answer per URL;
- a date parser;
- "now";
- a map of file states;
- a key store's entries;
- a file writer that may fail.

The certificates, DOM trees and PDF structures reach the model already
decoded into datatypes. Java's string operations (`trim`, `split`,
`toLowerCase`, `Integer.parseInt`, `lastIndexOf`) are written out in
`JavaStrings`; case mapping and digits are limited to the characters listed
under "Left out". Optional values and failures use `Option`
and `Result` (`Wrappers`).

Where the description of the system and the code disagree, the model follows
the code. For example:
- The XML verifier's URL extraction throws on a malformed extension, while
  the PDF verifier's returns the URLs collected so far; each is modelled as
  written.
- The PDF CRL check leaves a certificate listed exactly at the signing
  instant undecided, while the XML one calls it revoked
  (`PdfRevocation.BoundaryDiffersFromXml`).

## Model

| member | source | states |
|---|---|---|
| DistinguishedNames.FirstAttributeNone | pdf_verify_signatures/src/main/java/com/sauken/s_fide/pdf_verify_signatures/PDFVerifySignatures.java:267-274 | no attribute is found exactly when no comma-separated piece, once trimmed, starts with the key |
| DistinguishedNames.FirstAttributeExact | pdf_verify_signatures/src/main/java/com/sauken/s_fide/pdf_verify_signatures/PDFVerifySignatures.java:267-274 | a found value is what follows the key in the first piece that, trimmed, starts with the key |
| DistinguishedNames.AttributeHasNoComma | pdf_signer_pkcs11/src/main/java/com/sauken/s_fide/pdf_signer_pkcs11/PDFSignerPKCS11.java:501-508 | a value read out of a distinguished name never contains a comma, because the name is split at every comma |
| DistinguishedNames.LeadingAttribute | pdf_signer_pkcs11/src/main/java/com/sauken/s_fide/pdf_signer_pkcs11/PDFSignerPKCS11.java:501-508 | in a name that starts with key + value, followed by a comma or by nothing, the value read is exactly that value |
| DistinguishedNames.ReplaceDisallowed | token_certificate_extractor/src/main/java/com/sauken/s_fide/token_certificate_extractor/TokenCertificateExtractor.java:255-265 | replacing the negated character class keeps the length, keeps every allowed character in place and turns every other one into '_' |
| DistinguishedNames.ReplaceDisallowedIsClean | token_certificate_extractor/src/main/java/com/sauken/s_fide/token_certificate_extractor/TokenCertificateExtractor.java:255-265 | after the replacement only allowed characters and '_' remain, and a second replacement changes nothing |
| DistinguishedNames.ReplaceDisallowedKeepsClean | token_certificate_extractor/src/main/java/com/sauken/s_fide/token_certificate_extractor/TokenCertificateExtractor.java:255-265 | a name made only of allowed characters comes out unchanged |
| Extensions.OcspNamesExactly | xml_verify_signatures/src/main/java/com/sauken/s_fide/xml_verify_signatures/utils/CertificateUtils.java:88-95 | the names collected from the Authority Information Access extension are exactly the URI-tagged locations of the access descriptions whose method is id-ad-ocsp |
| Extensions.UriNamesExactly | xml_verify_signatures/src/main/java/com/sauken/s_fide/xml_verify_signatures/utils/CertificateUtils.java:116-120 | from a GeneralNames sequence exactly the URI-tagged names are kept |
| Extensions.CrlNamesExactly | xml_verify_signatures/src/main/java/com/sauken/s_fide/xml_verify_signatures/utils/CertificateUtils.java:112-122 | the names collected from the CRL Distribution Points extension are exactly the URI names of the points given in full-name form |
| Extensions.OcspNamesConcat | xml_verify_signatures/src/main/java/com/sauken/s_fide/xml_verify_signatures/utils/CertificateUtils.java:88-95 | collecting over two runs of access descriptions gives the two collections in order, so encoded order is kept |
| Extensions.CrlNamesConcat | xml_verify_signatures/src/main/java/com/sauken/s_fide/xml_verify_signatures/utils/CertificateUtils.java:112-122 | collecting over two runs of distribution points gives the two collections in order |
| Extensions.UriNamesConcat | xml_verify_signatures/src/main/java/com/sauken/s_fide/xml_verify_signatures/utils/CertificateUtils.java:116-120 | filtering two runs of names gives the two filtered runs in order |
| KeyInfo.FirstValidCertKeyIn | xml_verify_signatures/src/main/java/com/sauken/s_fide/xml_verify_signatures/XMLVerifySignatures.java:597-606 | a key found inside one X509Data is RSA and the signature algorithm is one of the supported RSA ones |
| KeyInfo.FirstValidCertKey | xml_verify_signatures/src/main/java/com/sauken/s_fide/xml_verify_signatures/XMLVerifySignatures.java:600-611 | the key found across all X509Data satisfies isKeyValid for the signature algorithm |
| KeyInfo.FirstValidCertKeyInExact | xml_verify_signatures/src/main/java/com/sauken/s_fide/xml_verify_signatures/XMLVerifySignatures.java:597-606 | the key belongs to a certificate of that X509Data; when none is found, no certificate there has a valid key |
| KeyInfo.FirstValidCertKeyExact | xml_verify_signatures/src/main/java/com/sauken/s_fide/xml_verify_signatures/XMLVerifySignatures.java:600-611 | the selected key belongs to a certificate of some X509Data; when none is found, no certificate of any X509Data has a valid key |
| KeyInfo.ScanX509Data | xml_verify_signatures/src/main/java/com/sauken/s_fide/xml_verify_signatures/XMLVerifySignatures.java:600-611 | the nested loop over X509Data and their contents returns the first certificate key that is valid, or none |
| KeyInfo.FirstCertIn | xml_verify_signatures/src/main/java/com/sauken/s_fide/xml_verify_signatures/XMLVerifySignatures.java:402-407 | the first certificate of an X509Data is one of its entries; none means it holds no certificate |
| KeyInfo.FirstCertificate | xml_verify_signatures/src/main/java/com/sauken/s_fide/xml_verify_signatures/XMLVerifySignatures.java:398-411 | no certificate is reported exactly when no X509Data holds one |
| XmlCertificateUtils.ExtractString | xml_verify_signatures/src/main/java/com/sauken/s_fide/xml_verify_signatures/utils/CertificateUtils.java:66-76 | a URI name renders as its tagged-object text "[CONTEXT 6]" + value; a name without a value raises the rendering error |
| XmlCertificateUtils.RenderAll | xml_verify_signatures/src/main/java/com/sauken/s_fide/xml_verify_signatures/utils/CertificateUtils.java:88-95 | a successful rendering gives one string per collected name |
| XmlCertificateUtils.RenderAllErrPersists | xml_verify_signatures/src/main/java/com/sauken/s_fide/xml_verify_signatures/utils/CertificateUtils.java:66-76 | once one name fails to render, the whole list fails with that error, whatever follows |
| XmlCertificateUtils.RenderAllOk | xml_verify_signatures/src/main/java/com/sauken/s_fide/xml_verify_signatures/utils/CertificateUtils.java:66-76 | rendering succeeds exactly when every name has a value, and element k is then the k-th name's rendering |
| XmlCertificateUtils.GetOcspUrls | xml_verify_signatures/src/main/java/com/sauken/s_fide/xml_verify_signatures/utils/CertificateUtils.java:78-100 | the loop returns the rendered id-ad-ocsp URI locations in order: none when the extension is absent, an error when it is malformed |
| XmlCertificateUtils.GetCrlUrls | xml_verify_signatures/src/main/java/com/sauken/s_fide/xml_verify_signatures/utils/CertificateUtils.java:102-127 | the nested loops return the rendered URI names of the full-name distribution points in order: none when absent, an error when malformed |
| XmlCertificateUtils.AddUriNames | xml_verify_signatures/src/main/java/com/sauken/s_fide/xml_verify_signatures/utils/CertificateUtils.java:116-120 | the inner loop appends the renderings of the URI-tagged names to what was collected before |
| XmlCertificateUtils.OcspUrlsRendered | xml_verify_signatures/src/main/java/com/sauken/s_fide/xml_verify_signatures/utils/CertificateUtils.java:78-100 | for a well-formed extension whose OCSP locations all have values, every URL is "[CONTEXT 6]" + the location of some id-ad-ocsp URI access description |
| XmlCertificateUtils.GetIssuerCertificate | xml_verify_signatures/src/main/java/com/sauken/s_fide/xml_verify_signatures/utils/CertificateUtils.java:129-155 | the issuer is the first trust-store entry whose subject DN equals the certificate's issuer DN; a non-certificate entry met first, or an unreadable store, leaves it unfound |
| PdfCertificateUtils.MalformedAccessIndex | pdf_verify_signatures/src/main/java/com/sauken/s_fide/pdf_verify_signatures/utils/CertificateUtils.java:77-90 | locates the first access description the loop cannot cast; every element before it is well formed |
| PdfCertificateUtils.MalformedPointIndex | pdf_verify_signatures/src/main/java/com/sauken/s_fide/pdf_verify_signatures/utils/CertificateUtils.java:106-121 | locates the first distribution point the loop cannot read; every element before it is well formed |
| PdfCertificateUtils.GetOcspUrls | pdf_verify_signatures/src/main/java/com/sauken/s_fide/pdf_verify_signatures/utils/CertificateUtils.java:70-97 | the loop returns the OCSP URLs that start with "http", in order, and stops silently at the first malformed element |
| PdfCertificateUtils.GetCrlUrls | pdf_verify_signatures/src/main/java/com/sauken/s_fide/pdf_verify_signatures/utils/CertificateUtils.java:99-128 | the nested loops return the CRL URLs that start with "http", in order, and stop silently at the first malformed element |
| PdfCertificateUtils.AddHttpUris | pdf_verify_signatures/src/main/java/com/sauken/s_fide/pdf_verify_signatures/utils/CertificateUtils.java:112-119 | the inner loop appends the URI-tagged names whose text starts with "http" |
| PdfCertificateUtils.HttpUrlsExactly | pdf_verify_signatures/src/main/java/com/sauken/s_fide/pdf_verify_signatures/utils/CertificateUtils.java:84-87 | a URL is kept exactly when some name carries it and it starts with "http" |
| PdfCertificateUtils.HttpUrlsAllKept | pdf_verify_signatures/src/main/java/com/sauken/s_fide/pdf_verify_signatures/utils/CertificateUtils.java:84-87 | when every name carries an "http" URL, all are kept, in order |
| PdfCertificateUtils.UrlsStartWithHttp | pdf_verify_signatures/src/main/java/com/sauken/s_fide/pdf_verify_signatures/utils/CertificateUtils.java:70-128 | every OCSP and CRL URL the PDF verifier uses starts with "http" |
| PdfCertificateUtils.OcspUrlsExactly | pdf_verify_signatures/src/main/java/com/sauken/s_fide/pdf_verify_signatures/utils/CertificateUtils.java:70-97 | u is an OCSP URL exactly when an id-ad-ocsp URI access description before the first malformed element has location u starting with "http" |
| PdfCertificateUtils.OcspUrlFound | pdf_verify_signatures/src/main/java/com/sauken/s_fide/pdf_verify_signatures/utils/CertificateUtils.java:70-97 | every OCSP URL returned comes from such an access description |
| PdfCertificateUtils.OcspUrlKept | pdf_verify_signatures/src/main/java/com/sauken/s_fide/pdf_verify_signatures/utils/CertificateUtils.java:70-97 | every such access description's URL is returned |
| PdfCertificateUtils.CrlUrlsExactly | pdf_verify_signatures/src/main/java/com/sauken/s_fide/pdf_verify_signatures/utils/CertificateUtils.java:99-128 | u is a CRL URL exactly when a URI name of a full-name point before the first malformed element is u and starts with "http" |
| PdfCertificateUtils.CrlUrlFound | pdf_verify_signatures/src/main/java/com/sauken/s_fide/pdf_verify_signatures/utils/CertificateUtils.java:99-128 | every CRL URL returned comes from such a name |
| PdfCertificateUtils.CrlUrlKept | pdf_verify_signatures/src/main/java/com/sauken/s_fide/pdf_verify_signatures/utils/CertificateUtils.java:99-128 | every such name's URL is returned |
| PdfCertificateUtils.OcspPrefixKept | pdf_verify_signatures/src/main/java/com/sauken/s_fide/pdf_verify_signatures/utils/CertificateUtils.java:93-96 | a malformed access description ends the scan but keeps the URLs collected before it |
| PdfCertificateUtils.CrlPrefixKept | pdf_verify_signatures/src/main/java/com/sauken/s_fide/pdf_verify_signatures/utils/CertificateUtils.java:124-127 | a malformed distribution point ends the scan but keeps the URLs collected before it |
| PdfCertificateUtils.OcspListsAgree | pdf_verify_signatures/src/main/java/com/sauken/s_fide/pdf_verify_signatures/utils/CertificateUtils.java:70-97 | for a well-formed extension with bracket-free "http" locations, the XML verifier's list, once cleaned, equals the PDF verifier's list element by element |
| XmlRevocation.RevokedEntryResult | xml_verify_signatures/src/main/java/com/sauken/s_fide/xml_verify_signatures/validation/RevocationValidator.java:165-183 | a revocation entry means revoked exactly when the signing instant is at or after the revocation instant; otherwise good with the "revoked after signing" message; both instants and the fallback flag are carried |
| XmlRevocation.ClassifyOcsp | xml_verify_signatures/src/main/java/com/sauken/s_fide/xml_verify_signatures/validation/RevocationValidator.java:141-191 | an OCSP reply is revoked exactly when it revokes at or before signing, and good when the status is null or revoked later; an unsuccessful reply, an empty reply and an exception are unknown without the fallback flag |
| XmlRevocation.ClassifyCrl | xml_verify_signatures/src/main/java/com/sauken/s_fide/xml_verify_signatures/validation/RevocationValidator.java:225-265 | a CRL is revoked exactly when it lists the serial at or before signing, and good when it does not list it; unknown exactly when the download or the decoding fails |
| XmlRevocation.ContextTagLength | xml_verify_signatures/src/main/java/com/sauken/s_fide/xml_verify_signatures/validation/RevocationValidator.java:115-117 | recognises a leading "[CONTEXT " + digits + "]" tag, the pattern cleanUrl removes |
| XmlRevocation.CleanUrl | xml_verify_signatures/src/main/java/com/sauken/s_fide/xml_verify_signatures/validation/RevocationValidator.java:115-117 | cleaning never makes a URL longer |
| XmlRevocation.CleanUrlWithoutBracket | xml_verify_signatures/src/main/java/com/sauken/s_fide/xml_verify_signatures/validation/RevocationValidator.java:115-117 | a URL without '[' is left unchanged |
| XmlRevocation.CleanUrlRemovesUriTag | xml_verify_signatures/src/main/java/com/sauken/s_fide/xml_verify_signatures/validation/RevocationValidator.java:115-117 | cleaning undoes the "[CONTEXT 6]" prefix that URL extraction adds |
| XmlRevocation.CheckOcspStatus | xml_verify_signatures/src/main/java/com/sauken/s_fide/xml_verify_signatures/validation/RevocationValidator.java:119-192 | without the issuer certificate the answer is unknown with the "no issuer" message; otherwise it is the classified reply for the cleaned URL |
| XmlRevocation.CheckCrlStatus | xml_verify_signatures/src/main/java/com/sauken/s_fide/xml_verify_signatures/validation/RevocationValidator.java:210-266 | the answer is the classified CRL downloaded from the cleaned URL |
| XmlRevocation.SameBoundaryForOcspAndCrl | xml_verify_signatures/src/main/java/com/sauken/s_fide/xml_verify_signatures/validation/RevocationValidator.java:165-183 | OCSP and CRL agree for every revocation instant: a revocation at the signing instant counts as revoked, one a millisecond later as good |
| PdfRevocation.OcspVerdict | pdf_verify_signatures/src/main/java/com/sauken/s_fide/pdf_verify_signatures/validation/RevocationValidator.java:60-78 | a decoded OCSP reply is good exactly when its status is null and revoked exactly when it is a revoked status |
| PdfRevocation.FirstOkBody | pdf_verify_signatures/src/main/java/com/sauken/s_fide/pdf_verify_signatures/validation/RevocationValidator.java:43-58 | the body of the first URL answering HTTP 200, and none exactly when no URL does |
| PdfRevocation.CheckOcspUrls | pdf_verify_signatures/src/main/java/com/sauken/s_fide/pdf_verify_signatures/validation/RevocationValidator.java:38-79 | the loop stops at the first 200 reply and decodes only that one; no such reply, or no request, is unknown |
| PdfRevocation.OnlyFirstOkReplyDecoded | pdf_verify_signatures/src/main/java/com/sauken/s_fide/pdf_verify_signatures/validation/RevocationValidator.java:51-54 | when URL k is the first to answer 200, its reply alone decides the OCSP verdict |
| PdfRevocation.CrlUrlVerdict | pdf_verify_signatures/src/main/java/com/sauken/s_fide/pdf_verify_signatures/validation/RevocationValidator.java:88-97 | one CRL reply decides revoked exactly when it answers 200 and lists the serial before the validation date, and good exactly when it answers 200 without listing it; otherwise the next URL is tried |
| PdfRevocation.FirstCrlVerdict | pdf_verify_signatures/src/main/java/com/sauken/s_fide/pdf_verify_signatures/validation/RevocationValidator.java:84-102 | the first URL whose reply decides gives the verdict; none exactly when no reply decides |
| PdfRevocation.CheckCrlUrls | pdf_verify_signatures/src/main/java/com/sauken/s_fide/pdf_verify_signatures/validation/RevocationValidator.java:81-107 | the loop returns the first decisive CRL verdict, or unknown |
| PdfRevocation.CrlRevokedMeansListedBefore | pdf_verify_signatures/src/main/java/com/sauken/s_fide/pdf_verify_signatures/validation/RevocationValidator.java:93-94 | a revoked CRL verdict means some CRL answered 200 and listed the serial strictly before the validation date |
| PdfRevocation.LaterRevocationIsUnknown | pdf_verify_signatures/src/main/java/com/sauken/s_fide/pdf_verify_signatures/validation/RevocationValidator.java:93-97 | a CRL that lists the serial at or after the validation date decides nothing, so a single such URL leaves the status unknown |
| PdfRevocation.CheckCertificateRevocationNow | pdf_verify_signatures/src/main/java/com/sauken/s_fide/pdf_verify_signatures/validation/RevocationValidator.java:21-36 | OCSP first; only an unknown OCSP verdict falls back to CRL |
| PdfRevocation.CombinedDecision | pdf_verify_signatures/src/main/java/com/sauken/s_fide/pdf_verify_signatures/validation/RevocationValidator.java:21-36 | the status is unknown exactly when OCSP is unknown and no CRL decides; an OCSP verdict does not depend on the validation date |
| PdfRevocation.BoundaryDiffersFromXml | pdf_verify_signatures/src/main/java/com/sauken/s_fide/pdf_verify_signatures/validation/RevocationValidator.java:93-94 | at the boundary the verifiers differ: a CRL listing the serial exactly at signing is revoked for the XML verifier and undecided for the PDF one, and a later OCSP revocation is good for the XML verifier and revoked for the PDF one |
| SigningTime.DeclarationNamed | xml_verify_signatures/src/main/java/com/sauken/s_fide/xml_verify_signatures/timestamp/SignatureTimeExtractor.java:114-125 | only the Reference URIs "COD" and "CODEH" name a declaration, each its own |
| SigningTime.ExtractDeclaredDate | xml_verify_signatures/src/main/java/com/sauken/s_fide/xml_verify_signatures/timestamp/SignatureTimeExtractor.java:135-229 | fallback to now with a message exactly when something is missing: the date element absent or blank (each with its message), the country absent, an unparseable date or an unsupported country; otherwise the parsed date |
| SigningTime.ExtractSigningTime | xml_verify_signatures/src/main/java/com/sauken/s_fide/xml_verify_signatures/timestamp/SignatureTimeExtractor.java:83-133 | no Reference, an empty URI and an unknown URI each fall back to now with their own message; a fallback always carries a message and "now" |
| SigningTime.ResolvedImpliesNamed | xml_verify_signatures/src/main/java/com/sauken/s_fide/xml_verify_signatures/timestamp/SignatureTimeExtractor.java:83-229 | a signing time not taken from the clock is the date the document itself declares, in a supported country |
| SigningTime.NamedImpliesResolved | xml_verify_signatures/src/main/java/com/sauken/s_fide/xml_verify_signatures/timestamp/SignatureTimeExtractor.java:83-229 | whenever the document declares a usable date, that date is the signing time |
| SigningTime.OnlyOneHashIsStripped | xml_verify_signatures/src/main/java/com/sauken/s_fide/xml_verify_signatures/timestamp/SignatureTimeExtractor.java:106-108 | only one leading '#' is removed, so "##COD" is an unknown reference |
| Timezones.ConvertToUtc | xml_verify_signatures/src/main/java/com/sauken/s_fide/xml_verify_signatures/timestamp/TimezoneConverter.java:82-106 | the conversion succeeds exactly for the thirteen supported country codes in any case, and leaves the instant unchanged; otherwise the unsupported-code error naming the code |
| Timezones.GetCountryCode | xml_verify_signatures/src/main/java/com/sauken/s_fide/xml_verify_signatures/timestamp/TimezoneConverter.java:113-141 | a name is known exactly when its upper-case form is in the table, and every code returned is one convertToUTC supports |
| Timezones.CountryCodeIgnoresCase | xml_verify_signatures/src/main/java/com/sauken/s_fide/xml_verify_signatures/timestamp/TimezoneConverter.java:136-140 | a name and its lower-case form give the same answer |
| Timezones.ConvertIgnoresCase | xml_verify_signatures/src/main/java/com/sauken/s_fide/xml_verify_signatures/timestamp/TimezoneConverter.java:87-90 | a code and its lower-case form are supported alike |
| Timezones.AccentedNamesAgree | xml_verify_signatures/src/main/java/com/sauken/s_fide/xml_verify_signatures/timestamp/TimezoneConverter.java:126-133 | "México", "Panamá" and "Perú" map like their unaccented spellings |
| Timezones.NameThenConvert | xml_verify_signatures/src/main/java/com/sauken/s_fide/xml_verify_signatures/timestamp/TimezoneConverter.java:113-141 | converting with any code getCountryCode returns always succeeds |
| XmlVerifySignatures.DigestAlgorithmName | xml_verify_signatures/src/main/java/com/sauken/s_fide/xml_verify_signatures/XMLVerifySignatures.java:316-335 | no reference gives "No especificado" and an unreadable one "Desconocido"; SHA1 and SHA256 are named; any other URI gives its text after the last '#', or the whole URI when it has none |
| XmlVerifySignatures.SelectKey | xml_verify_signatures/src/main/java/com/sauken/s_fide/xml_verify_signatures/XMLVerifySignatures.java:595-614 | the selected key is valid and belongs to a certificate of some X509Data; a failed selection with KeyInfo present means no certificate key is valid |
| XmlVerifySignatures.UnsupportedAlgorithmHasNoKey | xml_verify_signatures/src/main/java/com/sauken/s_fide/xml_verify_signatures/XMLVerifySignatures.java:616-627 | no key is ever selected for an algorithm outside rsa-sha1 and rsa-sha256 |
| XmlVerifySignatures.ValidateReferences | xml_verify_signatures/src/main/java/com/sauken/s_fide/xml_verify_signatures/XMLVerifySignatures.java:337-359 | the references are valid exactly when every one of them validates |
| XmlVerifySignatures.FirstConclusiveOcsp | xml_verify_signatures/src/main/java/com/sauken/s_fide/xml_verify_signatures/XMLVerifySignatures.java:442-454 | the first OCSP URL whose answer is not unknown decides; none exactly when every URL is unknown |
| XmlVerifySignatures.FirstConclusiveCrl | xml_verify_signatures/src/main/java/com/sauken/s_fide/xml_verify_signatures/XMLVerifySignatures.java:457-471 | the first CRL URL whose answer is not unknown decides; none exactly when every URL is unknown |
| XmlVerifySignatures.ValidateRevocationStatus | xml_verify_signatures/src/main/java/com/sauken/s_fide/xml_verify_signatures/XMLVerifySignatures.java:418-476 | revoked exactly when the decisive answer, OCSP first and then CRL, is revoked |
| XmlVerifySignatures.TryOcspUrls | xml_verify_signatures/src/main/java/com/sauken/s_fide/xml_verify_signatures/XMLVerifySignatures.java:442-454 | the OCSP loop returns the first conclusive answer |
| XmlVerifySignatures.TryCrlUrls | xml_verify_signatures/src/main/java/com/sauken/s_fide/xml_verify_signatures/XMLVerifySignatures.java:457-471 | the CRL loop returns the first conclusive answer |
| XmlVerifySignatures.OfflineNeverRevoked | xml_verify_signatures/src/main/java/com/sauken/s_fide/xml_verify_signatures/XMLVerifySignatures.java:419-422 | without network access no certificate is reported revoked |
| XmlVerifySignatures.RevokedMeansRevokedAtSigning | xml_verify_signatures/src/main/java/com/sauken/s_fide/xml_verify_signatures/XMLVerifySignatures.java:418-476 | a revoked verdict carries a revocation instant at or before the resolved signing instant |
| XmlVerifySignatures.NoIssuerMeansCrlDecides | xml_verify_signatures/src/main/java/com/sauken/s_fide/xml_verify_signatures/XMLVerifySignatures.java:438-471 | when the issuer is not in the trust store, only a CRL can decide |
| XmlVerifySignatures.OcspTakesPrecedence | xml_verify_signatures/src/main/java/com/sauken/s_fide/xml_verify_signatures/XMLVerifySignatures.java:441-456 | once some OCSP URL answers conclusively, the decision is an OCSP one |
| XmlVerifySignatures.LastDataFirstCertificate | xml_verify_signatures/src/main/java/com/sauken/s_fide/xml_verify_signatures/XMLVerifySignatures.java:293-305 | locates the certificate the short report checks: none exactly when no X509Data holds a certificate |
| XmlVerifySignatures.SimpleModeRevoked | xml_verify_signatures/src/main/java/com/sauken/s_fide/xml_verify_signatures/XMLVerifySignatures.java:292-305 | the short report's loop, as written: the revocation outcome of the first certificate of the LAST X509Data holding one prevails |
| XmlVerifySignatures.ModesDisagreeOnTwoX509Data | xml_verify_signatures/src/main/java/com/sauken/s_fide/xml_verify_signatures/XMLVerifySignatures.java:292-305 | with two X509Data the full report checks the first certificate and the short report the second |
| XmlVerifySignatures.ModesAgreeOnOneX509Data | xml_verify_signatures/src/main/java/com/sauken/s_fide/xml_verify_signatures/XMLVerifySignatures.java:396-411 | with a single X509Data holding certificates, both reports check the same certificate |
| XmlVerifySignatures.VerifySignature | xml_verify_signatures/src/main/java/com/sauken/s_fide/xml_verify_signatures/XMLVerifySignatures.java:262-314 | one signature is accepted exactly when it unmarshals, a key is selected, its value and every reference validate, and the certificate the output mode checks is not revoked at signing: the first certificate in the full report, the first certificate of the last X509Data holding one in the short report |
| XmlVerifySignatures.AcceptedSignatureIsSound | xml_verify_signatures/src/main/java/com/sauken/s_fide/xml_verify_signatures/XMLVerifySignatures.java:285-308 | in either output mode, an accepted signature unmarshalled, had a valid key, a valid value, all references valid, and the certificate that mode checks was not revoked at the signing instant |
| XmlVerifySignatures.CorrectedVerdictIsSound | xml_verify_signatures/src/main/java/com/sauken/s_fide/xml_verify_signatures/XMLVerifySignatures.java:292-305 | a signature accepted by the corrected verdict, which checks the first certificate in both reports, has a first certificate not revoked at the signing instant |
| XmlVerifySignatures.SimpleVerdictCorrectOnOneX509Data | xml_verify_signatures/src/main/java/com/sauken/s_fide/xml_verify_signatures/XMLVerifySignatures.java:285-305 | when exactly one KeyInfo item holds certificates, the short report gives the same verdict as the corrected one |
| XmlVerifySignatures.VerifyXmlSignatures | xml_verify_signatures/src/main/java/com/sauken/s_fide/xml_verify_signatures/XMLVerifySignatures.java:172-217 | no signature element is reported as such; otherwise, in the chosen output mode, grave errors are reported exactly when some signature fails or raises |
| XmlVerifySignatures.ParseArguments | xml_verify_signatures/src/main/java/com/sauken/s_fide/xml_verify_signatures/XMLVerifySignatures.java:111-145 | no argument is a usage error and more than two give the wrong-count message followed by a blank line and the help text; a second argument must be "-simple" in any case and selects the short report, any other gives the invalid-argument message naming it, followed by the help text |
| XmlVerifySignatures.OptionsIgnoreCase | xml_verify_signatures/src/main/java/com/sauken/s_fide/xml_verify_signatures/XMLVerifySignatures.java:117-132 | the single-argument options are recognised in any case; any other single argument is a file to verify in full mode |
| XmlVerifySignatures.Run | xml_verify_signatures/src/main/java/com/sauken/s_fide/xml_verify_signatures/XMLVerifySignatures.java:100-160 | exit 0 exactly for an option, or for a document with signatures none of which has a grave error in the output mode the arguments select |
| PdfVerifySignatures.ExtractCNFound | pdf_verify_signatures/src/main/java/com/sauken/s_fide/pdf_verify_signatures/PDFVerifySignatures.java:267-274 | extractCN never contains a comma, and is empty exactly when the name has no CN or an empty one |
| PdfVerifySignatures.ExtractCNOfLeadingCN | pdf_verify_signatures/src/main/java/com/sauken/s_fide/pdf_verify_signatures/PDFVerifySignatures.java:267-274 | a name that starts with "CN=" + v gives v |
| PdfVerifySignatures.ExtractOOfLeadingO | pdf_verify_signatures/src/main/java/com/sauken/s_fide/pdf_verify_signatures/PDFVerifySignatures.java:276-283 | a name that starts with "O=" + v gives v |
| PdfVerifySignatures.AcceptedExactly | pdf_verify_signatures/src/main/java/com/sauken/s_fide/pdf_verify_signatures/PDFVerifySignatures.java:188-229 | a signature is accepted exactly when it is readable, intact, has a signing certificate with a trusted issuer CN and a sign date, and is not revoked (unknown is accepted) |
| PdfVerifySignatures.SelfSignedIssuerRejected | pdf_verify_signatures/src/main/java/com/sauken/s_fide/pdf_verify_signatures/PDFVerifySignatures.java:205-212 | an issuer CN "Self Signed" makes the signature invalid |
| PdfVerifySignatures.SelfSignedNotTrusted | pdf_verify_signatures/src/main/java/com/sauken/s_fide/pdf_verify_signatures/PDFVerifySignatures.java:206-208 | an issuer whose CN is "Self Signed" is not trusted |
| PdfVerifySignatures.RevokedAtSigningInstantAccepted | pdf_verify_signatures/src/main/java/com/sauken/s_fide/pdf_verify_signatures/PDFVerifySignatures.java:214-222 | a certificate listed in the CRL exactly at the signing instant is still accepted |
| PdfVerifySignatures.VerifyPdfSignatures | pdf_verify_signatures/src/main/java/com/sauken/s_fide/pdf_verify_signatures/PDFVerifySignatures.java:143-186 | no signature is an error; otherwise the document has errors exactly when some signature fails or raises |
| PdfVerifySignatures.ParseArguments | pdf_verify_signatures/src/main/java/com/sauken/s_fide/pdf_verify_signatures/PDFVerifySignatures.java:98-123 | only no argument is a usage error; the first argument is the file, and a second "-simple" in any case selects the short report |
| PdfVerifySignatures.ExtraArgumentsIgnored | pdf_verify_signatures/src/main/java/com/sauken/s_fide/pdf_verify_signatures/PDFVerifySignatures.java:120-123 | arguments after the second are ignored, where the XML verifier refuses them |
| PdfVerifySignatures.Run | pdf_verify_signatures/src/main/java/com/sauken/s_fide/pdf_verify_signatures/PDFVerifySignatures.java:93-131 | exit 0 exactly for an option, or for a document with signatures none of which fails |
| XsdDownloader.SplitOnSpaces | xml_verify_xsd_structure/src/main/java/com/sauken/s_fide/xml_verify_xsd_structure/utils/XSDDownloader.java:94 | on a string that does not start with white space, the regex split gives exactly its white-space-separated words |
| XsdDownloader.NormalizeUrl | xml_verify_xsd_structure/src/main/java/com/sauken/s_fide/xml_verify_xsd_structure/utils/XSDDownloader.java:123-130 | the result is null exactly for a null or blank URL; otherwise it is the trimmed URL, non-empty and with no space at either end |
| XsdDownloader.NormalizedIsNormal | xml_verify_xsd_structure/src/main/java/com/sauken/s_fide/xml_verify_xsd_structure/utils/XSDDownloader.java:123-130 | a normalised URL is not blank and trimming it again changes nothing |
| XsdDownloader.NormalizeUrlIdempotent | xml_verify_xsd_structure/src/main/java/com/sauken/s_fide/xml_verify_xsd_structure/utils/XSDDownloader.java:123-130 | normalising twice gives what normalising once gives |
| XsdDownloader.LocationIsNormal | xml_verify_xsd_structure/src/main/java/com/sauken/s_fide/xml_verify_xsd_structure/utils/XSDDownloader.java:74-121 | whichever of the four hints supplies the location, the location returned is non-blank and already trimmed |
| XsdDownloader.ElementsNeverRead | xml_verify_xsd_structure/src/main/java/com/sauken/s_fide/xml_verify_xsd_structure/utils/XSDDownloader.java:89-118 | as written, the schemaLocation and noNamespaceSchemaLocation elements never change the result, because getNodeValue of an element is null |
| XsdDownloader.ElementOnlyHintLost | xml_verify_xsd_structure/src/main/java/com/sauken/s_fide/xml_verify_xsd_structure/utils/XSDDownloader.java:111-118 | a document whose only hint is a noNamespaceSchemaLocation element yields no location as written, while reading the element's text yields its URL |
| XsdDownloader.SchemaLocationPairWins | xml_verify_xsd_structure/src/main/java/com/sauken/s_fide/xml_verify_xsd_structure/utils/XSDDownloader.java:79-86 | a schemaLocation attribute holding a namespace and a URL yields that URL, whatever the other hints say, both as written and when elements are read through their text |
| XsdDownloader.PairElementReadFromText | xml_verify_xsd_structure/src/main/java/com/sauken/s_fide/xml_verify_xsd_structure/utils/XSDDownloader.java:89-99 | a schemaLocation element holding a namespace-URL pair yields the URL when read through its text, and as written is treated as if it were absent |
| XsdDownloader.SingleTokenFallsThrough | xml_verify_xsd_structure/src/main/java/com/sauken/s_fide/xml_verify_xsd_structure/utils/XSDDownloader.java:80-86 | a schemaLocation attribute holding one token only is ignored: the result is the one for an empty attribute |
| XsdDownloader.NoNamespaceLocationUsed | xml_verify_xsd_structure/src/main/java/com/sauken/s_fide/xml_verify_xsd_structure/utils/XSDDownloader.java:101-108 | without a schemaLocation attribute, a noNamespaceSchemaLocation attribute gives its URL |
| XsdDownloader.Candidates | xml_verify_xsd_structure/src/main/java/com/sauken/s_fide/xml_verify_xsd_structure/utils/XSDDownloader.java:142-158 | the URL itself is always tried first, and a second candidate is added exactly when the URL starts with http:// or https:// |
| XsdDownloader.CandidatesSwapScheme | xml_verify_xsd_structure/src/main/java/com/sauken/s_fide/xml_verify_xsd_structure/utils/XSDDownloader.java:146-158 | the second candidate of an http:// URL is the same address over https://, and the other way round |
| XsdDownloader.FirstDownload | xml_verify_xsd_structure/src/main/java/com/sauken/s_fide/xml_verify_xsd_structure/utils/XSDDownloader.java:160-169 | no file is downloaded exactly when every candidate fails; a file downloaded is the one from the first candidate that succeeds, after all earlier ones failed |
| XsdDownloader.DownloadXsd | xml_verify_xsd_structure/src/main/java/com/sauken/s_fide/xml_verify_xsd_structure/utils/XSDDownloader.java:132-173 | the method's loop over the candidates ends with DownloadOutcome: offline, invalid URL, the first successful download, or the last candidate's failure |
| XsdDownloader.DownloadedExactly | xml_verify_xsd_structure/src/main/java/com/sauken/s_fide/xml_verify_xsd_structure/utils/XSDDownloader.java:132-173 | online and with a valid URL, the download succeeds exactly when some candidate downloads, and a URL that downloads at once is the file returned |
| XsdDownloader.HttpFallsBackToHttps | xml_verify_xsd_structure/src/main/java/com/sauken/s_fide/xml_verify_xsd_structure/utils/XSDDownloader.java:146-169 | an http:// URL that fails is downloaded over https:// when that succeeds |
| XsdDownloader.SecondCandidateUsed | xml_verify_xsd_structure/src/main/java/com/sauken/s_fide/xml_verify_xsd_structure/utils/XSDDownloader.java:161-169 | when the first candidate fails and the second succeeds, the second candidate's file is the one returned |
| XsdDownloader.AllFailedCarriesLastCause | xml_verify_xsd_structure/src/main/java/com/sauken/s_fide/xml_verify_xsd_structure/utils/XSDDownloader.java:171-172 | when every candidate fails, the failure carries the last attempt's error as its cause |
| XmlErrorHandler.Report | xml_verify_xsd_structure/src/main/java/com/sauken/s_fide/xml_verify_xsd_structure/handlers/XMLErrorHandler.java:96-104 | nothing is printed without errors; otherwise a header with the count comes first, then one line per error, in order |
| XmlErrorHandler.ErrorLines | xml_verify_xsd_structure/src/main/java/com/sauken/s_fide/xml_verify_xsd_structure/handlers/XMLErrorHandler.java:99-102 | one line per error, each in the same position as its error |
| XmlErrorHandler.ErrorHandler.constructor | xml_verify_xsd_structure/src/main/java/com/sauken/s_fide/xml_verify_xsd_structure/handlers/XMLErrorHandler.java:63 | a new handler holds no errors |
| XmlErrorHandler.ErrorHandler.Warning | xml_verify_xsd_structure/src/main/java/com/sauken/s_fide/xml_verify_xsd_structure/handlers/XMLErrorHandler.java:75-77 | a warning is only printed and leaves the error list unchanged |
| XmlErrorHandler.ErrorHandler.Error | xml_verify_xsd_structure/src/main/java/com/sauken/s_fide/xml_verify_xsd_structure/handlers/XMLErrorHandler.java:80-83 | an error is appended to the list |
| XmlErrorHandler.ErrorHandler.FatalError | xml_verify_xsd_structure/src/main/java/com/sauken/s_fide/xml_verify_xsd_structure/handlers/XMLErrorHandler.java:86-90 | a fatal error is appended to the list and then thrown back to the validator |
| XmlErrorHandler.ErrorHandler.HasErrors | xml_verify_xsd_structure/src/main/java/com/sauken/s_fide/xml_verify_xsd_structure/handlers/XMLErrorHandler.java:92-94 | true exactly when at least one error or fatal error was recorded |
| XmlErrorHandler.ErrorHandler.PrintMessages | xml_verify_xsd_structure/src/main/java/com/sauken/s_fide/xml_verify_xsd_structure/handlers/XMLErrorHandler.java:96-104 | the loop prints exactly the report of the recorded errors |
| XmlErrorHandler.Kept | xml_verify_xsd_structure/src/main/java/com/sauken/s_fide/xml_verify_xsd_structure/handlers/XMLErrorHandler.java:74-90 | the handler keeps no more errors than it receives events, and keeps none exactly when every event is a warning |
| XmlErrorHandler.FirstFatal | xml_verify_xsd_structure/src/main/java/com/sauken/s_fide/xml_verify_xsd_structure/handlers/XMLErrorHandler.java:86-90 | the position of the first fatal event, or the end when there is none: validation stops there |
| XmlErrorHandler.Handle | xml_verify_xsd_structure/src/main/java/com/sauken/s_fide/xml_verify_xsd_structure/XMLVerifyXSDStructure.java:254-266 | validation is interrupted exactly when some event is fatal; errors are reported when an error precedes the first fatal event or validation was interrupted; and the document passes exactly when every event is a warning |
| XsdStructure.PathPart | xml_verify_xsd_structure/src/main/java/com/sauken/s_fide/xml_verify_xsd_structure/XMLVerifyXSDStructure.java:115-119 | the part before the first '?' is a prefix of the URL without any '?', followed in the URL by the '?' when there is one |
| XsdStructure.ExtractFileNameFromUrl | xml_verify_xsd_structure/src/main/java/com/sauken/s_fide/xml_verify_xsd_structure/XMLVerifyXSDStructure.java:114-125 | the name has no '/' and no '?', ends the path part of the URL, and comes right after the path's last '/' when there is one |
| XsdStructure.ExtractFileNameIdempotent | xml_verify_xsd_structure/src/main/java/com/sauken/s_fide/xml_verify_xsd_structure/XMLVerifyXSDStructure.java:114-125 | extracting the file name of a file name gives it back |
| XsdStructure.FileNameOfQueryUrl | xml_verify_xsd_structure/src/main/java/com/sauken/s_fide/xml_verify_xsd_structure/XMLVerifyXSDStructure.java:114-125 | for prefix/name?query the name is extracted, whatever the query holds |
| XsdStructure.FirstValidKeyValue | xml_verify_xsd_structure/src/main/java/com/sauken/s_fide/xml_verify_xsd_structure/utils/X509KeySelector.java:100-114 | a key found is a KeyValue key of the KeyInfo that fits the algorithm, and none is found exactly when no KeyValue key fits |
| XsdStructure.SelectKey | xml_verify_xsd_structure/src/main/java/com/sauken/s_fide/xml_verify_xsd_structure/utils/X509KeySelector.java:74-118 | the method's loops end with KeySelection: the first fitting certificate key, else the first fitting KeyValue key, else an error |
| XsdStructure.KeySelectionExact | xml_verify_xsd_structure/src/main/java/com/sauken/s_fide/xml_verify_xsd_structure/utils/X509KeySelector.java:74-118 | a key is selected exactly when a certificate or a KeyValue key fits the algorithm; a fitting certificate key is preferred; a selected key always fits |
| XsdStructure.WiderThanVerifierSelection | xml_verify_xsd_structure/src/main/java/com/sauken/s_fide/xml_verify_xsd_structure/utils/X509KeySelector.java:74-118 | this selector agrees with the signature verifier's selector whenever that one succeeds, and also accepts a bare KeyValue key that the verifier's selector refuses |
| XsdStructure.VerifySignature | xml_verify_xsd_structure/src/main/java/com/sauken/s_fide/xml_verify_xsd_structure/XMLVerifyXSDStructure.java:338-403 | a signature is valid exactly when it unmarshals, a key is selected for its algorithm, its value validates and every reference validates; any failure on the way makes it invalid |
| XsdStructure.VerifierAcceptanceCarriesOver | xml_verify_xsd_structure/src/main/java/com/sauken/s_fide/xml_verify_xsd_structure/XMLVerifyXSDStructure.java:338-403 | a signature the signature verifier accepts, in either output mode, is also valid for the structure tool |
| XsdStructure.VerifyXmlSignatures | xml_verify_xsd_structure/src/main/java/com/sauken/s_fide/xml_verify_xsd_structure/XMLVerifyXSDStructure.java:321-336 | the document's signatures pass exactly when there is at least one and every one is valid |
| XsdStructure.ValidateAgainstXsd | xml_verify_xsd_structure/src/main/java/com/sauken/s_fide/xml_verify_xsd_structure/XMLVerifyXSDStructure.java:236-267 | the document conforms exactly when the schema compiles and the validator raises warnings only |
| XsdStructure.ParseArguments | xml_verify_xsd_structure/src/main/java/com/sauken/s_fide/xml_verify_xsd_structure/XMLVerifyXSDStructure.java:136-168 | no argument or more than two is a usage error; otherwise the first argument is the XML file and a second one, when given, the XSD file; an option is recognised only alone |
| XsdStructure.LoneFileArgument | xml_verify_xsd_structure/src/main/java/com/sauken/s_fide/xml_verify_xsd_structure/XMLVerifyXSDStructure.java:145-168 | a single argument that is not an option is the XML file, with no XSD given |
| XsdStructure.ChooseXsd | xml_verify_xsd_structure/src/main/java/com/sauken/s_fide/xml_verify_xsd_structure/XMLVerifyXSDStructure.java:179-211 | the schema is the given file, else the one downloaded from the location extractXSDUrlFromXML reads from the hints (elements through their node value, which gives nothing); the note is printed exactly when a file was given and its name differs from the one the document references |
| XsdStructure.Run | xml_verify_xsd_structure/src/main/java/com/sauken/s_fide/xml_verify_xsd_structure/XMLVerifyXSDStructure.java:132-234 | the exit status is main's: options exit 0, a usage error, a missing document or schema 1, otherwise 0 exactly when the schema check passes and the document holds signatures, all valid; the name note is printed exactly when a given XSD file exists and its name differs from the referenced one |
| XsdStructure.SuccessMeansValidated | xml_verify_xsd_structure/src/main/java/com/sauken/s_fide/xml_verify_xsd_structure/XMLVerifyXSDStructure.java:213-228 | a zero exit status on a validation run means the XML exists, every one of its (at least one) signatures is valid, a schema was found and the document conforms to it |
| XsdStructure.NoSchemaFails | xml_verify_xsd_structure/src/main/java/com/sauken/s_fide/xml_verify_xsd_structure/XMLVerifyXSDStructure.java:199-211 | without an XSD argument, a document whose schema location is missing or cannot be downloaded fails |
| XsdStructure.ElementOnlyHintFails | xml_verify_xsd_structure/src/main/java/com/sauken/s_fide/xml_verify_xsd_structure/XMLVerifyXSDStructure.java:177-211 | a lone document argument whose only schema hint is a noNamespaceSchemaLocation element exits 1 although the corrected reading of the hints would download its schema |
| XsdStructure.UnsignedDocumentFails | xml_verify_xsd_structure/src/main/java/com/sauken/s_fide/xml_verify_xsd_structure/XMLVerifyXSDStructure.java:321-336 | a document without any signature always fails |
| XmlSigner.ParseArguments | xml_signer_pkcs11/src/main/java/com/sauken/s_fide/xml_signer_pkcs11/XMLSignerPKCS11.java:106-150 | a signing request is read exactly when there are as many arguments as the tool needs and, for the token signer, the slot parses as an integer; the fields come from their positions, and an option is only recognised alone |
| XmlSigner.TokenArgumentsRoundTrip | xml_signer_pkcs11/src/main/java/com/sauken/s_fide/xml_signer_pkcs11/XMLSignerPKCS11.java:135-146 | five arguments whose slot is a printed 32-bit integer are read back as that very request |
| XmlSigner.NonNumericSlotRejected | xml_signer_pkcs11/src/main/java/com/sauken/s_fide/xml_signer_pkcs11/XMLSignerPKCS11.java:142-146 | five arguments whose slot is not an integer are refused with the numeric-slot message |
| XmlSigner.WrongCountRejected | xml_signer_pkcs12/src/main/java/com/sauken/s_fide/xml_signer_pkcs12/XMLSignerPKCS12.java:124-126 | more than one argument, but not as many as the tool needs, is refused with the wrong-count message |
| XmlSigner.OptionsIgnoreCase | xml_signer_pkcs12/src/main/java/com/sauken/s_fide/xml_signer_pkcs12/XMLSignerPKCS12.java:108-121 | a lone option is recognised whatever its case, and to the same effect |
| XmlSigner.OutputFileNameBeforeLastDot | xml_signer_pkcs11/src/main/java/com/sauken/s_fide/xml_signer_pkcs11/XMLSignerPKCS11.java:203-210 | when the path's last '.' is not its first character, "-signed" is inserted right before that '.' |
| XmlSigner.OutputFileNameAppends | xml_signer_pkcs11/src/main/java/com/sauken/s_fide/xml_signer_pkcs11/XMLSignerPKCS11.java:203-210 | when no '.' follows the first character, "-signed" is appended |
| XmlSigner.OutputFileNameLeavesDirectory | xml_signer_pkcs11/src/main/java/com/sauken/s_fide/xml_signer_pkcs11/XMLSignerPKCS11.java:203-210 | as written, the last '.' may belong to a directory: out.d/doc is written as out-signed.d/doc, in another directory |
| XmlSigner.SiblingOutputFileNameKeepsDirectory | xml_signer_pkcs11/src/main/java/com/sauken/s_fide/xml_signer_pkcs11/XMLSignerPKCS11.java:203-210 | the corrected name keeps the input's directory and applies the rule to the file name only, which gets no '/' |
| XmlSigner.OutputFileNameChars | xml_signer_pkcs12/src/main/java/com/sauken/s_fide/xml_signer_pkcs12/XMLSignerPKCS12.java:381-388 | the output name is made of characters of the input name and of "-signed" only |
| XmlSigner.SiblingOutputFileNameAgrees | xml_signer_pkcs12/src/main/java/com/sauken/s_fide/xml_signer_pkcs12/XMLSignerPKCS12.java:381-388 | when the last '.' lies inside the file name past its first character, the corrected name is the name as written |
| XmlSigner.SiblingOutputFileNameExample | xml_signer_pkcs11/src/main/java/com/sauken/s_fide/xml_signer_pkcs11/XMLSignerPKCS11.java:203-210 | the corrected name of out.d/doc is out.d/doc-signed |
| XmlSigner.XmlDeclarationShape | xml_signer_pkcs11/src/main/java/com/sauken/s_fide/xml_signer_pkcs11/XMLSignerPKCS11.java:284-289 | a declaration is kept exactly when the content starts with "<?xml" and contains "?>"; it is the prefix of the content through its first "?>" |
| XmlSigner.DeclarationEndIsLate | xml_signer_pkcs11/src/main/java/com/sauken/s_fide/xml_signer_pkcs11/XMLSignerPKCS11.java:284-289 | the first "?>" of a document that starts with "<?xml" lies after that opening, so the declaration is at least "<?xml?>" |
| XmlSigner.PlainTextKept | xml_signer_pkcs11/src/main/java/com/sauken/s_fide/xml_signer_pkcs11/XMLSignerPKCS11.java:425 | removing the carriage-return reference leaves text without '&' unchanged |
| XmlSigner.TargetDropped | xml_signer_pkcs11/src/main/java/com/sauken/s_fide/xml_signer_pkcs11/XMLSignerPKCS11.java:425 | the carriage-return reference is dropped and the text around it is kept |
| XmlSigner.SavedOutputDropsCarriageReturns | xml_signer_pkcs11/src/main/java/com/sauken/s_fide/xml_signer_pkcs11/XMLSignerPKCS11.java:411-435 | the file written is the declaration, a line break, and the serialized document without its carriage-return references; without a declaration only the document |
| XmlSigner.CleanUriOfReferenceUri | xml_signer_pkcs11/src/main/java/com/sauken/s_fide/xml_signer_pkcs11/XMLSignerPKCS11.java:376-390 | the existence check reads back the id the reference points at, and the reference is empty exactly for the whole document |
| XmlSigner.FirstMatch | xml_signer_pkcs11/src/main/java/com/sauken/s_fide/xml_signer_pkcs11/XMLSignerPKCS11.java:444-457 | the element found is the first in document order whose Id, id or ID attribute or tag name equals the id, and none is found when no element does |
| XmlSigner.FindElementByAttributeId | xml_signer_pkcs11/src/main/java/com/sauken/s_fide/xml_signer_pkcs11/XMLSignerPKCS11.java:438-458 | the DOM's own id lookup, which answers an element carrying the id in an Id, id or ID attribute whenever one does, wins; otherwise the loop returns the first matching element in document order; an element found matches the id, and nothing is found only when no element matches |
| XmlSigner.FallbackMatchesTagName | xml_signer_pkcs11/src/main/java/com/sauken/s_fide/xml_signer_pkcs11/XMLSignerPKCS11.java:357-373 | once every Id, id and ID attribute is registered, the loop of the search can only find an element by its tag name |
| XmlSigner.ExistsIffFound | xml_signer_pkcs11/src/main/java/com/sauken/s_fide/xml_signer_pkcs11/XMLSignerPKCS11.java:376-458 | for an id without '#' on elements without namespace prefixes, the existence check passes exactly when the search finds an element |
| XmlSigner.MatchesAgree | xml_signer_pkcs12/src/main/java/com/sauken/s_fide/xml_signer_pkcs12/XMLSignerPKCS12.java:350-373 | on one element without a prefix, the XPath test and the search's test agree for a non-empty id |
| XmlSigner.HashPrefixedIdPassesCheckOnly | xml_signer_pkcs11/src/main/java/com/sauken/s_fide/xml_signer_pkcs11/XMLSignerPKCS11.java:376-458 | an id typed with a leading '#' passes the existence check, but the search does not find it and the reference points at "##" followed by the id |
| XmlSigner.PrefixedNamePassesCheckOnly | xml_signer_pkcs12/src/main/java/com/sauken/s_fide/xml_signer_pkcs12/XMLSignerPKCS12.java:342-379 | an element with a namespace prefix passes the existence check by its local name, but the search, comparing the qualified name, does not find it |
| XmlSigner.PlanSignatureCases | xml_signer_pkcs11/src/main/java/com/sauken/s_fide/xml_signer_pkcs11/XMLSignerPKCS11.java:278-410 | signing the whole document always succeeds, with an empty reference and the signature last in the root; signing an element succeeds exactly when it passes the existence check and the DOM's id lookup gives an element other than the root, with the reference "#" + id and the signature right after the element; the root element fails because the signature would be a second document element, and an element found only by the search's loop fails because the reference cannot be resolved, each with the signing library's message |
| XmlSigner.Run | xml_signer_pkcs11/src/main/java/com/sauken/s_fide/xml_signer_pkcs11/XMLSignerPKCS11.java:96-104 | the exit status is 0 exactly after an option or a signing request that completes, file checks, key store, existence check, search and signing step included, and 1 otherwise |
| XmlSigner.KeyStoreFailureStopsRun | xml_signer_pkcs11/src/main/java/com/sauken/s_fide/xml_signer_pkcs11/XMLSignerPKCS11.java:247-276 | a key store that cannot be used stops the signing, whatever the document and URI |
| XmlSigner.TagNameMatchFails | xml_signer_pkcs11/src/main/java/com/sauken/s_fide/xml_signer_pkcs11/XMLSignerPKCS11.java:315-338 | a request naming an element by its tag name alone passes the existence check and the search yet fails at signing, with the unresolved-reference message, so the run exits 1 |
| XmlSigner.RootIdFails | xml_signer_pkcs11/src/main/java/com/sauken/s_fide/xml_signer_pkcs11/XMLSignerPKCS11.java:393-410 | a request naming the root element by its Id fails at signing, because the signature would become a second document element, so the run exits 1 |
| XmlSigner.CorrectedPlanSignsFoundElement | xml_signer_pkcs11/src/main/java/com/sauken/s_fide/xml_signer_pkcs11/XMLSignerPKCS11.java:393-458 | the corrected plan signs an element exactly when it passes the existence check and the search, keeps the signature inside the document (after a matching element other than the root, or last in the root), and agrees with the code wherever the code signs |
| PdfSigner.FlagOfIsSwitch | pdf_signer_pkcs11/src/main/java/com/sauken/s_fide/pdf_signer_pkcs11/PDFSignerPKCS11.java:180-208 | reading a token by its shape (dash and letter, or two dashes and a word) gives exactly the flag the switch's case labels give, for both signers |
| PdfSigner.ParsedArguments | pdf_signer_pkcs11/src/main/java/com/sauken/s_fide/pdf_signer_pkcs11/PDFSignerPKCS11.java:163-223 | too few arguments give no parameters, and the token signer's parameters always carry a slot that is not negative |
| PdfSigner.ParseArguments | pdf_signer_pkcs12/src/main/java/com/sauken/s_fide/pdf_signer_pkcs12/PDFSignerPKCS12.java:184-238 | the method's single index loop, with its early returns, ends with ParsedArguments, the parameters the flag scan defines |
| PdfSigner.HelpFirstGivesNone | pdf_signer_pkcs12/src/main/java/com/sauken/s_fide/pdf_signer_pkcs12/PDFSignerPKCS12.java:222-224 | a help flag as the first argument always gives no parameters |
| PdfSigner.RepeatedInputLastWins | pdf_signer_pkcs12/src/main/java/com/sauken/s_fide/pdf_signer_pkcs12/PDFSignerPKCS12.java:201-203 | an input flag given twice keeps the second value |
| PdfSigner.LockReadsBoolean | pdf_signer_pkcs12/src/main/java/com/sauken/s_fide/pdf_signer_pkcs12/PDFSignerPKCS12.java:210-212 | the value after the lock flag sets the lock exactly when it reads "true" in any case |
| PdfSigner.FlagsDiffer | pdf_signer_pkcs11/src/main/java/com/sauken/s_fide/pdf_signer_pkcs11/PDFSignerPKCS11.java:184-195 | "-l" is the library for the token signer and the lock for the file signer; "-k" locks only for the token signer |
| PdfSigner.GuiArgumentsLayout | s_fide_gui/src/main/java/com/sauken/s_fide/s_fide_gui/SFideGUI.java:1627-1640 | the graphical tool passes input, certificate, password and position in ten fixed positions, then the lock flag and its value, then the text when it is not blank |
| PdfSigner.GuiLockIsLost | s_fide_gui/src/main/java/com/sauken/s_fide/s_fide_gui/SFideGUI.java:1627-1634 | as written, the lock chosen in the graphical tool never reaches the PKCS#12 signer: "-k" and its value are skipped and the document is signed unlocked |
| PdfSigner.BooleanTextParses | s_fide_gui/src/main/java/com/sauken/s_fide/s_fide_gui/SFideGUI.java:1633 | the text of a boolean is read back as that boolean |
| PdfSigner.GuiLockKeptWhenFixed | pdf_signer_pkcs12/src/main/java/com/sauken/s_fide/pdf_signer_pkcs12/PDFSignerPKCS12.java:210-212 | with the lock sent under "-l", the signer locks exactly when the graphical tool asked for it |
| PdfSigner.Extension | pdf_signer_pkcs12/src/main/java/com/sauken/s_fide/pdf_signer_pkcs12/PDFSignerPKCS12.java:323-330 | the extension ends the name, is empty exactly when the name has no '.', and otherwise starts at its last '.' |
| PdfSigner.OutputPathShape | pdf_signer_pkcs12/src/main/java/com/sauken/s_fide/pdf_signer_pkcs12/PDFSignerPKCS12.java:320-332 | the output stays in the input's directory with its base name and extension, "-signed" between them; it is seven characters longer than the input and never the input |
| PdfSigner.NoDotAppends | pdf_signer_pkcs12/src/main/java/com/sauken/s_fide/pdf_signer_pkcs12/PDFSignerPKCS12.java:325-327 | a file name without '.' simply gets "-signed" appended |
| PdfSigner.NameFromDNCases | pdf_signer_pkcs12/src/main/java/com/sauken/s_fide/pdf_signer_pkcs12/PDFSignerPKCS12.java:475-482 | a name starting with a "CN=" piece gives that piece's value; a name without any "CN=" piece is shown whole |
| PdfSigner.FieldNameIsClean | pdf_signer_pkcs12/src/main/java/com/sauken/s_fide/pdf_signer_pkcs12/PDFSignerPKCS12.java:376-378 | the field name is "Signature_", the signer's name with every character outside [a-zA-Z0-9] turned into '_', then "_" and the time, and the name keeps its length |
| PdfSigner.BuildSignatureText | pdf_signer_pkcs12/src/main/java/com/sauken/s_fide/pdf_signer_pkcs12/PDFSignerPKCS12.java:454-473 | the appended pieces make up exactly SignatureText: the custom text and a blank line when not blank, then "Firmado digitalmente por:", the name and the date line |
| PdfSigner.SignatureTextShape | pdf_signer_pkcs12/src/main/java/com/sauken/s_fide/pdf_signer_pkcs12/PDFSignerPKCS12.java:454-473 | the text opens with the custom text and a blank line exactly when a non-blank custom text is given, and always ends with the signer's name and the time |
| PdfSigner.Plan | pdf_signer_pkcs12/src/main/java/com/sauken/s_fide/pdf_signer_pkcs12/PDFSignerPKCS12.java:381-416 | the document is restricted exactly when the lock is on, the signature is visible exactly when a coordinate is not zero, and certification needs the lock |
| PdfSigner.CertificationNeedsVisibility | pdf_signer_pkcs12/src/main/java/com/sauken/s_fide/pdf_signer_pkcs12/PDFSignerPKCS12.java:381-393 | the PKCS#12 signer certifies only a visible locked signature, while the token signer certifies whenever the lock is on |
| PdfSigner.SpecialArgument | pdf_signer_pkcs11/src/main/java/com/sauken/s_fide/pdf_signer_pkcs11/PDFSignerPKCS11.java:133-144 | only the token signer knows the license option |
| PdfSigner.Run | pdf_signer_pkcs12/src/main/java/com/sauken/s_fide/pdf_signer_pkcs12/PDFSignerPKCS12.java:120-147 | a lone argument always exits with 0 after being answered; otherwise the exit status is 0 exactly when parsing, the input checks and the signing all succeed |
| ModuleValidator.NewValidationResult | s_fide_gui/src/main/java/com/sauken/s_fide/s_fide_gui/validators/ModuleValidator.java:81-90 | the record is built exactly when a valid result has no message and an invalid one has a non-blank message, and then holds what it was given; otherwise construction fails |
| ModuleValidator.Accepted | s_fide_gui/src/main/java/com/sauken/s_fide/s_fide_gui/validators/ModuleValidator.java:119 | the accepting result is well formed and valid |
| ModuleValidator.Rejected | s_fide_gui/src/main/java/com/sauken/s_fide/s_fide_gui/validators/ModuleValidator.java:95-116 | a rejection whose fixed message is not blank, as every validator message is, is well formed and invalid, so its construction never fails |
| ModuleValidator.ValidateJarFile | s_fide_gui/src/main/java/com/sauken/s_fide/s_fide_gui/validators/ModuleValidator.java:92-120 | a module passes exactly when it is known and its jar exists, is readable and is not empty; an unknown module is reported by name |
| ModuleValidator.JarChecksInOrder | s_fide_gui/src/main/java/com/sauken/s_fide/s_fide_gui/validators/ModuleValidator.java:98-117 | the missing jar is reported first, then the unreadable one, then the empty one |
| ModuleValidator.JarNamedAfterModule | s_fide_gui/src/main/java/com/sauken/s_fide/s_fide_gui/validators/ModuleValidator.java:66-79 | every known module's jar is the module name followed by ".jar" |
| ModuleValidator.GetFileExtension | s_fide_gui/src/main/java/com/sauken/s_fide/s_fide_gui/validators/ModuleValidator.java:344-349 | the extension has no '.'; without a '.' it is empty, and otherwise it is what follows the last '.' of the path |
| ModuleValidator.ExtensionOfDottedName | s_fide_gui/src/main/java/com/sauken/s_fide/s_fide_gui/validators/ModuleValidator.java:344-349 | the extension of stem.ext is ext when ext has no '.' |
| ModuleValidator.ExtensionTestIgnoresCase | s_fide_gui/src/main/java/com/sauken/s_fide/s_fide_gui/validators/ModuleValidator.java:158-162 | the extension test passes exactly when the lower-cased extension is accepted, so two names differing in the case of their extension pass or fail together |
| ModuleValidator.ValidatePkcs11 | s_fide_gui/src/main/java/com/sauken/s_fide/s_fide_gui/validators/ModuleValidator.java:136-189 | the token parameters pass exactly when the TokenSlotsView jar passes, the library is given, exists, is a readable file ending in .dll or .so, the password is not blank and the slot is acceptable; a jar failure is passed on as it is |
| ModuleValidator.SlotRules | s_fide_gui/src/main/java/com/sauken/s_fide/s_fide_gui/validators/ModuleValidator.java:168-179 | a blank slot is accepted, a slot that is not an integer is reported as not numeric, and a negative one as not positive, with its value |
| ModuleValidator.PaddedSlotRejected | s_fide_gui/src/main/java/com/sauken/s_fide/s_fide_gui/validators/ModuleValidator.java:168-179 | the slot is parsed as typed: " 1" is refused while "1" is accepted |
| ModuleValidator.ValidatePkcs12 | s_fide_gui/src/main/java/com/sauken/s_fide/s_fide_gui/validators/ModuleValidator.java:191-231 | the PKCS#12 parameters pass exactly when the extractor's jar passes, the file is given, exists, is a readable file ending in .p12 or .pfx, and the password is not blank; a jar failure is passed on as it is |
| ModuleValidator.Pkcs12PathBeforePassword | s_fide_gui/src/main/java/com/sauken/s_fide/s_fide_gui/validators/ModuleValidator.java:198-221 | a missing file is reported before a missing password |
| ModuleValidator.ValidateXml | s_fide_gui/src/main/java/com/sauken/s_fide/s_fide_gui/validators/ModuleValidator.java:233-283 | the XML parameters pass exactly when the document is given, exists, is a readable file ending in .xml, and a given schema exists, is a readable file and ends in .xsd |
| ModuleValidator.SchemaIsOptional | s_fide_gui/src/main/java/com/sauken/s_fide/s_fide_gui/validators/ModuleValidator.java:256-273 | parameters that pass with a schema pass without it, and a blank schema path counts as none |
| ModuleValidator.XmlNeedsNoJar | s_fide_gui/src/main/java/com/sauken/s_fide/s_fide_gui/validators/ModuleValidator.java:233-283 | no jar is consulted: changing a file other than the document and schema changes nothing |
| ModuleValidator.CheckPosition | s_fide_gui/src/main/java/com/sauken/s_fide/s_fide_gui/validators/ModuleValidator.java:308-319 | a coordinate passes exactly when it is blank or parses to a number that is not negative |
| ModuleValidator.ValidatePdf | s_fide_gui/src/main/java/com/sauken/s_fide/s_fide_gui/validators/ModuleValidator.java:285-342 | the PDF parameters pass exactly when the document is given, exists, is a readable file ending in .pdf, and both coordinates pass |
| Configuration.Updated | s_fide_gui/src/main/java/com/sauken/s_fide/s_fide_gui/utils/ConfigurationManager.java:75-94 | a null or blank value changes nothing; any other value becomes the key's value, and only that key can be added |
| Configuration.UpdatedThenGet | s_fide_gui/src/main/java/com/sauken/s_fide/s_fide_gui/utils/ConfigurationManager.java:63-94 | after an accepted set the getter answers the new value, and every other key answers what it did before |
| Configuration.UpdatedIdempotent | s_fide_gui/src/main/java/com/sauken/s_fide/s_fide_gui/utils/ConfigurationManager.java:75-94 | setting the same value twice is the same as setting it once |
| Configuration.UpdatesCommute | s_fide_gui/src/main/java/com/sauken/s_fide/s_fide_gui/utils/ConfigurationManager.java:75-94 | sets of two different keys can be done in either order |
| Configuration.DefaultsAreEmpty | s_fide_gui/src/main/java/com/sauken/s_fide/s_fide_gui/utils/ConfigurationManager.java:40-51 | the default configuration holds exactly the three keys, each answering "", and any other key answers the caller's default |
| Configuration.ConfigurationManager.constructor | s_fide_gui/src/main/java/com/sauken/s_fide/s_fide_gui/utils/ConfigurationManager.java:12-15 | an existing file is loaded as it is and nothing is written; without one the defaults are both loaded and written once |
| Configuration.ConfigurationManager.LoadConfiguration | s_fide_gui/src/main/java/com/sauken/s_fide/s_fide_gui/utils/ConfigurationManager.java:24-38 | an existing file is loaded into the empty properties; a missing one is replaced by the defaults, which are written |
| Configuration.ConfigurationManager.CreateDefaultConfiguration | s_fide_gui/src/main/java/com/sauken/s_fide/s_fide_gui/utils/ConfigurationManager.java:40-51 | the three keys are set to "" and the result is written once |
| Configuration.ConfigurationManager.SaveConfiguration | s_fide_gui/src/main/java/com/sauken/s_fide/s_fide_gui/utils/ConfigurationManager.java:53-61 | the current properties are written, unchanged |
| Configuration.ConfigurationManager.SetIfGiven | s_fide_gui/src/main/java/com/sauken/s_fide/s_fide_gui/utils/ConfigurationManager.java:75-80 | the properties become the guarded update; the file is written exactly once when the value is given and not blank, and not at all otherwise |
| Configuration.ConfigurationManager.SetDefaultPkcs11LibPath | s_fide_gui/src/main/java/com/sauken/s_fide/s_fide_gui/utils/ConfigurationManager.java:75-80 | a given, non-blank library path is stored and written and the getter answers it; the slot and PKCS#12 path answer what they did before |
| Configuration.ConfigurationManager.SetDefaultSlotNumber | s_fide_gui/src/main/java/com/sauken/s_fide/s_fide_gui/utils/ConfigurationManager.java:82-87 | a given, non-blank slot is stored and written and the getter answers it; the two paths answer what they did before |
| Configuration.ConfigurationManager.SetDefaultPkcs12Path | s_fide_gui/src/main/java/com/sauken/s_fide/s_fide_gui/utils/ConfigurationManager.java:89-94 | a given, non-blank PKCS#12 path is stored and written and the getter answers it; the library path and slot answer what they did before |
| Configuration.InstanceHolder.constructor | s_fide_gui/src/main/java/com/sauken/s_fide/s_fide_gui/utils/ConfigurationManager.java:9 | no manager exists before the first call |
| Configuration.InstanceHolder.GetInstance | s_fide_gui/src/main/java/com/sauken/s_fide/s_fide_gui/utils/ConfigurationManager.java:17-22 | the first call creates the manager from the file and keeps it; every later call answers that same manager |
| Configuration.GetInstanceTwice | s_fide_gui/src/main/java/com/sauken/s_fide/s_fide_gui/utils/ConfigurationManager.java:17-22 | two calls answer one manager, whatever the file holds at the second |
| CertificateExport.FileNameFromSubject | token_certificate_extractor/src/main/java/com/sauken/s_fide/token_certificate_extractor/TokenCertificateExtractor.java:255-265 | the name holds only [a-zA-Z0-9.-] and '_'; it is "certificate" when no piece starts with "CN=", and otherwise as long as the common name |
| CertificateExport.LeadingCommonName | pkcs12_certificate_extractor/src/main/java/com/sauken/s_fide/pkcs12_certificate_extractor/PKCS12CertificateExtractor.java:200-210 | a subject starting with "CN=" + v gives v with its other characters replaced, and v itself when it is already file-safe |
| CertificateExport.FileNameIsFileSafe | token_certificate_extractor/src/main/java/com/sauken/s_fide/token_certificate_extractor/TokenCertificateExtractor.java:261 | replacing again changes nothing in a file name |
| CertificateExport.PemText | token_certificate_extractor/src/main/java/com/sauken/s_fide/token_certificate_extractor/TokenCertificateExtractor.java:244-246 | the text starts with the BEGIN line and a line break, ends with a line break and the END line, and has no other text than the body |
| CertificateExport.PemRoundTrip | pkcs12_certificate_extractor/src/main/java/com/sauken/s_fide/pkcs12_certificate_extractor/PKCS12CertificateExtractor.java:190-198 | the body can be read back from the PEM text |
| CertificateExport.PemInjective | pkcs12_certificate_extractor/src/main/java/com/sauken/s_fide/pkcs12_certificate_extractor/PKCS12CertificateExtractor.java:190-198 | two bodies with the same PEM text are the same body |
| CertificateExport.Exports | token_certificate_extractor/src/main/java/com/sauken/s_fide/token_certificate_extractor/TokenCertificateExtractor.java:204-216 | no more files than aliases |
| CertificateExport.NoExportsIffNoCertificate | token_certificate_extractor/src/main/java/com/sauken/s_fide/token_certificate_extractor/TokenCertificateExtractor.java:204-221 | no file is produced exactly when no alias holds an X.509 certificate |
| CertificateExport.ExportsAppend | token_certificate_extractor/src/main/java/com/sauken/s_fide/token_certificate_extractor/TokenCertificateExtractor.java:208-216 | the files of two runs of aliases are the files of the first run followed by those of the second |
| CertificateExport.FirstFailedWrite | pkcs12_certificate_extractor/src/main/java/com/sauken/s_fide/pkcs12_certificate_extractor/PKCS12CertificateExtractor.java:176-188 | the position of the first file whose write fails; every earlier write succeeds |
| CertificateExport.ExportOutcome | pkcs12_certificate_extractor/src/main/java/com/sauken/s_fide/pkcs12_certificate_extractor/PKCS12CertificateExtractor.java:152-161 | without a failure every certificate's file is written, in alias order; a failure leaves a strict prefix of them written, each of those written successfully |
| CertificateExport.FailureIsFirst | pkcs12_certificate_extractor/src/main/java/com/sauken/s_fide/pkcs12_certificate_extractor/PKCS12CertificateExtractor.java:176-188 | when the next file's write fails after successful ones, the run stops there with that failure |
| CertificateExport.AllWritten | pkcs12_certificate_extractor/src/main/java/com/sauken/s_fide/pkcs12_certificate_extractor/PKCS12CertificateExtractor.java:152-161 | when every write succeeds, every file is written and there is no failure |
| CertificateExport.ExportCertificates | pkcs12_certificate_extractor/src/main/java/com/sauken/s_fide/pkcs12_certificate_extractor/PKCS12CertificateExtractor.java:149-161 | the loop over the aliases ends with ExportOutcome, and with no failure a certificate is reported found exactly when some alias holds an X.509 certificate |
| TokenCertificateExtractor.SingleOption | token_certificate_extractor/src/main/java/com/sauken/s_fide/token_certificate_extractor/TokenCertificateExtractor.java:118-133 | a lone argument is an error exactly when, lower-cased, it is none of the three options |
| TokenCertificateExtractor.ParseArguments | token_certificate_extractor/src/main/java/com/sauken/s_fide/token_certificate_extractor/TokenCertificateExtractor.java:112-152 | no argument, a wrong count and a slot that is not an integer are errors with their messages; a request is read exactly from three arguments with an integer slot |
| TokenCertificateExtractor.ArgumentsRoundTrip | token_certificate_extractor/src/main/java/com/sauken/s_fide/token_certificate_extractor/TokenCertificateExtractor.java:142-148 | a slot printed as a 32-bit integer is read back as that slot |
| TokenCertificateExtractor.Extraction | token_certificate_extractor/src/main/java/com/sauken/s_fide/token_certificate_extractor/TokenCertificateExtractor.java:165-221 | the run succeeds exactly when no error is reported, which is exactly when the library exists, the provider is available, the token loads and every write succeeds; the no-certificate notice comes only with a successful run that wrote nothing |
| TokenCertificateExtractor.ToolOutcome | token_certificate_extractor/src/main/java/com/sauken/s_fide/token_certificate_extractor/TokenCertificateExtractor.java:99-110 | the exit status is 0 exactly when no error is printed |
| TokenCertificateExtractor.Run | token_certificate_extractor/src/main/java/com/sauken/s_fide/token_certificate_extractor/TokenCertificateExtractor.java:99-221 | the run with its loop ends with ToolOutcome, the exit status, files, notice and error that main produces |
| TokenCertificateExtractor.NoticeIffNoCertificate | token_certificate_extractor/src/main/java/com/sauken/s_fide/token_certificate_extractor/TokenCertificateExtractor.java:204-221 | once the token loads and every write succeeds, the run succeeds, prints the notice exactly when no alias holds an X.509 certificate, and writes each certificate once, in alias order |
| TokenCertificateExtractor.MissingLibraryFirst | token_certificate_extractor/src/main/java/com/sauken/s_fide/token_certificate_extractor/TokenCertificateExtractor.java:150-159 | a missing library is reported before anything is loaded, whatever the token holds |
| Pkcs12CertificateExtractor.ProcessSpecialArgument | pkcs12_certificate_extractor/src/main/java/com/sauken/s_fide/pkcs12_certificate_extractor/PKCS12CertificateExtractor.java:108-116 | a lone argument is an error exactly when, lower-cased, it is none of the three options |
| Pkcs12CertificateExtractor.ParseArguments | pkcs12_certificate_extractor/src/main/java/com/sauken/s_fide/pkcs12_certificate_extractor/PKCS12CertificateExtractor.java:90-106 | no argument and a wrong count are errors with their messages; a request is read exactly from two arguments, the file and the password |
| Pkcs12CertificateExtractor.OptionsIgnoreCase | pkcs12_certificate_extractor/src/main/java/com/sauken/s_fide/pkcs12_certificate_extractor/PKCS12CertificateExtractor.java:108-116 | two spellings of an argument that differ only in case are read alike |
| Pkcs12CertificateExtractor.Validation | pkcs12_certificate_extractor/src/main/java/com/sauken/s_fide/pkcs12_certificate_extractor/PKCS12CertificateExtractor.java:123-140 | the file passes exactly when it exists, loads with the password and has an alias, and then its entries are used |
| Pkcs12CertificateExtractor.Extraction | pkcs12_certificate_extractor/src/main/java/com/sauken/s_fide/pkcs12_certificate_extractor/PKCS12CertificateExtractor.java:142-169 | the run succeeds exactly when no error is reported, which is exactly when every write succeeds and some alias holds an X.509 certificate; the files written are those the export loop wrote, also when it failed |
| Pkcs12CertificateExtractor.ToolOutcome | pkcs12_certificate_extractor/src/main/java/com/sauken/s_fide/pkcs12_certificate_extractor/PKCS12CertificateExtractor.java:73-82 | the exit status is 0 exactly when no error is printed |
| Pkcs12CertificateExtractor.Run | pkcs12_certificate_extractor/src/main/java/com/sauken/s_fide/pkcs12_certificate_extractor/PKCS12CertificateExtractor.java:73-169 | the run with its loop ends with ToolOutcome, the exit status, files, notice and error that main produces |
| Pkcs12CertificateExtractor.SucceedsIffSomeCertificate | pkcs12_certificate_extractor/src/main/java/com/sauken/s_fide/pkcs12_certificate_extractor/PKCS12CertificateExtractor.java:149-165 | a validated file whose writes succeed gives exit status 0 exactly when some alias holds an X.509 certificate, and then one file per certificate, in alias order |
| Pkcs12CertificateExtractor.EmptyKeyStoreRefused | pkcs12_certificate_extractor/src/main/java/com/sauken/s_fide/pkcs12_certificate_extractor/PKCS12CertificateExtractor.java:132-138 | a key store without aliases is refused during validation, with the no-alias message inside the validation message |
| Pkcs12CertificateExtractor.Pkcs12PemFrame | pkcs12_certificate_extractor/src/main/java/com/sauken/s_fide/pkcs12_certificate_extractor/PKCS12CertificateExtractor.java:190-198 | the PEM text is the BEGIN line, the platform line separator, the body, the separator and the END line, and the body reads back from it |

## Left out

- Network access: the OCSP request, the CRL and XSD downloads and the connectivity probes (`NetworkUtils`) become a per-URL answer and an `online` flag.
- Cryptography: OCSP request building and CertID hashing, DER/ASN.1 decoding, CRL parsing, XML-DSig signing and validation, iText PDF signing and encryption, and Base64 all become already-decoded inputs. The PEM body is the already-encoded text, and Base64's MIME line wrapping is not modelled.
- Key store loading through SunPKCS11 or a PKCS#12 file, and `Security.addProvider`/`removeProvider`: the loaded entries or the failure are inputs. A failure of `Provider.configure` is not distinguished from a missing provider.
- XML DOM parsing, XPath and `registerIdAttributes`/`registerIDAttributes`: a document is a list of elements with attribute maps. The placement of the signature in the DOM is reported as a plan and not performed.
- Clocks and time-zone rules: instants are integers, "now" is a parameter and zones are fixed offsets from the 13-entry table.
- Timezones.ConvertToUtc: returns its instant unchanged, as the Java code does for every zone; daylight-saving gaps and overlaps, which could shift a local time, are not modelled.
- Floating point: the x/y positions of the PDF signers and the float parsing of the GUI's PDF validation are a parse function given as a parameter, and the position test is a boolean.
- Console output: the help and license text, the certificate details, the revocation reports and `formatDate` are not modelled. The help text is a parameter in `TokenCertificateExtractor`, `Pkcs12CertificateExtractor` and `XmlVerifySignatures`, whose usage messages include it.
- XmlSigner.ParseArguments: its wrong-count message stops at "Número incorrecto de argumentos."; the help text that the Java code appends is not modelled.
- TokenCertificateExtractor.Run: the catch-all "Error inesperado: " path for exceptions outside the modelled failures is not modelled.
- Pkcs12CertificateExtractor.Run: the Java code loads the key store a second time for the export; the model assumes both loads give the same entries.
- Certificate export: two certificates whose subjects give the same file name write the same path, and the later file replaces the earlier one; the model lists both writes.
- Configuration: an IOException while loading or storing the properties file is not modelled, and the file is a map held by the model.
- ModuleValidator: the `SecurityException` and generic `Exception` catches, the working directory used to resolve the jar paths, `showValidationError` and `confirmOverwrite` are not modelled.
- XsdStructure: the IOException that schema validation may raise while reading the document is not modelled.
- The Swing front end (`SFideGUI`, `GUIUtils`, its threads and process launching) is not part of this model, except the argument list it builds for the PKCS#12 PDF signer.
- `TokenSlotsView`, the PDF verifier's signing-time reader (a wrapper over iText's `getSignDate`) and the legacy prototypes under `src/main/java/com/sauken` are not part of this model.
- Java strings are sequences of `char`. Windows path separators and the XPath apostrophe quoting of the lookup are not modelled.
- XmlSigner.Run: `newReference` parses the reference text with `java.net.URI`, and that parsing is not modelled, so a URI that it rejects (such as "a b") fails in Java before the search, while the model goes on to the search and the signing step. The signing library's messages are an input. The serializer and the file writer are taken to succeed.
- PdfSigner.CreateOutputPath: `Paths.get` normalises the path, for example "a//b.pdf" becomes "a/b.pdf"; the model keeps the text as given.
- JavaStrings.ToUpper/ToLower/EqualsIgnoreCase/ParseInt: case mapping covers ASCII and the Latin-1 letters only, and it ignores the default locale. So "ß" does not become "SS", "ı" and "ſ" do not become "I" and "S", and "ÿ" stays as it is. Also, no Turkish-locale mapping is made. ParseInt accepts only the ASCII digits, while `Integer.parseInt` also takes other Unicode decimal digits.
- Timezones.GetCountryCode: it follows the case mapping of `JavaStrings`, so a name that needs Java's full `toUpperCase` to match, such as "bolıvıa", is rejected here, while Java gives "BO".

## Findings

| source | as written | input that shows it | evidently intended | confidence | as-written member | corrected member |
|---|---|---|---|---|---|---|
| xml_verify_signatures/src/main/java/com/sauken/s_fide/xml_verify_signatures/XMLVerifySignatures.java:292-305 | the short report's loop leaves only the inner loop, so every X509Data is visited and the last one holding a certificate decides | a KeyInfo with two X509Data, each holding one certificate: the full report checks the first certificate, the short report the second | both reports check the first certificate of the first X509Data, the one the full report checks | not executed | XmlVerifySignatures.SimpleModeRevoked | XmlVerifySignatures.CorrectedVerdictIsSound |
| s_fide_gui/src/main/java/com/sauken/s_fide/s_fide_gui/SFideGUI.java:1627-1634 | the GUI passes the lock as "-k" to the PKCS#12 PDF signer, whose parser knows only "-l" and "--lock" and skips "-k" | the GUI's arguments with the lock box ticked: the parsed lock is false | the lock chosen in the GUI reaches the signer | not executed | PdfSigner.GuiLockIsLost | PdfSigner.GuiLockKeptWhenFixed |
| xml_signer_pkcs11/src/main/java/com/sauken/s_fide/xml_signer_pkcs11/XMLSignerPKCS11.java:203-210 | the output name looks for the last '.' in the whole path, so a dot in a directory name is taken for the extension | "out.d/doc" gives "out-signed.d/doc", a file in another directory | "-signed" goes before the extension of the file name, and the directory is kept | not executed | XmlSigner.OutputFileNameLeavesDirectory | XmlSigner.SiblingOutputFileNameKeepsDirectory |
| xml_verify_xsd_structure/src/main/java/com/sauken/s_fide/xml_verify_xsd_structure/utils/XSDDownloader.java:89-99 | the schemaLocation and noNamespaceSchemaLocation elements are read with getNodeValue, which is null for an element, so they never give a location | a document whose only hint is a noNamespaceSchemaLocation element holding a URL: no schema is found | the element's text is read like the attribute's value | not executed | XsdDownloader.ElementOnlyHintLost | XsdDownloader.PairElementReadFromText |
| xml_signer_pkcs11/src/main/java/com/sauken/s_fide/xml_signer_pkcs11/XMLSignerPKCS11.java:393-410 | the signature is inserted beside the element to be signed, so for the root element it would become a second element of the document | a document whose root element has Id="r", signed with the URI "r": signing fails and the run exits 1 | the root element is signed with the signature placed inside it, as for the whole document | not executed | XmlSigner.RootIdFails | XmlSigner.CorrectedPlanSignsFoundElement |
| xml_signer_pkcs11/src/main/java/com/sauken/s_fide/xml_signer_pkcs11/XMLSignerPKCS11.java:438-458 | the search falls back to matching tag names, but signature.sign resolves the reference "#" + id through getElementById, which only knows the registered Id, id and ID attributes, so an element found by the fallback is never signed | the document <root><Doc/></root> signed with the URI "Doc": the existence check and the search pass, the reference cannot be resolved and the run exits 1 | an element the search finds is signed | not executed | XmlSigner.TagNameMatchFails | XmlSigner.CorrectedPlanSignsFoundElement |
