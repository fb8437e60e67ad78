/** The parts of a signature's ds:KeyInfo (XML Signature, section 4.5 of
    the W3C XML-Signature Syntax and Processing recommendation) and of an
    X.509 certificate that the verifiers look at, and the key selection
    rule they share: an RSA key, for an rsa-sha1 or rsa-sha256 signature. */
module KeyInfo {
  import opened Wrappers
  import opened JavaStrings
  import opened Extensions

  /** A public key, by its algorithm name ("RSA", "EC", ...). */
  datatype PublicKey = PublicKey(algorithm: string)

  /** A certificate: its names, its key and its two revocation extensions. */
  datatype Certificate = Certificate(
    subjectDN: string,
    issuerDN: string,
    publicKey: PublicKey,
    aia: Extension<AccessRecord>,
    cdp: Extension<DistPointRecord>)

  /** One entry of an X509Data: a certificate, or anything else (a subject
      name, an issuer serial, a CRL). */
  datatype X509Item = X509Cert(cert: Certificate) | OtherX509Item

  /** One child of KeyInfo. A KeyValue's key is None when reading it raises
      a KeyException. */
  datatype KeyInfoItem = X509Data(contents: seq<X509Item>) | KeyValue(key: Option<PublicKey>) | OtherKeyInfo

  /** isSupportedAlgorithm: a non-null URI whose lower-case form names
      rsa-sha1 or rsa-sha256. */
  predicate IsSupportedAlgorithm(algorithm: Option<string>)
  {
    algorithm.Some? &&
    (Contains(ToLower(algorithm.value), "rsa-sha1") || Contains(ToLower(algorithm.value), "rsa-sha256"))
  }

  /** isKeyValid: an RSA key (any case) for a supported signature algorithm. */
  predicate IsKeyValid(signatureAlgorithm: string, key: PublicKey)
  {
    EqualsIgnoreCase("RSA", key.algorithm) && IsSupportedAlgorithm(Some(signatureAlgorithm))
  }

  // ------------------------------------------------ first valid certificate

  /** The key of the first certificate in these X509Data contents whose key is valid. */
  function FirstValidCertKeyIn(contents: seq<X509Item>, alg: string): (r: Option<PublicKey>)
    ensures r.Some? ==> IsKeyValid(alg, r.value)
    decreases |contents|
  {
    if contents == [] then None
    else if contents[0].X509Cert? && IsKeyValid(alg, contents[0].cert.publicKey) then Some(contents[0].cert.publicKey)
    else FirstValidCertKeyIn(contents[1..], alg)
  }

  /** The key of the first certificate, over all X509Data in order, whose key is valid. */
  function FirstValidCertKey(items: seq<KeyInfoItem>, alg: string): (r: Option<PublicKey>)
    ensures r.Some? ==> IsKeyValid(alg, r.value)
    decreases |items|
  {
    if items == [] then None
    else
      var here := if items[0].X509Data? then FirstValidCertKeyIn(items[0].contents, alg) else None;
      if here.Some? then here else FirstValidCertKey(items[1..], alg)
  }

  /** Some certificate in these contents carries this key. */
  ghost predicate CertKeyIn(contents: seq<X509Item>, key: PublicKey)
  {
    exists c :: X509Cert(c) in contents && c.publicKey == key
  }

  /** Some X509Data carries a certificate with this key. */
  ghost predicate CertKeyAmong(items: seq<KeyInfoItem>, key: PublicKey)
  {
    exists d :: d in items && d.X509Data? && CertKeyIn(d.contents, key)
  }

  lemma {:induction false} FirstValidCertKeyInExact(contents: seq<X509Item>, alg: string)
    ensures FirstValidCertKeyIn(contents, alg).Some? ==> CertKeyIn(contents, FirstValidCertKeyIn(contents, alg).value)
    ensures FirstValidCertKeyIn(contents, alg).None? ==>
              forall c :: X509Cert(c) in contents ==> !IsKeyValid(alg, c.publicKey)
    decreases |contents|
  {
    if contents != [] {
      FirstValidCertKeyInExact(contents[1..], alg);
      var r := FirstValidCertKeyIn(contents, alg);
      if contents[0].X509Cert? && IsKeyValid(alg, contents[0].cert.publicKey) {
        assert X509Cert(contents[0].cert) in contents;
      } else {
        if r.Some? {
          var c :| X509Cert(c) in contents[1..] && c.publicKey == r.value;
          assert X509Cert(c) in contents;
        }
        forall c | X509Cert(c) in contents ensures r.None? ==> !IsKeyValid(alg, c.publicKey) {
          if X509Cert(c) != contents[0] {
            assert X509Cert(c) in contents[1..];
          }
        }
      }
    }
  }

  /** The selected key belongs to a certificate of some X509Data and is
      valid; when nothing is selected, no certificate carries a valid key. */
  lemma {:induction false} FirstValidCertKeyExact(items: seq<KeyInfoItem>, alg: string)
    ensures FirstValidCertKey(items, alg).Some? ==> CertKeyAmong(items, FirstValidCertKey(items, alg).value)
    ensures FirstValidCertKey(items, alg).None? ==>
              forall d, c :: d in items && d.X509Data? && X509Cert(c) in d.contents ==> !IsKeyValid(alg, c.publicKey)
    decreases |items|
  {
    if items != [] {
      FirstValidCertKeyExact(items[1..], alg);
      var r := FirstValidCertKey(items, alg);
      if items[0].X509Data? {
        FirstValidCertKeyInExact(items[0].contents, alg);
      }
      if r.Some? {
        if items[0].X509Data? && FirstValidCertKeyIn(items[0].contents, alg).Some? {
          assert items[0] in items;
        } else {
          var d :| d in items[1..] && d.X509Data? && CertKeyIn(d.contents, r.value);
          assert d in items;
        }
      } else {
        forall d, c | d in items && d.X509Data? && X509Cert(c) in d.contents
          ensures !IsKeyValid(alg, c.publicKey)
        {
          if d != items[0] {
            assert d in items[1..];
          }
        }
      }
    }
  }

  /** The first loop of both key selectors: X509Data by X509Data, and inside
      each certificate by certificate, the first valid key is taken. */
  method ScanX509Data(items: seq<KeyInfoItem>, alg: string) returns (key: Option<PublicKey>)
    ensures key == FirstValidCertKey(items, alg)
  {
    var i := 0;
    while i < |items|
      invariant 0 <= i <= |items|
      invariant FirstValidCertKey(items, alg) == FirstValidCertKey(items[i..], alg)
    {
      assert items[i..][1..] == items[i + 1..];
      if items[i].X509Data? {
        var contents := items[i].contents;
        var j := 0;
        while j < |contents|
          invariant 0 <= j <= |contents|
          invariant FirstValidCertKeyIn(contents, alg) == FirstValidCertKeyIn(contents[j..], alg)
        {
          assert contents[j..][1..] == contents[j + 1..];
          if contents[j].X509Cert? {
            var k := contents[j].cert.publicKey;
            if IsKeyValid(alg, k) {
              return Some(k);
            }
          }
          j := j + 1;
        }
      }
      i := i + 1;
    }
    return None;
  }

  // ------------------------------------------- which certificate is checked

  /** The first certificate of these X509Data contents. */
  function FirstCertIn(contents: seq<X509Item>): (r: Option<Certificate>)
    ensures r.Some? ==> X509Cert(r.value) in contents
    ensures r.None? ==> forall x :: x in contents ==> !x.X509Cert?
  {
    if contents == [] then None
    else if contents[0].X509Cert? then Some(contents[0].cert)
    else FirstCertIn(contents[1..])
  }

  /** An X509Data that holds at least one certificate. */
  predicate HoldsCertificate(item: KeyInfoItem)
  {
    item.X509Data? && FirstCertIn(item.contents).Some?
  }

  /** The first certificate of the first X509Data holding one. */
  function FirstCertificate(items: seq<KeyInfoItem>): (r: Option<Certificate>)
    ensures r.None? <==> forall d :: d in items ==> !HoldsCertificate(d)
  {
    if items == [] then None
    else if HoldsCertificate(items[0]) then FirstCertIn(items[0].contents)
    else
      assert forall d :: d in items[1..] ==> d in items;
      assert forall d :: d in items ==> d == items[0] || d in items[1..];
      FirstCertificate(items[1..])
  }
}
