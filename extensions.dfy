/** The two certificate extensions that point at revocation services, as
    already-decoded records: Authority Information Access (RFC 5280 section
    4.2.2.1, extension 1.3.6.1.5.5.7.1.1) and CRL Distribution Points
    (RFC 5280 section 4.2.1.13, extension 2.5.29.31). */
module Extensions {
  import opened Wrappers

  /** A GeneralName: its CHOICE tag and the text of its value; None when the
      value cannot be rendered as text. */
  datatype GeneralName = GeneralName(tag: int, name: Option<string>)

  /** The GeneralName tag of a uniformResourceIdentifier. */
  const URI_TAG: int := 6

  /** id-ad-ocsp, the access method of an OCSP responder location. */
  const ID_AD_OCSP := "1.3.6.1.5.5.7.48.1"

  /** One element of the AIA sequence: an AccessDescription, or an element
      that does not decode as one. */
  datatype AccessRecord = Access(accessMethod: string, location: GeneralName) | MalformedAccess

  /** The distributionPoint field of a DistributionPoint. */
  datatype DistributionPointName = FullName(names: seq<GeneralName>) | RelativeName

  /** One element of the CRL Distribution Points sequence: a DistributionPoint
      (whose name may be absent), or an element that does not decode as one. */
  datatype DistPointRecord = DistPoint(pointName: Option<DistributionPointName>) | MalformedDistPoint

  /** An extension of the certificate: absent, present with an outer encoding
      that cannot be read, or its decoded elements in encoded order. */
  datatype Extension<R> = Absent | Undecodable | Elements(items: seq<R>)

  predicate IsOcspUriAccess(a: AccessRecord)
  {
    a.Access? && a.accessMethod == ID_AD_OCSP && a.location.tag == URI_TAG
  }

  /** The URI-tagged names of a distribution point given in full-name form. */
  function FullNameUris(p: DistPointRecord): seq<GeneralName>
  {
    if IsFullName(p) then
      UriNames(p.pointName.value.names)
    else []
  }

  /** What one element adds to OcspNames. */
  function OcspName(a: AccessRecord): seq<GeneralName>
  {
    if IsOcspUriAccess(a) then [a.location] else []
  }

  /** What one name adds to UriNames. */
  function UriName(g: GeneralName): seq<GeneralName>
  {
    if g.tag == URI_TAG then [g] else []
  }

  /** The names among gns whose tag is the URI tag, in order. */
  function UriNames(gns: seq<GeneralName>): seq<GeneralName>
    decreases |gns|
  {
    if gns == [] then [] else UriNames(gns[..|gns| - 1]) + UriName(gns[|gns| - 1])
  }

  /** The URI locations of the id-ad-ocsp access descriptions, in order:
      the names both verifiers turn into OCSP URLs. */
  function OcspNames(items: seq<AccessRecord>): seq<GeneralName>
    decreases |items|
  {
    if items == [] then [] else OcspNames(items[..|items| - 1]) + OcspName(items[|items| - 1])
  }

  /** The URI names of every distribution point given in full-name form,
      in order: the names both verifiers turn into CRL URLs. */
  function CrlNames(points: seq<DistPointRecord>): seq<GeneralName>
    decreases |points|
  {
    if points == [] then []
    else CrlNames(points[..|points| - 1]) + FullNameUris(points[|points| - 1])
  }

  // ----------------------------------------------------- unfolding lemmas

  lemma AppendAssoc<T>(x: seq<T>, y: seq<T>, z: seq<T>)
    ensures x + (y + z) == (x + y) + z
  {
  }

  lemma {:induction false} OcspNamesConcat(a: seq<AccessRecord>, b: seq<AccessRecord>)
    ensures OcspNames(a + b) == OcspNames(a) + OcspNames(b)
    decreases |b|
  {
    if b == [] {
      assert a + b == a;
    } else {
      var init, last := b[..|b| - 1], b[|b| - 1];
      var c := a + b;
      assert c[..|c| - 1] == a + init;
      assert c[|c| - 1] == last;
      OcspNamesConcat(a, init);
      AppendAssoc(OcspNames(a), OcspNames(init), OcspName(last));
    }
  }

  lemma OcspNamesSnoc(x: seq<AccessRecord>, g: AccessRecord)
    ensures OcspNames(x + [g]) == OcspNames(x) + OcspName(g)
  {
    assert (x + [g])[..|x|] == x;
    assert (x + [g])[|x|] == g;
  }

  lemma {:induction false} CrlNamesConcat(a: seq<DistPointRecord>, b: seq<DistPointRecord>)
    ensures CrlNames(a + b) == CrlNames(a) + CrlNames(b)
    decreases |b|
  {
    if b == [] {
      assert a + b == a;
    } else {
      var init, last := b[..|b| - 1], b[|b| - 1];
      var c := a + b;
      assert c[..|c| - 1] == a + init;
      assert c[|c| - 1] == last;
      CrlNamesConcat(a, init);
      AppendAssoc(CrlNames(a), CrlNames(init), FullNameUris(last));
    }
  }

  lemma CrlNamesSnoc(x: seq<DistPointRecord>, g: DistPointRecord)
    ensures CrlNames(x + [g]) == CrlNames(x) + FullNameUris(g)
  {
    assert (x + [g])[..|x|] == x;
    assert (x + [g])[|x|] == g;
  }

  lemma {:induction false} UriNamesConcat(a: seq<GeneralName>, b: seq<GeneralName>)
    ensures UriNames(a + b) == UriNames(a) + UriNames(b)
    decreases |b|
  {
    if b == [] {
      assert a + b == a;
    } else {
      var init, last := b[..|b| - 1], b[|b| - 1];
      var c := a + b;
      assert c[..|c| - 1] == a + init;
      assert c[|c| - 1] == last;
      UriNamesConcat(a, init);
      AppendAssoc(UriNames(a), UriNames(init), UriName(last));
    }
  }

  lemma UriNamesSnoc(x: seq<GeneralName>, g: GeneralName)
    ensures UriNames(x + [g]) == UriNames(x) + UriName(g)
  {
    assert (x + [g])[..|x|] == x;
    assert (x + [g])[|x|] == g;
  }

  /** The names up to element i, one element at a time, and the whole
      list cut after element i. */
  lemma OcspNamesStep(items: seq<AccessRecord>, i: nat)
    requires i < |items|
    ensures OcspNames(items[..i + 1]) == OcspNames(items[..i]) + OcspName(items[i])
  {
    assert items[..i + 1] == items[..i] + [items[i]];
    OcspNamesSnoc(items[..i], items[i]);
  }

  lemma OcspNamesSplit(items: seq<AccessRecord>, i: nat)
    requires i < |items|
    ensures OcspNames(items) == OcspNames(items[..i + 1]) + OcspNames(items[i + 1..])
  {
    OcspNamesConcat(items[..i + 1], items[i + 1..]);
    assert items[..i + 1] + items[i + 1..] == items;
  }

  lemma CrlNamesStep(points: seq<DistPointRecord>, i: nat)
    requires i < |points|
    ensures CrlNames(points[..i + 1]) == CrlNames(points[..i]) + FullNameUris(points[i])
  {
    assert points[..i + 1] == points[..i] + [points[i]];
    CrlNamesSnoc(points[..i], points[i]);
  }

  lemma CrlNamesSplit(points: seq<DistPointRecord>, i: nat)
    requires i < |points|
    ensures CrlNames(points) == CrlNames(points[..i + 1]) + CrlNames(points[i + 1..])
  {
    CrlNamesConcat(points[..i + 1], points[i + 1..]);
    assert points[..i + 1] + points[i + 1..] == points;
  }

  lemma UriNamesStep(gns: seq<GeneralName>, j: nat)
    requires j < |gns|
    ensures UriNames(gns[..j + 1]) == UriNames(gns[..j]) + UriName(gns[j])
  {
    assert gns[..j + 1] == gns[..j] + [gns[j]];
    UriNamesSnoc(gns[..j], gns[j]);
  }

  lemma UriNamesSplit(gns: seq<GeneralName>, j: nat)
    requires j < |gns|
    ensures UriNames(gns) == UriNames(gns[..j + 1]) + UriNames(gns[j + 1..])
  {
    UriNamesConcat(gns[..j + 1], gns[j + 1..]);
    assert gns[..j + 1] + gns[j + 1..] == gns;
  }

  /** OcspNames holds exactly the URI locations of the id-ad-ocsp
      descriptions. */
  lemma {:induction false} OcspNamesExactly(items: seq<AccessRecord>)
    ensures forall g :: g in OcspNames(items) <==>
              exists k :: 0 <= k < |items| && IsOcspUriAccess(items[k]) && items[k].location == g
    decreases |items|
  {
    if items != [] {
      var init := items[..|items| - 1];
      OcspNamesExactly(init);
      forall g ensures g in OcspNames(items) <==>
                       exists k :: 0 <= k < |items| && IsOcspUriAccess(items[k]) && items[k].location == g
      {
        if g in OcspNames(items) && g !in OcspNames(init) {
          assert IsOcspUriAccess(items[|items| - 1]) && items[|items| - 1].location == g;
        }
        if exists k :: 0 <= k < |items| && IsOcspUriAccess(items[k]) && items[k].location == g {
          var k :| 0 <= k < |items| && IsOcspUriAccess(items[k]) && items[k].location == g;
          if k < |init| {
            assert init[k] == items[k];
          }
        }
      }
    }
  }

  /** UriNames keeps exactly the URI-tagged names. */
  lemma {:induction false} UriNamesExactly(gns: seq<GeneralName>)
    ensures forall g :: g in UriNames(gns) <==> g in gns && g.tag == URI_TAG
    decreases |gns|
  {
    if gns != [] {
      var init := gns[..|gns| - 1];
      UriNamesExactly(init);
      assert gns == init + [gns[|gns| - 1]];
    }
  }

  /** A distribution point given in full-name form. */
  predicate IsFullName(p: DistPointRecord)
  {
    p.DistPoint? && p.pointName.Some? && p.pointName.value.FullName?
  }

  /** CrlNames holds exactly the URI names of the full-name distribution points. */
  lemma {:induction false} CrlNamesExactly(points: seq<DistPointRecord>)
    ensures forall g :: g in CrlNames(points) <==>
              exists k :: 0 <= k < |points| && IsFullName(points[k]) &&
                          g in points[k].pointName.value.names && g.tag == URI_TAG
    decreases |points|
  {
    if points != [] {
      var n := |points| - 1;
      var init := points[..n];
      CrlNamesExactly(init);
      if IsFullName(points[n]) {
        UriNamesExactly(points[n].pointName.value.names);
      }
      forall g ensures g in CrlNames(points) <==>
                       exists k :: 0 <= k < |points| && IsFullName(points[k]) &&
                                   g in points[k].pointName.value.names && g.tag == URI_TAG
      {
        if g in CrlNames(points) && g !in CrlNames(init) {
          assert g in FullNameUris(points[n]);
          assert IsFullName(points[n]) && g in points[n].pointName.value.names && g.tag == URI_TAG;
        }
        if exists k :: 0 <= k < |points| && IsFullName(points[k]) &&
                       g in points[k].pointName.value.names && g.tag == URI_TAG {
          var k :| 0 <= k < |points| && IsFullName(points[k]) &&
                   g in points[k].pointName.value.names && g.tag == URI_TAG;
          if k < n {
            assert init[k] == points[k];
          }
        }
      }
    }
  }
}
