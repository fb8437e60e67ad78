/** The PDF verifier's certificate helpers. Unlike the XML verifier's, they
    never fail: an unreadable extension gives no URL, an element that does
    not decode ends the walk but keeps the URLs found before it, a name that
    cannot be read is skipped, and only URLs starting with "http" are kept.
    The text of a URI name is its IA5String value, with no tag in front. */
module PdfCertificateUtils {
  import opened Wrappers
  import opened JavaStrings
  import opened Extensions
  import XmlCertificateUtils
  import XmlRevocation

  /** The URL a name contributes: its text, when it can be read and starts
      with "http". */
  function KeptUrl(gn: GeneralName): seq<string>
  {
    if gn.name.Some? && StartsWith(gn.name.value, "http") then [gn.name.value] else []
  }

  /** The URLs of these names, in order. */
  function HttpUrls(names: seq<GeneralName>): seq<string>
    decreases |names|
  {
    if names == [] then []
    else HttpUrls(names[..|names| - 1]) + KeptUrl(names[|names| - 1])
  }

  /** The position of the first access description that does not decode,
      or the length when all do. */
  function MalformedAccessIndex(items: seq<AccessRecord>): (n: nat)
    ensures n <= |items|
    ensures forall j :: 0 <= j < n ==> items[j].Access?
    ensures n < |items| ==> items[n].MalformedAccess?
  {
    if items == [] || items[0].MalformedAccess? then 0
    else 1 + MalformedAccessIndex(items[1..])
  }

  /** The position of the first distribution point that does not decode,
      or the length when all do. */
  function MalformedPointIndex(points: seq<DistPointRecord>): (n: nat)
    ensures n <= |points|
    ensures forall j :: 0 <= j < n ==> points[j].DistPoint?
    ensures n < |points| ==> points[n].MalformedDistPoint?
  {
    if points == [] || points[0].MalformedDistPoint? then 0
    else 1 + MalformedPointIndex(points[1..])
  }

  /** getOCSPUrls: the kept URLs of the OCSP locations before the first
      element that does not decode. */
  function OcspUrls(aia: Extension<AccessRecord>): seq<string>
  {
    match aia
    case Absent => []
    case Undecodable => []
    case Elements(items) => HttpUrls(OcspNames(items[..MalformedAccessIndex(items)]))
  }

  /** getCRLUrls: the kept URLs of the full-name URI names before the first
      distribution point that does not decode. */
  function CrlUrls(cdp: Extension<DistPointRecord>): seq<string>
  {
    match cdp
    case Absent => []
    case Undecodable => []
    case Elements(points) => HttpUrls(CrlNames(points[..MalformedPointIndex(points)]))
  }

  // ----------------------------------------------------- unfolding lemmas

  lemma {:induction false} HttpUrlsConcat(a: seq<GeneralName>, b: seq<GeneralName>)
    ensures HttpUrls(a + b) == HttpUrls(a) + HttpUrls(b)
    decreases |b|
  {
    if b == [] {
      assert a + b == a;
    } else {
      var init, last := b[..|b| - 1], b[|b| - 1];
      var c := a + b;
      assert c[..|c| - 1] == a + init;
      assert c[|c| - 1] == last;
      HttpUrlsConcat(a, init);
      AppendAssoc(HttpUrls(a), HttpUrls(init), KeptUrl(last));
    }
  }

  lemma HttpUrlsSnoc(a: seq<GeneralName>, g: GeneralName)
    ensures HttpUrls(a + [g]) == HttpUrls(a) + KeptUrl(g)
  {
    assert (a + [g])[..|a|] == a;
  }

  // ------------------------------------------------------------- the loops

  /** getOCSPUrls: the for loop inside the try; the exception of an element
      that does not decode leaves the loop with the list built so far. */
  method GetOcspUrls(aia: Extension<AccessRecord>) returns (urls: seq<string>)
    ensures urls == OcspUrls(aia)
  {
    urls := [];
    if aia.Absent? || aia.Undecodable? {
      return;
    }
    var items := aia.items;
    ghost var m := MalformedAccessIndex(items);
    var i := 0;
    while i < |items|
      invariant 0 <= i <= m
      invariant urls == HttpUrls(OcspNames(items[..i]))
    {
      if items[i].MalformedAccess? {
        break;
      }
      assert i < m;
      OcspUrlsStep(items, i);
      var ad := items[i];
      if ad.accessMethod == ID_AD_OCSP && ad.location.tag == URI_TAG {
        var gn := ad.location;
        if gn.name.Some? && StartsWith(gn.name.value, "http") {
          urls := urls + [gn.name.value];
        }
      }
      i := i + 1;
    }
  }

  /** getCRLUrls: the distribution points, and inside each the names; the
      exception of a point that does not decode leaves both loops with the
      list built so far. */
  method GetCrlUrls(cdp: Extension<DistPointRecord>) returns (urls: seq<string>)
    ensures urls == CrlUrls(cdp)
  {
    urls := [];
    if cdp.Absent? || cdp.Undecodable? {
      return;
    }
    var points := cdp.items;
    ghost var m := MalformedPointIndex(points);
    var i := 0;
    while i < |points|
      invariant 0 <= i <= m
      invariant urls == HttpUrls(CrlNames(points[..i]))
    {
      if points[i].MalformedDistPoint? {
        break;
      }
      assert i < m;
      CrlUrlsStep(points, i);
      var dpn := points[i].pointName;
      if dpn.Some? && dpn.value.FullName? {
        urls := AddHttpUris(dpn.value.names, urls);
      }
      i := i + 1;
    }
  }

  /** One more access description adds the URL of its OCSP location, if any. */
  lemma OcspUrlsStep(items: seq<AccessRecord>, i: nat)
    requires i < |items|
    ensures HttpUrls(OcspNames(items[..i + 1])) ==
              HttpUrls(OcspNames(items[..i])) + (if IsOcspUriAccess(items[i]) then KeptUrl(items[i].location) else [])
  {
    OcspNamesStep(items, i);
    if IsOcspUriAccess(items[i]) {
      HttpUrlsSnoc(OcspNames(items[..i]), items[i].location);
    } else {
      assert OcspNames(items[..i + 1]) == OcspNames(items[..i]);
    }
  }

  /** One more name of a distribution point adds its URL, if it has one. */
  lemma HttpUrisStep(gns: seq<GeneralName>, j: nat, urls0: seq<string>)
    requires j < |gns|
    ensures urls0 + HttpUrls(UriNames(gns[..j + 1])) ==
              (urls0 + HttpUrls(UriNames(gns[..j]))) + (if gns[j].tag == URI_TAG then KeptUrl(gns[j]) else [])
  {
    UriNamesStep(gns, j);
    if gns[j].tag == URI_TAG {
      HttpUrlsSnoc(UriNames(gns[..j]), gns[j]);
      AppendAssoc(urls0, HttpUrls(UriNames(gns[..j])), KeptUrl(gns[j]));
    } else {
      assert UriNames(gns[..j + 1]) == UriNames(gns[..j]);
    }
  }

  /** One more distribution point adds the URLs of its own URI names. */
  lemma CrlUrlsStep(points: seq<DistPointRecord>, i: nat)
    requires i < |points|
    ensures HttpUrls(CrlNames(points[..i + 1])) == HttpUrls(CrlNames(points[..i])) + HttpUrls(FullNameUris(points[i]))
  {
    CrlNamesStep(points, i);
    HttpUrlsConcat(CrlNames(points[..i]), FullNameUris(points[i]));
  }

  /** The inner loop of getCRLUrls over the names of one distribution point. */
  method AddHttpUris(gns: seq<GeneralName>, urls0: seq<string>) returns (urls: seq<string>)
    ensures urls == urls0 + HttpUrls(UriNames(gns))
  {
    urls := urls0;
    var j := 0;
    assert gns[..0] == [];
    while j < |gns|
      invariant 0 <= j <= |gns|
      invariant urls == urls0 + HttpUrls(UriNames(gns[..j]))
    {
      HttpUrisStep(gns, j, urls0);
      var gn := gns[j];
      if gn.tag == URI_TAG && gn.name.Some? && StartsWith(gn.name.value, "http") {
        urls := urls + [gn.name.value];
      }
      j := j + 1;
    }
    assert gns[..j] == gns;
  }

  // ----------------------------------------------------- what the lists hold

  /** HttpUrls keeps exactly the readable names that start with "http". */
  lemma {:induction false} HttpUrlsExactly(names: seq<GeneralName>)
    ensures forall u :: u in HttpUrls(names) <==>
              exists k :: 0 <= k < |names| && names[k].name == Some(u) && StartsWith(u, "http")
    decreases |names|
  {
    if names != [] {
      var n := |names| - 1;
      var init := names[..n];
      HttpUrlsExactly(init);
      forall u ensures u in HttpUrls(names) <==>
                       exists k :: 0 <= k < |names| && names[k].name == Some(u) && StartsWith(u, "http")
      {
        if exists k :: 0 <= k < |names| && names[k].name == Some(u) && StartsWith(u, "http") {
          var k :| 0 <= k < |names| && names[k].name == Some(u) && StartsWith(u, "http");
          if k < n {
            assert init[k] == names[k];
          }
        }
      }
    }
  }

  /** When every name is kept, the list is the names' texts, one for one. */
  lemma {:induction false} HttpUrlsAllKept(names: seq<GeneralName>)
    requires forall k :: 0 <= k < |names| ==> names[k].name.Some? && StartsWith(names[k].name.value, "http")
    ensures |HttpUrls(names)| == |names|
    ensures forall k :: 0 <= k < |names| ==> HttpUrls(names)[k] == names[k].name.value
    decreases |names|
  {
    if names != [] {
      var n := |names| - 1;
      var init := names[..n];
      HttpUrlsAllKept(init);
      assert HttpUrls(names) == HttpUrls(init) + [names[n].name.value];
    }
  }

  /** Every URL either list returns starts with "http". */
  lemma UrlsStartWithHttp(aia: Extension<AccessRecord>, cdp: Extension<DistPointRecord>)
    ensures forall u :: u in OcspUrls(aia) ==> StartsWith(u, "http")
    ensures forall u :: u in CrlUrls(cdp) ==> StartsWith(u, "http")
  {
    if aia.Elements? {
      HttpUrlsExactly(OcspNames(aia.items[..MalformedAccessIndex(aia.items)]));
    }
    if cdp.Elements? {
      HttpUrlsExactly(CrlNames(cdp.items[..MalformedPointIndex(cdp.items)]));
    }
  }

  /** The OCSP list holds exactly the "http" texts of the id-ad-ocsp URI
      locations that come before the first element that does not decode. */
  lemma OcspUrlsExactly(items: seq<AccessRecord>)
    ensures forall u :: u in OcspUrls(Elements(items)) <==>
              exists k :: 0 <= k < MalformedAccessIndex(items) && IsOcspUriAccess(items[k]) &&
                          items[k].location.name == Some(u) && StartsWith(u, "http")
  {
    forall u ensures u in OcspUrls(Elements(items)) <==>
                     exists k :: 0 <= k < MalformedAccessIndex(items) && IsOcspUriAccess(items[k]) &&
                                 items[k].location.name == Some(u) && StartsWith(u, "http")
    {
      if u in OcspUrls(Elements(items)) {
        OcspUrlFound(items, u);
      }
      if exists k :: 0 <= k < MalformedAccessIndex(items) && IsOcspUriAccess(items[k]) &&
                     items[k].location.name == Some(u) && StartsWith(u, "http") {
        var k :| 0 <= k < MalformedAccessIndex(items) && IsOcspUriAccess(items[k]) &&
                 items[k].location.name == Some(u) && StartsWith(u, "http");
        OcspUrlKept(items, k, u);
      }
    }
  }

  lemma OcspUrlFound(items: seq<AccessRecord>, u: string)
    requires u in OcspUrls(Elements(items))
    ensures exists k :: 0 <= k < MalformedAccessIndex(items) && IsOcspUriAccess(items[k]) &&
                        items[k].location.name == Some(u) && StartsWith(u, "http")
  {
    var prefix := items[..MalformedAccessIndex(items)];
    var names := OcspNames(prefix);
    HttpUrlsExactly(names);
    OcspNamesExactly(prefix);
    var j :| 0 <= j < |names| && names[j].name == Some(u) && StartsWith(u, "http");
    assert names[j] in names;
    var k :| 0 <= k < |prefix| && IsOcspUriAccess(prefix[k]) && prefix[k].location == names[j];
    assert items[k] == prefix[k];
  }

  lemma OcspUrlKept(items: seq<AccessRecord>, k: nat, u: string)
    requires k < MalformedAccessIndex(items) && IsOcspUriAccess(items[k])
    requires items[k].location.name == Some(u) && StartsWith(u, "http")
    ensures u in OcspUrls(Elements(items))
  {
    var prefix := items[..MalformedAccessIndex(items)];
    var names := OcspNames(prefix);
    HttpUrlsExactly(names);
    OcspNamesExactly(prefix);
    assert prefix[k] == items[k];
    var g := items[k].location;
    assert g in names;
    var j :| 0 <= j < |names| && names[j] == g;
  }

  /** The CRL list holds exactly the "http" texts of the URI names of the
      full-name distribution points that come before the first point that
      does not decode. */
  lemma CrlUrlsExactly(points: seq<DistPointRecord>)
    ensures forall u :: u in CrlUrls(Elements(points)) <==>
              exists k, g :: 0 <= k < MalformedPointIndex(points) && IsFullName(points[k]) &&
                             g in points[k].pointName.value.names && g.tag == URI_TAG &&
                             g.name == Some(u) && StartsWith(u, "http")
  {
    forall u ensures u in CrlUrls(Elements(points)) <==>
                     exists k, g :: 0 <= k < MalformedPointIndex(points) && IsFullName(points[k]) &&
                                    g in points[k].pointName.value.names && g.tag == URI_TAG &&
                                    g.name == Some(u) && StartsWith(u, "http")
    {
      if u in CrlUrls(Elements(points)) {
        CrlUrlFound(points, u);
      }
      if exists k, g :: 0 <= k < MalformedPointIndex(points) && IsFullName(points[k]) &&
                        g in points[k].pointName.value.names && g.tag == URI_TAG &&
                        g.name == Some(u) && StartsWith(u, "http") {
        var k, g :| 0 <= k < MalformedPointIndex(points) && IsFullName(points[k]) &&
                    g in points[k].pointName.value.names && g.tag == URI_TAG &&
                    g.name == Some(u) && StartsWith(u, "http");
        CrlUrlKept(points, k, g, u);
      }
    }
  }

  lemma CrlUrlFound(points: seq<DistPointRecord>, u: string)
    requires u in CrlUrls(Elements(points))
    ensures exists k, g :: 0 <= k < MalformedPointIndex(points) && IsFullName(points[k]) &&
                           g in points[k].pointName.value.names && g.tag == URI_TAG &&
                           g.name == Some(u) && StartsWith(u, "http")
  {
    var prefix := points[..MalformedPointIndex(points)];
    var names := CrlNames(prefix);
    HttpUrlsExactly(names);
    CrlNamesExactly(prefix);
    var j :| 0 <= j < |names| && names[j].name == Some(u) && StartsWith(u, "http");
    assert names[j] in names;
    var k :| 0 <= k < |prefix| && IsFullName(prefix[k]) &&
             names[j] in prefix[k].pointName.value.names && names[j].tag == URI_TAG;
    assert points[k] == prefix[k];
  }

  lemma CrlUrlKept(points: seq<DistPointRecord>, k: nat, g: GeneralName, u: string)
    requires k < MalformedPointIndex(points) && IsFullName(points[k])
    requires g in points[k].pointName.value.names && g.tag == URI_TAG
    requires g.name == Some(u) && StartsWith(u, "http")
    ensures u in CrlUrls(Elements(points))
  {
    var prefix := points[..MalformedPointIndex(points)];
    var names := CrlNames(prefix);
    HttpUrlsExactly(names);
    CrlNamesExactly(prefix);
    assert prefix[k] == points[k];
    assert g in names;
    var j :| 0 <= j < |names| && names[j] == g;
  }

  /** An element that does not decode hides every element after it: the
      URLs found before it are returned as they are. */
  lemma OcspPrefixKept(items: seq<AccessRecord>, rest: seq<AccessRecord>)
    requires MalformedAccess !in items
    ensures OcspUrls(Elements(items + [MalformedAccess] + rest)) == OcspUrls(Elements(items))
  {
    var all := items + [MalformedAccess] + rest;
    assert all[|items|] == MalformedAccess;
    assert forall j :: 0 <= j < |items| ==> all[j] == items[j];
    assert MalformedAccessIndex(items) == |items|;
    assert MalformedAccessIndex(all) == |items|;
    assert all[..|items|] == items;
    assert items[..|items|] == items;
  }

  /** The same for the distribution points. */
  lemma CrlPrefixKept(points: seq<DistPointRecord>, rest: seq<DistPointRecord>)
    requires MalformedDistPoint !in points
    ensures CrlUrls(Elements(points + [MalformedDistPoint] + rest)) == CrlUrls(Elements(points))
  {
    var all := points + [MalformedDistPoint] + rest;
    assert all[|points|] == MalformedDistPoint;
    assert forall j :: 0 <= j < |points| ==> all[j] == points[j];
    assert MalformedPointIndex(points) == |points|;
    assert MalformedPointIndex(all) == |points|;
    assert all[..|points|] == points;
    assert points[..|points|] == points;
  }

  /** For a well-formed extension whose OCSP locations are all readable
      "http" URIs without '[', the two verifiers agree: the XML verifier's
      list, once each entry is cleaned of its "[CONTEXT 6]" tag, is the PDF
      verifier's list. */
  lemma OcspListsAgree(items: seq<AccessRecord>)
    requires MalformedAccess !in items
    requires forall k :: 0 <= k < |items| && IsOcspUriAccess(items[k]) ==>
               items[k].location.name.Some? && '[' !in items[k].location.name.value &&
               StartsWith(items[k].location.name.value, "http")
    ensures XmlCertificateUtils.OcspUrls(Elements(items)).Ok?
    ensures var xml := XmlCertificateUtils.OcspUrls(Elements(items)).value;
            var pdf := OcspUrls(Elements(items));
            |xml| == |pdf| && forall k :: 0 <= k < |pdf| ==> XmlRevocation.CleanUrl(xml[k]) == pdf[k]
  {
    var names := OcspNames(items);
    OcspNamesExactly(items);
    assert MalformedAccessIndex(items) == |items|;
    assert items[..|items|] == items;
    forall k | 0 <= k < |names|
      ensures names[k].tag == URI_TAG && names[k].name.Some? && '[' !in names[k].name.value &&
              StartsWith(names[k].name.value, "http")
    {
      assert names[k] in names;
    }
    XmlCertificateUtils.RenderAllOk(names);
    HttpUrlsAllKept(names);
    forall k | 0 <= k < |names|
      ensures XmlRevocation.CleanUrl(XmlCertificateUtils.RenderAll(names).value[k]) == HttpUrls(names)[k]
    {
      XmlRevocation.CleanUrlRemovesUriTag(names[k].name.value);
    }
  }
}
