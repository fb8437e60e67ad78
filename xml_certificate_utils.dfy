/** The XML verifier's certificate helpers: the OCSP and CRL locations named
    by a certificate's extensions, and the look-up of the issuer certificate
    in the trust store. Decoding is eager: one element of an extension that
    does not decode makes the whole call fail, and so does a location whose
    name cannot be rendered. */
module XmlCertificateUtils {
  import opened Wrappers
  import opened JavaStrings
  import opened Extensions

  const DECODE_FAILURE := "extension could not be decoded"
  const RENDER_FAILURE := "Error extracting string from GeneralName: "

  /** extractString: the text BouncyCastle prints for a tagged name,
      "[CONTEXT <tag>]" followed by its value. */
  function ExtractString(gn: GeneralName): (r: Result<string>)
    ensures r.Ok? <==> gn.name.Some?
    ensures r.Err? ==> r.error == RENDER_FAILURE
    ensures gn.tag == URI_TAG && gn.name.Some? ==> r.value == "[CONTEXT 6]" + gn.name.value
  {
    if gn.name.None? then Err(RENDER_FAILURE)
    else Ok("[CONTEXT " + IntToString(gn.tag) + "]" + gn.name.value)
  }

  /** Rendering the names one after the other, stopping at the first that
      cannot be rendered. */
  function RenderAll(names: seq<GeneralName>): (r: Result<seq<string>>)
    ensures r.Ok? ==> |r.value| == |names|
    decreases |names|
  {
    if names == [] then Ok([])
    else
      match RenderAll(names[..|names| - 1])
      case Err(e) => Err(e)
      case Ok(init) =>
        match ExtractString(names[|names| - 1])
        case Err(e) => Err(e)
        case Ok(s) => Ok(init + [s])
  }

  /** getOCSPUrls: no extension gives the empty list; an unreadable
      extension or element, or an unrenderable location, is an exception. */
  function OcspUrls(aia: Extension<AccessRecord>): Result<seq<string>>
  {
    match aia
    case Absent => Ok([])
    case Undecodable => Err(DECODE_FAILURE)
    case Elements(items) =>
      if MalformedAccess in items then Err(DECODE_FAILURE) else RenderAll(OcspNames(items))
  }

  /** getCRLUrls, on the same terms as getOCSPUrls. */
  function CrlUrls(cdp: Extension<DistPointRecord>): Result<seq<string>>
  {
    match cdp
    case Absent => Ok([])
    case Undecodable => Err(DECODE_FAILURE)
    case Elements(points) =>
      if MalformedDistPoint in points then Err(DECODE_FAILURE) else RenderAll(CrlNames(points))
  }

  // ----------------------------------------------------- unfolding lemmas

  lemma {:induction false} RenderAllSnoc(xs: seq<GeneralName>, g: GeneralName)
    ensures RenderAll(xs).Err? ==> RenderAll(xs + [g]) == RenderAll(xs)
    ensures RenderAll(xs).Ok? && g.name.None? ==> RenderAll(xs + [g]) == Err(RENDER_FAILURE)
    ensures RenderAll(xs).Ok? && g.name.Some? ==>
              RenderAll(xs + [g]) == Ok(RenderAll(xs).value + [ExtractString(g).value])
  {
    assert (xs + [g])[..|xs|] == xs;
    assert (xs + [g])[|xs|] == g;
  }

  /** Once rendering has failed, later names do not change the outcome. */
  lemma {:induction false} RenderAllErrPersists(xs: seq<GeneralName>, ys: seq<GeneralName>)
    requires RenderAll(xs).Err?
    ensures RenderAll(xs + ys) == RenderAll(xs)
    decreases |ys|
  {
    if ys != [] {
      var init := ys[..|ys| - 1];
      RenderAllErrPersists(xs, init);
      assert xs + ys == (xs + init) + [ys[|ys| - 1]];
      RenderAllSnoc(xs + init, ys[|ys| - 1]);
      assert RenderAll(xs + init).Err?;
    } else {
      assert xs + ys == xs;
    }
  }

  // ------------------------------------------------------------- the loops

  /** getOCSPUrls: the enhanced for loop over the access descriptions. */
  method GetOcspUrls(aia: Extension<AccessRecord>) returns (r: Result<seq<string>>)
    ensures r == OcspUrls(aia)
  {
    if aia.Absent? {
      return Ok([]);
    }
    if aia.Undecodable? || MalformedAccess in aia.items {
      return Err(DECODE_FAILURE);
    }
    var items := aia.items;
    var urls: seq<string> := [];
    var i := 0;
    while i < |items|
      invariant 0 <= i <= |items|
      invariant RenderAll(OcspNames(items[..i])) == Ok(urls)
    {
      OcspRenderStep(items, i, urls);
      var ad := items[i];
      if ad.accessMethod == ID_AD_OCSP {
        var gn := ad.location;
        if gn.tag == URI_TAG {
          var s := ExtractString(gn);
          if s.Err? {
            return Err(s.error);
          }
          urls := urls + [s.value];
        }
      }
      i := i + 1;
    }
    assert items[..i] == items;
    r := Ok(urls);
  }

  /** One more access description renders its OCSP location, if any; a
      location that cannot be rendered decides the whole outcome. */
  lemma OcspRenderStep(items: seq<AccessRecord>, i: nat, urls: seq<string>)
    requires i < |items| && RenderAll(OcspNames(items[..i])) == Ok(urls)
    ensures !IsOcspUriAccess(items[i]) ==> RenderAll(OcspNames(items[..i + 1])) == Ok(urls)
    ensures IsOcspUriAccess(items[i]) && items[i].location.name.Some? ==>
              RenderAll(OcspNames(items[..i + 1])) == Ok(urls + [ExtractString(items[i].location).value])
    ensures IsOcspUriAccess(items[i]) && items[i].location.name.None? ==>
              RenderAll(OcspNames(items)) == Err(RENDER_FAILURE)
  {
    OcspNamesStep(items, i);
    if IsOcspUriAccess(items[i]) {
      RenderAllSnoc(OcspNames(items[..i]), items[i].location);
      if items[i].location.name.None? {
        OcspNamesSplit(items, i);
        RenderAllErrPersists(OcspNames(items[..i + 1]), OcspNames(items[i + 1..]));
      }
    } else {
      assert OcspNames(items[..i + 1]) == OcspNames(items[..i]);
    }
  }

  /** getCRLUrls: the distribution points, and inside each the names. */
  method GetCrlUrls(cdp: Extension<DistPointRecord>) returns (r: Result<seq<string>>)
    ensures r == CrlUrls(cdp)
  {
    if cdp.Absent? {
      return Ok([]);
    }
    if cdp.Undecodable? || MalformedDistPoint in cdp.items {
      return Err(DECODE_FAILURE);
    }
    var points := cdp.items;
    var urls: seq<string> := [];
    var i := 0;
    while i < |points|
      invariant 0 <= i <= |points|
      invariant RenderAll(CrlNames(points[..i])) == Ok(urls)
    {
      CrlRenderStep(points, i);
      var dpn := points[i].pointName;
      if dpn.Some? && dpn.value.FullName? {
        var more := AddUriNames(dpn.value.names, CrlNames(points[..i]), urls);
        if more.Err? {
          return more;
        }
        urls := more.value;
      }
      i := i + 1;
    }
    assert points[..i] == points;
    r := Ok(urls);
  }

  /** One more distribution point renders its URI names after the names
      before it; a failure there decides the whole outcome. */
  lemma CrlRenderStep(points: seq<DistPointRecord>, i: nat)
    requires i < |points|
    ensures RenderAll(CrlNames(points[..i + 1])) == RenderAll(CrlNames(points[..i]) + FullNameUris(points[i]))
    ensures !IsFullName(points[i]) ==> CrlNames(points[..i + 1]) == CrlNames(points[..i])
    ensures RenderAll(CrlNames(points[..i + 1])).Err? ==> RenderAll(CrlNames(points)) == RenderAll(CrlNames(points[..i + 1]))
  {
    CrlNamesStep(points, i);
    if !IsFullName(points[i]) {
      assert CrlNames(points[..i + 1]) == CrlNames(points[..i]);
    }
    if RenderAll(CrlNames(points[..i + 1])).Err? {
      CrlNamesSplit(points, i);
      RenderAllErrPersists(CrlNames(points[..i + 1]), CrlNames(points[i + 1..]));
    }
  }

  /** The inner loop of getCRLUrls: the URI names of one distribution point
      are rendered after the URLs already collected for the names before. */
  method AddUriNames(gns: seq<GeneralName>, ghost before: seq<GeneralName>, urls0: seq<string>)
    returns (r: Result<seq<string>>)
    requires RenderAll(before) == Ok(urls0)
    ensures r == RenderAll(before + UriNames(gns))
  {
    var urls := urls0;
    var j := 0;
    assert gns[..0] == [];
    assert before + UriNames(gns[..0]) == before;
    while j < |gns|
      invariant 0 <= j <= |gns|
      invariant RenderAll(before + UriNames(gns[..j])) == Ok(urls)
    {
      UriRenderStep(gns, j, before, urls);
      if gns[j].tag == URI_TAG {
        var s := ExtractString(gns[j]);
        if s.Err? {
          return Err(s.error);
        }
        urls := urls + [s.value];
      }
      j := j + 1;
    }
    assert gns[..j] == gns;
    r := Ok(urls);
  }

  /** One more name of a distribution point renders after the names before
      it, if it is a URI; a URI that cannot be rendered decides the whole
      outcome. */
  lemma UriRenderStep(gns: seq<GeneralName>, j: nat, before: seq<GeneralName>, urls: seq<string>)
    requires j < |gns| && RenderAll(before + UriNames(gns[..j])) == Ok(urls)
    ensures gns[j].tag != URI_TAG ==> RenderAll(before + UriNames(gns[..j + 1])) == Ok(urls)
    ensures gns[j].tag == URI_TAG && gns[j].name.Some? ==>
              RenderAll(before + UriNames(gns[..j + 1])) == Ok(urls + [ExtractString(gns[j]).value])
    ensures gns[j].tag == URI_TAG && gns[j].name.None? ==>
              RenderAll(before + UriNames(gns)) == Err(RENDER_FAILURE)
  {
    UriNamesStep(gns, j);
    var head := UriNames(gns[..j]);
    if gns[j].tag == URI_TAG {
      AppendAssoc(before, head, [gns[j]]);
      RenderAllSnoc(before + head, gns[j]);
      if gns[j].name.None? {
        var rest := UriNames(gns[j + 1..]);
        UriNamesSplit(gns, j);
        AppendAssoc(before, head + [gns[j]], rest);
        RenderAllErrPersists(before + head + [gns[j]], rest);
      }
    } else {
      assert UriNames(gns[..j + 1]) == head;
    }
  }

  // ----------------------------------------------------- what the lists hold

  /** Every location renders exactly when all of them can be, and then the
      list holds one rendered text per location, in order. */
  lemma {:induction false} RenderAllOk(names: seq<GeneralName>)
    ensures RenderAll(names).Ok? <==> forall k :: 0 <= k < |names| ==> names[k].name.Some?
    ensures RenderAll(names).Ok? ==>
              forall k :: 0 <= k < |names| ==> RenderAll(names).value[k] == ExtractString(names[k]).value
    decreases |names|
  {
    if names != [] {
      var n := |names| - 1;
      var init := names[..n];
      RenderAllOk(init);
      assert names == init + [names[n]];
      RenderAllSnoc(init, names[n]);
      assert forall k :: 0 <= k < n ==> init[k] == names[k];
      var r := RenderAll(names);
      if r.Ok? {
        var ri := RenderAll(init);
        assert r.value == ri.value + [ExtractString(names[n]).value];
        forall k | 0 <= k < |names| ensures r.value[k] == ExtractString(names[k]).value {
          if k < n {
            assert r.value[k] == ri.value[k];
          }
        }
      }
    }
  }

  /** A certificate whose OCSP descriptions all carry a URI with no '['
      yields those URIs, each behind the "[CONTEXT 6]" tag. */
  lemma OcspUrlsRendered(items: seq<AccessRecord>)
    requires MalformedAccess !in items
    requires forall k :: 0 <= k < |items| && IsOcspUriAccess(items[k]) ==> items[k].location.name.Some?
    ensures OcspUrls(Elements(items)).Ok?
    ensures forall u :: u in OcspUrls(Elements(items)).value ==>
              exists k :: 0 <= k < |items| && IsOcspUriAccess(items[k]) &&
                          u == "[CONTEXT 6]" + items[k].location.name.value
  {
    var names := OcspNames(items);
    OcspNamesExactly(items);
    assert forall k :: 0 <= k < |names| ==> names[k] in names;
    RenderAllOk(names);
    forall u | u in RenderAll(names).value
      ensures exists k :: 0 <= k < |items| && IsOcspUriAccess(items[k]) &&
                          u == "[CONTEXT 6]" + items[k].location.name.value
    {
      var m :| 0 <= m < |names| && RenderAll(names).value[m] == u;
      assert names[m] in names;
      var k :| 0 <= k < |items| && IsOcspUriAccess(items[k]) && items[k].location == names[m];
    }
  }

  // ------------------------------------------------------------ the issuer

  /** One alias of the trust store: a certificate with its subject DN, or
      an alias whose entry is not an X.509 certificate. */
  datatype StoreEntry = StoreCert(subjectDN: string) | NotCertificate

  /** The walk over the aliases reaches a certificate for this issuer DN
      before any entry that is not a certificate. */
  predicate IssuerReachable(issuerDN: string, store: Option<seq<StoreEntry>>)
  {
    store.Some? &&
    exists j :: 0 <= j < |store.value| && store.value[j] == StoreCert(issuerDN) &&
                forall k :: 0 <= k < j ==> store.value[k].StoreCert?
  }

  /** getIssuerCertificate: the aliases are walked in the store's order and
      the first certificate whose subject DN equals the issuer DN is
      returned (its position here). A store that cannot be opened (None),
      or an entry that is not a certificate reached before a match, ends
      the search with null. */
  method GetIssuerCertificate(issuerDN: string, store: Option<seq<StoreEntry>>) returns (found: Option<nat>)
    ensures found.Some? <==> IssuerReachable(issuerDN, store)
    ensures found.Some? ==>
              store.Some? && found.value < |store.value| && store.value[found.value] == StoreCert(issuerDN) &&
              forall j :: 0 <= j < found.value ==> store.value[j].StoreCert? && store.value[j].subjectDN != issuerDN
    ensures store.Some? && found.None? ==>
              forall j :: 0 <= j < |store.value| && store.value[j] == StoreCert(issuerDN) ==>
                exists k :: 0 <= k < j && store.value[k].NotCertificate?
  {
    if store.None? {
      return None;
    }
    var entries := store.value;
    var i := 0;
    while i < |entries|
      invariant 0 <= i <= |entries|
      invariant forall j :: 0 <= j < i ==> entries[j].StoreCert? && entries[j].subjectDN != issuerDN
    {
      if entries[i].NotCertificate? {
        return None;
      }
      if entries[i].subjectDN == issuerDN {
        return Some(i);
      }
      i := i + 1;
    }
    return None;
  }
}
