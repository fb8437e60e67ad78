/** How the schema validator finds and fetches the schema of a document:
    the location hints of section 2.6.3 of XML Schema Part 1 (the
    xsi:schemaLocation pairs and xsi:noNamespaceSchemaLocation), read in a
    fixed order, and the download that retries the other of http and https. */
module XsdDownloader {
  import opened Wrappers
  import opened JavaStrings

  // ---------------------------------------------------------- the hints

  /** An element named schemaLocation or noNamespaceSchemaLocation in the
      XML Schema instance namespace, by the text it encloses. */
  datatype XsiElement = XsiElement(textContent: string)

  /** What the extraction can see of a document: the root's
      xsi:schemaLocation and xsi:noNamespaceSchemaLocation attributes (""
      when absent, which is what getAttributeNS answers), and the first
      element in document order of either name (None when there is none). */
  datatype SchemaHints = SchemaHints(
    schemaLocation: string,
    schemaLocationElement: Option<XsiElement>,
    noNamespaceLocation: string,
    noNamespaceElement: Option<XsiElement>)

  /** Node.getNodeValue of an element node: the DOM defines it as null for
      every element, whatever the element encloses. */
  function NodeValue(e: XsiElement): Option<string>
  {
    None
  }

  /** The first element of this name, read through getNodeValue. */
  function ElementNodeValue(e: Option<XsiElement>): Option<string>
  {
    if e.None? then None else NodeValue(e.value)
  }

  /** The first element of this name, read through getTextContent. */
  function ElementText(e: Option<XsiElement>): Option<string>
  {
    if e.None? then None else Some(e.value.textContent)
  }

  // ------------------------------------------------------------- splitting

  /** s.split("\\s+"): a leading \s run yields a leading "", trailing empty
      pieces are dropped (so an all-\s string gives no piece), and a string
      without any \s is its own single piece. */
  function SplitOnSpaces(s: string): (parts: seq<string>)
    ensures s != [] && !IsRegexSpace(s[0]) ==> parts == Words(s)
  {
    if s == [] then [""]
    else if Words(s) == [] then []
    else (if IsRegexSpace(s[0]) then [""] else []) + Words(s)
  }

  /** The last piece of a split. */
  function LastPart(parts: seq<string>): string
    requires parts != []
  {
    parts[|parts| - 1]
  }

  // ------------------------------------------------------------ normalising

  /** normalizeUrl: null and blank give null, anything else is trimmed. */
  function NormalizeUrl(url: Option<string>): (r: Option<string>)
    ensures r.None? <==> url.None? || IsBlank(url.value)
    ensures r.Some? ==> r.value == Trim(url.value) && r.value != [] && r.value[0] > ' ' && r.value[|r.value| - 1] > ' '
  {
    if url.None? || IsBlank(url.value) then None else Some(Trim(url.value))
  }

  /** A normalised location is its own trim and is not blank. */
  lemma NormalizedIsNormal(url: Option<string>)
    ensures NormalizeUrl(url).Some? ==> !IsBlank(NormalizeUrl(url).value) && Trim(NormalizeUrl(url).value) == NormalizeUrl(url).value
  {
    if url.Some? {
      TrimIdempotent(url.value);
    }
  }

  /** Normalising twice is normalising once. */
  lemma NormalizeUrlIdempotent(url: Option<string>)
    ensures NormalizeUrl(NormalizeUrl(url)) == NormalizeUrl(url)
  {
    NormalizedIsNormal(url);
  }

  // ------------------------------------------------------------ extraction

  /** The four steps in their order, giving the raw value of the step
      that applies. Each of the two schemaLocation steps applies to a
      non-blank value that splits into at least two pieces and gives the
      last piece; the attribute is trimmed before it is split, the element
      value is not. Each noNamespaceSchemaLocation step applies to a
      non-blank value and gives it trimmed. */
  function SelectedLocation(attribute: string, elementValue: Option<string>,
                            noNamespaceAttribute: string, noNamespaceValue: Option<string>): Option<string>
  {
    if !IsBlank(attribute) && |Words(Trim(attribute))| >= 2 then
      Some(LastPart(Words(Trim(attribute))))
    else if elementValue.Some? && !IsBlank(elementValue.value) && |SplitOnSpaces(elementValue.value)| >= 2 then
      Some(LastPart(SplitOnSpaces(elementValue.value)))
    else if !IsBlank(noNamespaceAttribute) then
      Some(Trim(noNamespaceAttribute))
    else if noNamespaceValue.Some? && !IsBlank(noNamespaceValue.value) then
      Some(Trim(noNamespaceValue.value))
    else None
  }

  /** The step that applies ends the search, and its value is returned
      normalised, even when normalising gives null. */
  function LocationFrom(attribute: string, elementValue: Option<string>,
                        noNamespaceAttribute: string, noNamespaceValue: Option<string>): Option<string>
  {
    NormalizeUrl(SelectedLocation(attribute, elementValue, noNamespaceAttribute, noNamespaceValue))
  }

  /** extractXSDUrlFromXML as written: the element steps read the elements
      through getNodeValue. */
  function ExtractXsdUrl(hints: SchemaHints): Option<string>
  {
    LocationFrom(hints.schemaLocation, ElementNodeValue(hints.schemaLocationElement),
                 hints.noNamespaceLocation, ElementNodeValue(hints.noNamespaceElement))
  }

  /** The extraction as its element steps intend it: the elements are read
      through their text content. */
  function ExtractXsdUrlFromText(hints: SchemaHints): Option<string>
  {
    LocationFrom(hints.schemaLocation, ElementText(hints.schemaLocationElement),
                 hints.noNamespaceLocation, ElementText(hints.noNamespaceElement))
  }

  /** Whatever the hints, a location found is trimmed and not blank. */
  lemma LocationIsNormal(attribute: string, elementValue: Option<string>,
                         noNamespaceAttribute: string, noNamespaceValue: Option<string>)
    ensures var r := LocationFrom(attribute, elementValue, noNamespaceAttribute, noNamespaceValue);
            r.Some? ==> !IsBlank(r.value) && Trim(r.value) == r.value
  {
    NormalizedIsNormal(SelectedLocation(attribute, elementValue, noNamespaceAttribute, noNamespaceValue));
  }

  lemma TightIsTrimmed(s: string)
    requires s != [] && s[0] > ' ' && s[|s| - 1] > ' '
    ensures Trim(s) == s
  {
    assert TrimStart(s) == s;
    assert TrimEnd(s) == s;
  }

  /** As written, the element steps never apply: the result depends on the
      two attributes alone. */
  lemma ElementsNeverRead(hints: SchemaHints, e1: Option<XsiElement>, e2: Option<XsiElement>)
    ensures ExtractXsdUrl(hints) == ExtractXsdUrl(hints.(schemaLocationElement := e1, noNamespaceElement := e2))
  {
    assert ElementNodeValue(hints.schemaLocationElement) == None == ElementNodeValue(e1);
    assert ElementNodeValue(hints.noNamespaceElement) == None == ElementNodeValue(e2);
  }

  /** A document whose only hint is a noNamespaceSchemaLocation element
      enclosing a location: the extraction as written finds nothing, the
      text-reading one finds that location. */
  lemma ElementOnlyHintLost(url: string)
    requires url != [] && url[0] > ' ' && url[|url| - 1] > ' '
    ensures ExtractXsdUrl(SchemaHints("", None, "", Some(XsiElement(url)))) == None
    ensures ExtractXsdUrlFromText(SchemaHints("", None, "", Some(XsiElement(url)))) == Some(url)
  {
    TightIsTrimmed(url);
    assert !IsBlank(url) by {
      assert url[0] > ' ';
    }
  }

  /** Characters of a location token: neither blank nor \s. */
  predicate IsTight(s: string)
  {
    s != [] && forall i :: 0 <= i < |s| ==> s[i] > ' '
  }

  /** A pair "namespace location" in the schemaLocation attribute decides,
      whatever the other hints say; the location is taken as it stands. */
  lemma SchemaLocationPairWins(namespace: string, url: string, e1: Option<XsiElement>, nn: string, e2: Option<XsiElement>)
    requires IsTight(namespace) && IsTight(url)
    ensures ExtractXsdUrl(SchemaHints(namespace + " " + url, e1, nn, e2)) == Some(url)
    ensures ExtractXsdUrlFromText(SchemaHints(namespace + " " + url, e1, nn, e2)) == Some(url)
  {
    PairIsSplit(namespace, url);
    PairDecides(namespace + " " + url, url, ElementNodeValue(e1), nn, ElementNodeValue(e2));
    PairDecides(namespace + " " + url, url, ElementText(e1), nn, ElementText(e2));
  }

  lemma PairIsSplit(namespace: string, url: string)
    requires IsTight(namespace) && IsTight(url)
    ensures !IsBlank(namespace + " " + url)
    ensures Words(Trim(namespace + " " + url)) == [namespace, url]
  {
    var pair := namespace + " " + url;
    assert pair[0] == namespace[0] && pair[|pair| - 1] == url[|url| - 1];
    TightIsTrimmed(pair);
    WordsOfPair(namespace, url);
  }

  lemma PairDecides(attribute: string, url: string, ev: Option<string>, nn: string, nv: Option<string>)
    requires !IsBlank(attribute) && |Words(Trim(attribute))| == 2 && Words(Trim(attribute))[1] == url
    requires IsTight(url)
    ensures LocationFrom(attribute, ev, nn, nv) == Some(url)
  {
    TightIsTrimmed(url);
    assert !IsBlank(url) by {
      assert url[0] > ' ';
    }
  }

  /** "a b" with tight a and b splits into [a, b]. */
  lemma WordsOfPair(a: string, b: string)
    requires IsTight(a) && IsTight(b)
    ensures Words(a + " " + b) == [a, b]
  {
    var s := a + " " + b;
    RunLengthOfPair(a, " " + b);
    assert s[..|a|] == a;
    assert s[|a|..] == " " + b;
    assert Words(" " + b) == Words(b) by {
      assert (" " + b)[1..] == b;
    }
    WordsOfSpaceFree(b);
  }

  lemma {:induction false} RunLengthOfPair(a: string, rest: string)
    requires IsTight(a) && rest != [] && IsRegexSpace(rest[0])
    ensures RunLength(a + rest) == |a|
    decreases |a|
  {
    if |a| > 1 {
      assert (a + rest)[1..] == a[1..] + rest;
      RunLengthOfPair(a[1..], rest);
    } else {
      assert (a + rest)[1..] == rest;
    }
  }

  /** A schemaLocation element enclosing a namespace-location pair, on a root
      without the attribute: read through its text it gives the location;
      read as written it is skipped as if it were absent. */
  lemma PairElementReadFromText(namespace: string, url: string, nn: string, e2: Option<XsiElement>)
    requires IsTight(namespace) && IsTight(url)
    ensures ExtractXsdUrlFromText(SchemaHints("", Some(XsiElement(namespace + " " + url)), nn, e2)) == Some(url)
    ensures ExtractXsdUrl(SchemaHints("", Some(XsiElement(namespace + " " + url)), nn, e2)) ==
            ExtractXsdUrl(SchemaHints("", None, nn, e2))
  {
    var pair := namespace + " " + url;
    PairElementSelected(namespace, url, nn, ElementText(e2));
    assert ElementText(Some(XsiElement(pair))) == Some(pair);
    TightIsNormal(url);
    assert ElementNodeValue(Some(XsiElement(pair))) == None == ElementNodeValue(None);
  }

  lemma PairElementSelected(namespace: string, url: string, nn: string, nv: Option<string>)
    requires IsTight(namespace) && IsTight(url)
    ensures SelectedLocation("", Some(namespace + " " + url), nn, nv) == Some(url)
  {
    PairIsSplit(namespace, url);
    SplitOfPair(namespace, url);
    assert IsBlank("") by {
      assert Trim("") == [];
    }
  }

  lemma SplitOfPair(namespace: string, url: string)
    requires IsTight(namespace) && IsTight(url)
    ensures SplitOnSpaces(namespace + " " + url) == [namespace, url]
  {
    var pair := namespace + " " + url;
    WordsOfPair(namespace, url);
    assert pair[0] == namespace[0];
  }

  /** A lone token in schemaLocation does not count: the extraction goes
      on as if the attribute were absent. */
  lemma SingleTokenFallsThrough(hints: SchemaHints)
    requires IsTight(hints.schemaLocation)
    ensures ExtractXsdUrl(hints) == ExtractXsdUrl(hints.(schemaLocation := ""))
    ensures ExtractXsdUrlFromText(hints) == ExtractXsdUrlFromText(hints.(schemaLocation := ""))
  {
    TightIsTrimmed(hints.schemaLocation);
    WordsOfSpaceFree(hints.schemaLocation);
  }

  /** The noNamespaceSchemaLocation attribute is used only when the
      schemaLocation attribute has no pair: a tight value is returned as it
      stands. */
  lemma NoNamespaceLocationUsed(hints: SchemaHints)
    requires hints.schemaLocation == "" && IsTight(hints.noNamespaceLocation)
    ensures ExtractXsdUrl(hints) == Some(hints.noNamespaceLocation)
  {
    TightIsTrimmed(hints.noNamespaceLocation);
    assert !IsBlank(hints.noNamespaceLocation) by {
      assert hints.noNamespaceLocation[0] > ' ';
    }
  }

  // ------------------------------------------------------------- candidates

  const HTTP_SCHEME: string := "http://"
  const HTTPS_SCHEME: string := "https://"

  /** The URLs tried for a normalised location: itself first, then, for an
      http or https location, the same location under the other scheme. */
  function Candidates(url: string): (c: seq<string>)
    ensures 1 <= |c| <= 2 && c[0] == url
    ensures |c| == 2 <==> StartsWith(url, HTTP_SCHEME) || StartsWith(url, HTTPS_SCHEME)
  {
    if StartsWith(url, HTTP_SCHEME) then [url, HTTPS_SCHEME + url[7..]]
    else if StartsWith(url, HTTPS_SCHEME) then [url, HTTP_SCHEME + url[8..]]
    else [url]
  }

  /** The alternative of an http location is its https form, and the other
      way round; asking for the alternative gives back the same two URLs in
      the other order. */
  lemma CandidatesSwapScheme(rest: string)
    ensures Candidates(HTTP_SCHEME + rest) == [HTTP_SCHEME + rest, HTTPS_SCHEME + rest]
    ensures Candidates(HTTPS_SCHEME + rest) == [HTTPS_SCHEME + rest, HTTP_SCHEME + rest]
  {
    var h := HTTP_SCHEME + rest;
    var s := HTTPS_SCHEME + rest;
    assert h[..7] == HTTP_SCHEME && h[7..] == rest;
    assert s[..8] == HTTPS_SCHEME && s[8..] == rest;
    assert s[4] == 's' != HTTP_SCHEME[4];
  }

  // ---------------------------------------------------------------- download

  /** The outcome of downloadXSD: the downloaded file, or the IOException
      raised: no connectivity, a location that normalises to null, or every
      candidate failing (with the failure of the last one as its cause). */
  datatype Download = Downloaded(file: string) | Offline | InvalidUrl | AllFailed(lastCause: string)

  /** The file of the first candidate whose download succeeds. */
  function FirstDownload(urls: seq<string>, fetch: string -> Result<string>): (r: Option<string>)
    ensures r.None? <==> forall i :: 0 <= i < |urls| ==> fetch(urls[i]).Err?
    ensures r.Some? ==> exists i :: 0 <= i < |urls| && fetch(urls[i]) == Ok(r.value) &&
                                    forall j :: 0 <= j < i ==> fetch(urls[j]).Err?
    decreases |urls|
  {
    if urls == [] then None
    else if fetch(urls[0]).Ok? then Some(fetch(urls[0]).value)
    else
      var r := FirstDownload(urls[1..], fetch);
      assert forall i :: 1 <= i < |urls| ==> urls[i] == urls[1..][i - 1];
      if r.Some? then
        ghost var i :| 0 <= i < |urls[1..]| && fetch(urls[1..][i]) == Ok(r.value) &&
                       forall j :: 0 <= j < i ==> fetch(urls[1..][j]).Err?;
        assert fetch(urls[i + 1]) == Ok(r.value);
        r
      else r
  }

  /** What downloadXSD does, given connectivity and the outcome of each
      single download (by URL). */
  function DownloadOutcome(xsdUrl: string, online: bool, fetch: string -> Result<string>): Download
  {
    if !online then Offline
    else match NormalizeUrl(Some(xsdUrl))
      case None => InvalidUrl
      case Some(u) =>
        var urls := Candidates(u);
        match FirstDownload(urls, fetch)
        case Some(file) => Downloaded(file)
        case None => AllFailed(fetch(urls[|urls| - 1]).error)
  }

  /** downloadXSD: the connectivity probe, the normalisation, then each
      candidate in turn until one downloads; a failed attempt is remembered
      as the cause of the final failure. */
  method DownloadXsd(xsdUrl: string, online: bool, fetch: string -> Result<string>) returns (r: Download)
    ensures r == DownloadOutcome(xsdUrl, online, fetch)
  {
    if !online {
      return Offline;
    }
    var normalized := NormalizeUrl(Some(xsdUrl));
    if normalized.None? {
      return InvalidUrl;
    }
    var urls := Candidates(normalized.value);
    var lastCause := "";
    var i := 0;
    while i < |urls|
      invariant 0 <= i <= |urls|
      invariant FirstDownload(urls, fetch) == FirstDownload(urls[i..], fetch)
      invariant i > 0 ==> fetch(urls[i - 1]).Err? && lastCause == fetch(urls[i - 1]).error
    {
      assert urls[i..][1..] == urls[i + 1..];
      var attempt := fetch(urls[i]);
      if attempt.Ok? {
        return Downloaded(attempt.value);
      }
      lastCause := attempt.error;
      i := i + 1;
    }
    return AllFailed(lastCause);
  }

  /** A download succeeds exactly when one of the candidates does; the
      first candidate that works is the one used, so when the location
      itself works its alternative is never consulted. */
  lemma DownloadedExactly(xsdUrl: string, online: bool, fetch: string -> Result<string>)
    requires online && NormalizeUrl(Some(xsdUrl)).Some?
    ensures var u := NormalizeUrl(Some(xsdUrl)).value;
            DownloadOutcome(xsdUrl, online, fetch).Downloaded? <==>
              exists i :: 0 <= i < |Candidates(u)| && fetch(Candidates(u)[i]).Ok?
    ensures var u := NormalizeUrl(Some(xsdUrl)).value;
            fetch(u).Ok? ==> DownloadOutcome(xsdUrl, online, fetch) == Downloaded(fetch(u).value)
  {
  }

  /** An http location that cannot be fetched is retried over https, and
      the https copy is used when it downloads. */
  lemma HttpFallsBackToHttps(rest: string, online: bool, fetch: string -> Result<string>)
    requires online && IsTight(HTTP_SCHEME + rest)
    requires fetch(HTTP_SCHEME + rest).Err? && fetch(HTTPS_SCHEME + rest).Ok?
    ensures DownloadOutcome(HTTP_SCHEME + rest, online, fetch) == Downloaded(fetch(HTTPS_SCHEME + rest).value)
  {
    TightIsNormal(HTTP_SCHEME + rest);
    CandidatesSwapScheme(rest);
    SecondCandidateUsed(HTTP_SCHEME + rest, HTTPS_SCHEME + rest, fetch);
  }

  lemma TightIsNormal(u: string)
    requires IsTight(u)
    ensures NormalizeUrl(Some(u)) == Some(u)
  {
    TightIsTrimmed(u);
    assert !IsBlank(u) by {
      assert u[0] > ' ';
    }
  }

  lemma SecondCandidateUsed(u: string, s: string, fetch: string -> Result<string>)
    requires fetch(u).Err? && fetch(s).Ok?
    ensures FirstDownload([u, s], fetch) == Some(fetch(s).value)
  {
    assert [u, s][1..] == [s];
  }

  /** When every candidate fails, the error carries the failure of the
      last one tried. */
  lemma AllFailedCarriesLastCause(xsdUrl: string, fetch: string -> Result<string>)
    requires NormalizeUrl(Some(xsdUrl)).Some?
    requires var urls := Candidates(NormalizeUrl(Some(xsdUrl)).value);
             forall i :: 0 <= i < |urls| ==> fetch(urls[i]).Err?
    ensures var urls := Candidates(NormalizeUrl(Some(xsdUrl)).value);
            DownloadOutcome(xsdUrl, true, fetch) == AllFailed(fetch(urls[|urls| - 1]).error)
  {
  }
}
