/** Resolution of the instant a COD/CODEH document was signed: the first
    ds:Reference URI selects which date element to read, the exporter
    country selects the zone, and every failure falls back to "now" with
    an explanatory message. */
module SigningTime {
  import opened Wrappers
  import opened JavaStrings
  import opened Timezones

  /** The resolver's answer: the instant, and when it fell back to the
      current time, the reason. */
  datatype SigningTimeResult = SigningTimeResult(date: int, errorMessage: Option<string>, useCurrentTime: bool)

  /** The two documents whose declared date is trusted. */
  datatype Declaration = Cod | Codeh

  /** The text content of the elements with each tag name below the root, in
      document order (a tag with no elements may be absent). */
  type ElementTexts = map<string, seq<string>>

  /** SimpleDateFormat("yyyy-MM-dd'T'HH:mm:ss").parse: an instant, or the
      ParseException message. */
  type DateParser = string -> Result<int>

  const FALLBACK_SUFFIX := ". Se utilizar\U{00E1} la fecha actual."
  const NO_REFERENCE := "No se encontr\U{00F3} elemento Reference en la firma" + FALLBACK_SUFFIX
  const EMPTY_REFERENCE := "URI de Reference vac\U{00ED}o en la firma" + FALLBACK_SUFFIX
  const NO_EXPORTER_COUNTRY := "No se encontr\U{00F3} el elemento ExporterCountry" + FALLBACK_SUFFIX

  function KindName(d: Declaration): string
  {
    match d
    case Cod => "COD"
    case Codeh => "CODEH"
  }

  function DateTag(d: Declaration): string
  {
    match d
    case Cod => "DeclarationDate"
    case Codeh => "CertificateDate"
  }

  function Fallback(now: int, message: string): (r: SigningTimeResult)
    ensures r.useCurrentTime && r.errorMessage == Some(message) && r.date == now
  {
    SigningTimeResult(now, Some(message), true)
  }

  /** The text of the first element with this tag, if there is one. */
  function FirstText(doc: ElementTexts, tag: string): Option<string>
  {
    if tag in doc && |doc[tag]| > 0 then Some(doc[tag][0]) else None
  }

  /** The reference URI with one leading '#' removed. */
  function StripFragmentMark(uri: string): (r: string)
    ensures StartsWith(uri, "#") ==> r == uri[1..]
    ensures !StartsWith(uri, "#") ==> r == uri
  {
    if StartsWith(uri, "#") then uri[1..] else uri
  }

  /** The declaration a reference id designates ("COD" or "CODEH"), if any. */
  function DeclarationNamed(id: string): (r: Option<Declaration>)
    ensures r.None? <==> id !in {"COD", "CODEH"}
    ensures forall d: Declaration :: r == Some(d) <==> KindName(d) == id
  {
    if id == "COD" then Some(Cod) else if id == "CODEH" then Some(Codeh) else None
  }

  /** The declaration's date element and the exporter country are present,
      the date is non-blank and parses, and the country is supported. */
  predicate DeclaredDateUsable(d: Declaration, doc: ElementTexts, parse: DateParser)
  {
    FirstText(doc, DateTag(d)).Some? &&
    Trim(FirstText(doc, DateTag(d)).value) != [] &&
    FirstText(doc, "ExporterCountry").Some? &&
    ToUpper(Trim(FirstText(doc, "ExporterCountry").value)) in COUNTRY_TIMEZONES &&
    parse(Trim(FirstText(doc, DateTag(d)).value)).Ok?
  }

  /** extractDateFromCOD / extractDateFromCODEH: read the date element and
      the exporter country, parse the date and convert it in the country's
      zone; each failure is a fallback naming what was missing. */
  function ExtractDeclaredDate(d: Declaration, doc: ElementTexts, parse: DateParser, now: int): (r: SigningTimeResult)
    ensures r.useCurrentTime <==> r.errorMessage.Some?
    ensures r.useCurrentTime ==> r.date == now
    ensures FirstText(doc, DateTag(d)).None? ==>
              r == Fallback(now, "No se encontr\U{00F3} el elemento " + DateTag(d) + " en " + KindName(d) + FALLBACK_SUFFIX)
    ensures FirstText(doc, DateTag(d)).Some? && Trim(FirstText(doc, DateTag(d)).value) == [] ==>
              r == Fallback(now, DateTag(d) + " en " + KindName(d) + " est\U{00E1} vac\U{00ED}o" + FALLBACK_SUFFIX)
    ensures DeclaredDateUsable(d, doc, parse) ==>
              r == SigningTimeResult(parse(Trim(FirstText(doc, DateTag(d)).value)).value, None, false)
    ensures !r.useCurrentTime ==>
              FirstText(doc, DateTag(d)).Some? && FirstText(doc, "ExporterCountry").Some? &&
              parse(Trim(FirstText(doc, DateTag(d)).value)) == Ok(r.date) &&
              ToUpper(Trim(FirstText(doc, "ExporterCountry").value)) in COUNTRY_TIMEZONES
  {
    var tag := DateTag(d);
    var dateText := FirstText(doc, tag);
    if dateText.None? then
      Fallback(now, "No se encontr\U{00F3} el elemento " + tag + " en " + KindName(d) + FALLBACK_SUFFIX)
    else
      var timeStr := Trim(dateText.value);
      if timeStr == [] then
        Fallback(now, tag + " en " + KindName(d) + " est\U{00E1} vac\U{00ED}o" + FALLBACK_SUFFIX)
      else
        var country := FirstText(doc, "ExporterCountry");
        if country.None? then
          Fallback(now, NO_EXPORTER_COUNTRY)
        else
          var countryCode := Trim(country.value);
          var failure := "Error al procesar " + tag + " en " + KindName(d) + ": ";
          match parse(timeStr)
          case Err(message) => Fallback(now, failure + message + FALLBACK_SUFFIX)
          case Ok(localDate) =>
            match ConvertToUtc(localDate, countryCode)
            case Err(message) => Fallback(now, failure + message + FALLBACK_SUFFIX)
            case Ok(utc) => SigningTimeResult(utc, None, false)
  }

  /** extractSigningTime: dispatch on the URI of the first ds:Reference of
      the signature (references holds each Reference's URI attribute, ""
      when absent, in document order). */
  function ExtractSigningTime(references: seq<string>, doc: ElementTexts, parse: DateParser, now: int): (r: SigningTimeResult)
    ensures r.useCurrentTime <==> r.errorMessage.Some?
    ensures r.useCurrentTime ==> r.date == now
    ensures references == [] ==> r == Fallback(now, NO_REFERENCE)
    ensures references != [] && references[0] == [] ==> r == Fallback(now, EMPTY_REFERENCE)
    ensures references != [] && StripFragmentMark(references[0]) !in {"COD", "CODEH"} && references[0] != [] ==>
              r == Fallback(now, "URI de Reference '" + StripFragmentMark(references[0]) + "' no reconocido" + FALLBACK_SUFFIX)
  {
    if references == [] then Fallback(now, NO_REFERENCE)
    else
      var uri := references[0];
      if uri == [] then Fallback(now, EMPTY_REFERENCE)
      else
        var id := StripFragmentMark(uri);
        match DeclarationNamed(id)
        case Some(d) => ExtractDeclaredDate(d, doc, parse, now)
        case None => Fallback(now, "URI de Reference '" + id + "' no reconocido" + FALLBACK_SUFFIX)
  }

  /** An independent statement of when the document itself names the signing
      instant t: the first reference designates COD or CODEH, that document's
      date element and exporter country are usable, and the date reads as t. */
  ghost predicate DocumentNamesInstant(references: seq<string>, doc: ElementTexts, parse: DateParser, t: int)
  {
    references != [] &&
    exists d: Declaration ::
      StripFragmentMark(references[0]) == KindName(d) &&
      DeclaredDateUsable(d, doc, parse) &&
      parse(Trim(FirstText(doc, DateTag(d)).value)) == Ok(t)
  }

  /** The resolver keeps the document's time only when the document names
      that instant. */
  lemma ResolvedImpliesNamed(references: seq<string>, doc: ElementTexts, parse: DateParser, now: int)
    ensures var r := ExtractSigningTime(references, doc, parse, now);
            !r.useCurrentTime ==> DocumentNamesInstant(references, doc, parse, r.date)
  {
    var r := ExtractSigningTime(references, doc, parse, now);
    if !r.useCurrentTime {
      var d := DeclarationNamed(StripFragmentMark(references[0])).value;
      assert r == ExtractDeclaredDate(d, doc, parse, now);
      assert DeclaredDateUsable(d, doc, parse);
    }
  }

  /** When the document names an instant, the resolver returns it and does
      not fall back to the current time. */
  lemma NamedImpliesResolved(references: seq<string>, doc: ElementTexts, parse: DateParser, now: int, t: int)
    requires DocumentNamesInstant(references, doc, parse, t)
    ensures var r := ExtractSigningTime(references, doc, parse, now);
            !r.useCurrentTime && r.date == t
  {
    var d: Declaration :| StripFragmentMark(references[0]) == KindName(d) &&
      DeclaredDateUsable(d, doc, parse) &&
      parse(Trim(FirstText(doc, DateTag(d)).value)) == Ok(t);
    assert references[0] != [];
    assert DeclarationNamed(StripFragmentMark(references[0])) == Some(d);
    var r := ExtractSigningTime(references, doc, parse, now);
    assert r == ExtractDeclaredDate(d, doc, parse, now);
    assert r == SigningTimeResult(t, None, false);
  }

  /** Only one '#' is removed: "##COD" is reported as the unknown URI "#COD". */
  lemma OnlyOneHashIsStripped(doc: ElementTexts, parse: DateParser, now: int)
    ensures ExtractSigningTime(["##COD"], doc, parse, now)
            == Fallback(now, "URI de Reference '#COD' no reconocido" + FALLBACK_SUFFIX)
  {
    assert StartsWith("##COD", "#");
    assert StripFragmentMark("##COD") == "#COD";
    assert "URI de Reference '" + "#COD" + "' no reconocido" == "URI de Reference '#COD' no reconocido";
  }
}
