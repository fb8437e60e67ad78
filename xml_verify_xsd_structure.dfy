/** The schema validator: it validates an XML document against its XSD
    (given on the command line, or located from the document and
    downloaded) and checks the cryptographic validity of every ds:Signature
    in it, without any revocation check. Its key selector also accepts a
    bare KeyValue. */
module XsdStructure {
  import opened Wrappers
  import opened JavaStrings
  import opened KeyInfo
  import opened XmlErrorHandler
  import opened XsdDownloader
  import XmlVerifySignatures
  import SigningTime

  // ------------------------------------------------------ file names

  /** The URL up to its first '?'. */
  function PathPart(url: string): (path: string)
    ensures '?' !in path && StartsWith(url, path)
    ensures '?' in url ==> url[|path|] == '?'
  {
    if '?' in url then url[..IndexOfChar(url, '?')] else url
  }

  /** extractFileNameFromUrl: the query is cut off at the first '?', then
      the text after the last '/' is kept. */
  function ExtractFileNameFromUrl(url: string): (name: string)
    ensures '/' !in name && '?' !in name
    ensures EndsWith(PathPart(url), name)
    ensures '/' in PathPart(url) ==> PathPart(url)[|PathPart(url)| - |name| - 1] == '/'
  {
    var path := PathPart(url);
    var name := AfterLast(path, '/');
    assert forall j :: 0 <= j < |name| ==> name[j] == path[|path| - |name| + j];
    name
  }

  /** A file name is its own file name: taking it again changes nothing. */
  lemma ExtractFileNameIdempotent(url: string)
    ensures ExtractFileNameFromUrl(ExtractFileNameFromUrl(url)) == ExtractFileNameFromUrl(url)
  {
  }

  /** "prefix/name?query" names name, whatever the query holds. */
  lemma FileNameOfQueryUrl(prefix: string, name: string, query: string)
    requires '?' !in prefix && '/' !in name && '?' !in name
    ensures ExtractFileNameFromUrl(prefix + "/" + name + "?" + query) == name
  {
    var url := prefix + "/" + name + "?" + query;
    var q := |prefix| + 1 + |name|;
    assert url[q] == '?';
    assert url[..q] == prefix + "/" + name;
    assert IndexOfChar(url, '?') == q by {
      assert '?' !in url[..q];
    }
    var path := prefix + "/" + name;
    assert path[|path| - |name|..] == name;
    assert path[|prefix|] == '/';
    SlashAfterPrefix(prefix, name);
  }

  lemma SlashAfterPrefix(prefix: string, name: string)
    requires '/' !in name
    ensures AfterLast(prefix + "/" + name, '/') == name
  {
    var path := prefix + "/" + name;
    var r := AfterLast(path, '/');
    assert path[|prefix|] == '/';
    assert path[|prefix| + 1..] == name;
    assert |r| == |name|;
    assert r == path[|path| - |r|..];
  }

  /** File.getName: the text after the last '/'. */
  function BaseName(path: string): string
  {
    AfterLast(path, '/')
  }

  // ------------------------------------------------------ key selection

  /** The key of the first KeyValue whose key can be read and is valid. */
  function FirstValidKeyValue(items: seq<KeyInfoItem>, alg: string): (r: Option<PublicKey>)
    ensures r.Some? ==> IsKeyValid(alg, r.value) && KeyValue(Some(r.value)) in items
    ensures r.None? ==> forall k :: KeyValue(Some(k)) in items ==> !IsKeyValid(alg, k)
    decreases |items|
  {
    if items == [] then None
    else if items[0].KeyValue? && items[0].key.Some? && IsKeyValid(alg, items[0].key.value) then items[0].key
    else
      var r := FirstValidKeyValue(items[1..], alg);
      assert forall d :: d in items[1..] ==> d in items;
      assert forall d :: d in items ==> d == items[0] || d in items[1..];
      r
  }

  /** The key selector of the schema validator: KeyInfo must be present;
      the certificates of its X509Data come first, then its KeyValues. */
  function KeySelection(keyInfo: Option<seq<KeyInfoItem>>, alg: string): Result<PublicKey>
  {
    if keyInfo.None? then Err("No se encontr\U{00F3} KeyInfo")
    else match FirstValidCertKey(keyInfo.value, alg)
      case Some(k) => Ok(k)
      case None =>
        match FirstValidKeyValue(keyInfo.value, alg)
        case Some(k) => Ok(k)
        case None => Err("No se encontr\U{00F3} una clave v\U{00E1}lida")
  }

  /** X509KeySelector.select: the X509Data pass, then the KeyValue pass
      (a KeyValue whose key cannot be read is skipped). */
  method SelectKey(keyInfo: Option<seq<KeyInfoItem>>, alg: string) returns (r: Result<PublicKey>)
    ensures r == KeySelection(keyInfo, alg)
  {
    if keyInfo.None? {
      return Err("No se encontr\U{00F3} KeyInfo");
    }
    var items := keyInfo.value;
    var k := ScanX509Data(items, alg);
    if k.Some? {
      return Ok(k.value);
    }
    var i := 0;
    while i < |items|
      invariant 0 <= i <= |items|
      invariant FirstValidKeyValue(items, alg) == FirstValidKeyValue(items[i..], alg)
    {
      assert items[i..][1..] == items[i + 1..];
      if items[i].KeyValue? && items[i].key.Some? && IsKeyValid(alg, items[i].key.value) {
        return Ok(items[i].key.value);
      }
      i := i + 1;
    }
    return Err("No se encontr\U{00F3} una clave v\U{00E1}lida");
  }

  /** Selection succeeds exactly when some certificate or some readable
      KeyValue carries a valid key, and a valid certificate key always
      wins over any KeyValue. */
  lemma KeySelectionExact(keyInfo: seq<KeyInfoItem>, alg: string)
    ensures KeySelection(Some(keyInfo), alg).Ok? <==>
              (exists d, c :: d in keyInfo && d.X509Data? && X509Cert(c) in d.contents && IsKeyValid(alg, c.publicKey)) ||
              (exists k :: KeyValue(Some(k)) in keyInfo && IsKeyValid(alg, k))
    ensures FirstValidCertKey(keyInfo, alg).Some? ==> KeySelection(Some(keyInfo), alg) == Ok(FirstValidCertKey(keyInfo, alg).value)
    ensures KeySelection(Some(keyInfo), alg).Ok? ==> IsKeyValid(alg, KeySelection(Some(keyInfo), alg).value)
  {
    FirstValidCertKeyExact(keyInfo, alg);
  }

  /** Every key the signature verifier selects, this selector selects too;
      a KeyInfo holding only a valid KeyValue is accepted here and refused
      by the verifier. */
  lemma WiderThanVerifierSelection(keyInfo: Option<seq<KeyInfoItem>>, alg: string, k: PublicKey)
    ensures XmlVerifySignatures.KeySelection(keyInfo, alg).Ok? ==> KeySelection(keyInfo, alg) == XmlVerifySignatures.KeySelection(keyInfo, alg)
    ensures IsKeyValid(alg, k) ==>
              KeySelection(Some([KeyValue(Some(k))]), alg) == Ok(k) &&
              XmlVerifySignatures.KeySelection(Some([KeyValue(Some(k))]), alg).Err?
  {
    var items := [KeyValue(Some(k))];
    assert FirstValidCertKey(items[1..], alg) == None;
    assert FirstValidCertKey(items, alg) == None;
  }

  // ------------------------------------------------------ signatures

  /** verifySignature: the signature unmarshals, a key is selected (the
      validation raises otherwise), its value validates and so does every
      reference. */
  predicate SignatureValid(sig: XmlVerifySignatures.SignatureNode)
  {
    sig.unmarshals && KeySelection(sig.keyInfo, sig.signatureAlgorithm).Ok? &&
    sig.signatureValueValid && forall i :: 0 <= i < |sig.referenceValid| ==> sig.referenceValid[i]
  }

  /** One signature, checked; any exception makes it invalid. */
  method VerifySignature(sig: XmlVerifySignatures.SignatureNode) returns (valid: bool)
    ensures valid == SignatureValid(sig)
  {
    if !sig.unmarshals {
      return false;
    }
    var key := SelectKey(sig.keyInfo, sig.signatureAlgorithm);
    if key.Err? {
      return false;
    }
    var sv := sig.signatureValueValid;
    var referencesValid := true;
    var i := 0;
    while i < |sig.referenceValid|
      invariant 0 <= i <= |sig.referenceValid|
      invariant referencesValid <==> forall j :: 0 <= j < i ==> sig.referenceValid[j]
    {
      if !sig.referenceValid[i] {
        referencesValid := false;
      }
      i := i + 1;
    }
    var coreValidity := sv && referencesValid;
    return coreValidity && sv && referencesValid;
  }

  /** A signature the full verifier accepts passes here too: this tool
      checks the same things minus revocation, with a wider key selector. */
  lemma VerifierAcceptanceCarriesOver(sig: XmlVerifySignatures.SignatureNode, mode: XmlVerifySignatures.OutputMode,
                                      texts: SigningTime.ElementTexts, env: XmlVerifySignatures.Environment)
    requires XmlVerifySignatures.SignatureVerdict(sig, mode, texts, env) == Ok(true)
    ensures SignatureValid(sig)
  {
    XmlVerifySignatures.AcceptedSignatureIsSound(sig, mode, texts, env);
    var k := XmlVerifySignatures.KeySelection(sig.keyInfo, sig.signatureAlgorithm);
    WiderThanVerifierSelection(sig.keyInfo, sig.signatureAlgorithm, k.value);
  }

  /** Every signature of these is valid. */
  predicate AllValid(signatures: seq<XmlVerifySignatures.SignatureNode>)
  {
    forall i :: 0 <= i < |signatures| ==> SignatureValid(signatures[i])
  }

  /** verifyXMLSignatures: false without signatures; otherwise every
      signature is checked and the document passes when all are valid. */
  method VerifyXmlSignatures(signatures: seq<XmlVerifySignatures.SignatureNode>) returns (allValid: bool)
    ensures allValid <==> signatures != [] && AllValid(signatures)
  {
    if signatures == [] {
      return false;
    }
    allValid := true;
    var i := 0;
    while i < |signatures|
      invariant 0 <= i <= |signatures|
      invariant allValid <==> AllValid(signatures[..i])
    {
      var valid := VerifySignature(signatures[i]);
      assert signatures[..i + 1] == signatures[..i] + [signatures[i]];
      allValid := allValid && valid;
      i := i + 1;
    }
    assert signatures[..i] == signatures;
  }

  // ------------------------------------------------- schema validation

  /** What validating against one XSD file meets: whether the schema
      compiles, and what the validator reports while reading the document. */
  datatype SchemaCheck = SchemaCheck(schemaCompiles: bool, events: seq<ValidatorEvent>)

  /** validateXMLAgainstXSD: false when the schema does not compile or a
      fatal error interrupts the validation; otherwise true exactly when
      the handler kept no error. */
  method ValidateAgainstXsd(check: SchemaCheck) returns (valid: bool)
    ensures valid <==> check.schemaCompiles && forall k :: 0 <= k < |check.events| ==> check.events[k].WarningEvent?
  {
    if !check.schemaCompiles {
      return false;
    }
    var interrupted, hasErrors := Handle(check.events);
    if interrupted {
      return false;
    }
    return !hasErrors;
  }

  /** Schema validation passes exactly when the validator reports only
      warnings. */
  predicate SchemaValid(check: SchemaCheck)
  {
    check.schemaCompiles && forall k :: 0 <= k < |check.events| ==> check.events[k].WarningEvent?
  }

  // ------------------------------------------------------ command line

  datatype Command = ShowVersion | ShowLicense | ShowHelp | Validate(xmlFile: string, xsdFile: Option<string>) | UsageError(message: string)

  const NO_ARGUMENTS: string := "No se proporcionaron argumentos."
  const WRONG_COUNT: string := "N\U{00FA}mero incorrecto de argumentos."

  /** main's reading of the arguments: none is an error; a lone -version,
      -licencia or -ayuda (any case) prints; any other lone argument is the
      XML file; two arguments are the XML file and the XSD file; more are
      an error. */
  function ParseArguments(args: seq<string>): (c: Command)
    ensures c.UsageError? <==> args == [] || |args| > 2
    ensures c.Validate? ==> c.xmlFile == args[0] && (c.xsdFile.Some? <==> |args| == 2) &&
                            (|args| == 2 ==> c.xsdFile.value == args[1])
    ensures c in {ShowVersion, ShowLicense, ShowHelp} ==> |args| == 1
  {
    if args == [] then UsageError(NO_ARGUMENTS)
    else if |args| == 1 && ToLower(args[0]) == "-version" then ShowVersion
    else if |args| == 1 && ToLower(args[0]) == "-licencia" then ShowLicense
    else if |args| == 1 && ToLower(args[0]) == "-ayuda" then ShowHelp
    else if |args| > 2 then UsageError(WRONG_COUNT)
    else Validate(args[0], if |args| == 2 then Some(args[1]) else None)
  }

  /** A lone argument that is not one of the three options is taken as the
      XML file, unlike the signature tools, which refuse it. */
  lemma LoneFileArgument(file: string)
    requires ToLower(file) !in {"-version", "-licencia", "-ayuda"}
    ensures ParseArguments([file]) == Validate(file, None)
  {
  }

  /** What main meets outside the arguments: which files exist, the hints of
      the document (None when it cannot be parsed), connectivity and the
      outcome of each download, the schema check against each XSD file and
      the signatures of the document. */
  datatype Inputs = Inputs(
    fileExists: string -> bool,
    hints: Option<SchemaHints>,
    online: bool,
    fetch: string -> Result<string>,
    schemaCheck: string -> SchemaCheck,
    signatures: seq<XmlVerifySignatures.SignatureNode>)

  /** The XSD file main validates against, or None when it exits before: a
      given XSD file that does not exist, a failed download, or no XSD at
      all. location is the schema location the document names. */
  function XsdFor(xsdFile: Option<string>, location: Option<string>, inputs: Inputs): Option<string>
  {
    match xsdFile
    case Some(x) => if inputs.fileExists(x) then Some(x) else None
    case None =>
      match location
      case None => None
      case Some(url) =>
        match DownloadOutcome(url, inputs.online, inputs.fetch)
        case Downloaded(file) => Some(file)
        case _ => None
  }

  /** main's choice, with the location read by extractXSDUrlFromXML as
      written. */
  function XsdToUse(xsdFile: Option<string>, hints: SchemaHints, inputs: Inputs): Option<string>
  {
    XsdFor(xsdFile, ExtractXsdUrl(hints), inputs)
  }

  /** The same choice with the schema-location elements read through their
      text, as the extraction intends. */
  function CorrectedXsdToUse(xsdFile: Option<string>, hints: SchemaHints, inputs: Inputs): Option<string>
  {
    XsdFor(xsdFile, ExtractXsdUrlFromText(hints), inputs)
  }

  /** A document whose only hint is a noNamespaceSchemaLocation element
      makes main fail without an XSD argument, even when the location it
      encloses can be downloaded; the corrected choice downloads it. */
  lemma ElementOnlyHintFails(file: string, url: string, inputs: Inputs)
    requires ToLower(file) !in {"-version", "-licencia", "-ayuda"}
    requires inputs.fileExists(file)
    requires inputs.hints == Some(SchemaHints("", None, "", Some(XsiElement(url))))
    requires url != [] && url[0] > ' ' && url[|url| - 1] > ' '
    requires DownloadOutcome(url, inputs.online, inputs.fetch).Downloaded?
    ensures ExitStatus([file], inputs) == 1
    ensures CorrectedXsdToUse(None, inputs.hints.value, inputs) == Some(DownloadOutcome(url, inputs.online, inputs.fetch).file)
  {
    ElementOnlyHintLost(url);
    LoneFileArgument(file);
    NoLocationFails([file], file, inputs);
    DownloadedLocation(url, inputs);
  }

  lemma NoLocationFails(args: seq<string>, file: string, inputs: Inputs)
    requires ParseArguments(args) == Validate(file, None)
    requires inputs.hints.Some? && ExtractXsdUrl(inputs.hints.value) == None
    ensures ExitStatus(args, inputs) == 1
  {
  }

  lemma DownloadedLocation(url: string, inputs: Inputs)
    requires DownloadOutcome(url, inputs.online, inputs.fetch).Downloaded?
    ensures XsdFor(None, Some(url), inputs) == Some(DownloadOutcome(url, inputs.online, inputs.fetch).file)
  {
  }

  /** The document passes: its schema check reports only warnings, and it
      holds signatures, all valid. */
  predicate DocumentValid(xsd: string, inputs: Inputs)
  {
    SchemaValid(inputs.schemaCheck(xsd)) && inputs.signatures != [] && AllValid(inputs.signatures)
  }

  /** The exit status of main. */
  function ExitStatus(args: seq<string>, inputs: Inputs): int
  {
    match ParseArguments(args)
    case ShowVersion => 0
    case ShowLicense => 0
    case ShowHelp => 0
    case UsageError(_) => 1
    case Validate(xml, xsdFile) =>
      if !inputs.fileExists(xml) || inputs.hints.None? then 1
      else match XsdToUse(xsdFile, inputs.hints.value, inputs)
        case None => 1
        case Some(xsd) => if DocumentValid(xsd, inputs) then 0 else 1
  }

  /** The note about differing XSD names is printed: an XSD file is given,
      the document names one, and the two file names differ. */
  predicate NamesDiffer(xsdFile: string, hints: SchemaHints)
  {
    ExtractXsdUrl(hints).Some? && ExtractFileNameFromUrl(ExtractXsdUrl(hints).value) != BaseName(xsdFile)
  }

  /** The part of main that settles on an XSD file. */
  method ChooseXsd(xsdArg: Option<string>, hints: SchemaHints, inputs: Inputs) returns (xsd: Option<string>, note: bool)
    ensures xsd == XsdToUse(xsdArg, hints, inputs)
    ensures note <==> xsd.Some? && xsdArg.Some? && NamesDiffer(xsdArg.value, hints)
  {
    var xsdUrl := ExtractXsdUrl(hints);
    if xsdArg.Some? {
      if !inputs.fileExists(xsdArg.value) {
        return None, false;
      }
      note := xsdUrl.Some? && ExtractFileNameFromUrl(xsdUrl.value) != BaseName(xsdArg.value);
      return xsdArg, note;
    } else if xsdUrl.Some? {
      var download := DownloadXsd(xsdUrl.value, inputs.online, inputs.fetch);
      if !download.Downloaded? {
        return None, false;
      }
      return Some(download.file), false;
    } else {
      return None, false;
    }
  }

  /** main; note tells whether the note about differing XSD names is printed. */
  method Run(args: seq<string>, inputs: Inputs) returns (exitCode: int, note: bool)
    ensures exitCode == ExitStatus(args, inputs)
    ensures note <==> ParseArguments(args).Validate? && ParseArguments(args).xsdFile.Some? &&
                      inputs.fileExists(ParseArguments(args).xmlFile) && inputs.hints.Some? &&
                      inputs.fileExists(ParseArguments(args).xsdFile.value) &&
                      NamesDiffer(ParseArguments(args).xsdFile.value, inputs.hints.value)
  {
    var command := ParseArguments(args);
    match command {
      case ShowVersion => return 0, false;
      case ShowLicense => return 0, false;
      case ShowHelp => return 0, false;
      case UsageError(_) => return 1, false;
      case Validate(xmlFile, xsdArg) =>
        if !inputs.fileExists(xmlFile) || inputs.hints.None? {
          return 1, false;
        }
        var xsdFile;
        xsdFile, note := ChooseXsd(xsdArg, inputs.hints.value, inputs);
        if xsdFile.None? {
          return 1, note;
        }
        var isValid := true;
        var schemaValid := ValidateAgainstXsd(inputs.schemaCheck(xsdFile.value));
        isValid := isValid && schemaValid;
        var signaturesValid := VerifyXmlSignatures(inputs.signatures);
        isValid := isValid && signaturesValid;
        if isValid {
          return 0, note;
        }
        return 1, note;
    }
  }

  /** A zero exit status means the document was validated against an XSD
      that reported only warnings and holds at least one signature, every
      one of them valid. */
  lemma SuccessMeansValidated(args: seq<string>, inputs: Inputs)
    requires ExitStatus(args, inputs) == 0
    requires ParseArguments(args).Validate?
    ensures inputs.hints.Some? && inputs.fileExists(ParseArguments(args).xmlFile)
    ensures inputs.signatures != [] && AllValid(inputs.signatures)
    ensures var xsd := XsdToUse(ParseArguments(args).xsdFile, inputs.hints.value, inputs);
            xsd.Some? && SchemaValid(inputs.schemaCheck(xsd.value))
    ensures ParseArguments(args).xsdFile.Some? ==> inputs.fileExists(ParseArguments(args).xsdFile.value)
  {
  }

  /** Without an XSD argument, a document that names no schema, or whose
      schema cannot be downloaded, fails. */
  lemma NoSchemaFails(file: string, inputs: Inputs)
    requires ToLower(file) !in {"-version", "-licencia", "-ayuda"}
    requires inputs.hints.Some?
    requires ExtractXsdUrl(inputs.hints.value).None? ||
             !DownloadOutcome(ExtractXsdUrl(inputs.hints.value).value, inputs.online, inputs.fetch).Downloaded?
    ensures ExitStatus([file], inputs) == 1
  {
  }

  /** An unsigned document always fails, whatever its schema says. */
  lemma UnsignedDocumentFails(args: seq<string>, inputs: Inputs)
    requires inputs.signatures == []
    requires ParseArguments(args).Validate?
    ensures ExitStatus(args, inputs) == 1
  {
  }
}
