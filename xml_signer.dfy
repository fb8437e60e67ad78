/** The two XML signers, one working with a PKCS#11 token and one with a
    PKCS#12 file: the reading of the command line, the name of the signed
    file, the XML declaration carried over from the input, the reference
    URI, the search for the element to sign and where the signature is
    placed, and the clean-up of the serialized output. The key store, the
    XML parser, the serializer and the signature itself are inputs. */
module XmlSigner {
  import opened Wrappers
  import opened JavaStrings

  datatype Tool = Pkcs11 | Pkcs12

  /** The number of arguments of a signing run: library, password, slot,
      XML file and URI for the token; file, password, XML file and URI for
      the PKCS#12 signer. */
  function Arity(tool: Tool): nat
  {
    match tool
    case Pkcs11 => 5
    case Pkcs12 => 4
  }

  /** What the arguments ask for. keySource is the PKCS#11 library or the
      PKCS#12 file; slot is present for the token signer only. */
  datatype Command =
    | ShowVersion
    | ShowLicense
    | ShowHelp
    | Sign(keySource: string, password: string, slot: Option<int>, xmlFile: string, uri: string)
    | UsageError(message: string)

  const NO_ARGUMENTS: string := "No se proporcionaron argumentos."
  const WRONG_COUNT: string := "N\U{00FA}mero incorrecto de argumentos."
  const SLOT_NOT_NUMERIC: string := "Error: El n\U{00FA}mero de slot debe ser un valor num\U{00E9}rico."

  /** A lone argument: -version, -licencia or -ayuda in any case. */
  function SingleOption(arg: string): Command
  {
    var a := ToLower(arg);
    if a == "-version" then ShowVersion
    else if a == "-licencia" then ShowLicense
    else if a == "-ayuda" then ShowHelp
    else UsageError("Argumento no reconocido: " + arg)
  }

  /** processArguments with validateAndProcessStandardArguments: none is
      an error, one is an option, otherwise exactly Arity(tool) arguments,
      the token signer's slot being read by Integer.parseInt. */
  function ParseArguments(tool: Tool, args: seq<string>): (c: Command)
    ensures c.Sign? <==> |args| == Arity(tool) && (tool == Pkcs11 ==> ParseInt(args[2]).Some?)
    ensures c.Sign? ==> c.keySource == args[0] && c.password == args[1] &&
                        c.xmlFile == args[|args| - 2] && c.uri == args[|args| - 1]
    ensures c.Sign? ==> (c.slot.Some? <==> tool == Pkcs11)
    ensures c.ShowVersion? || c.ShowLicense? || c.ShowHelp? ==> |args| == 1
  {
    if args == [] then UsageError(NO_ARGUMENTS)
    else if |args| == 1 then SingleOption(args[0])
    else if |args| != Arity(tool) then UsageError(WRONG_COUNT)
    else
      match tool
      case Pkcs11 =>
        var slot := ParseInt(args[2]);
        if slot.None? then UsageError(SLOT_NOT_NUMERIC)
        else Sign(args[0], args[1], slot, args[3], args[4])
      case Pkcs12 => Sign(args[0], args[1], None, args[2], args[3])
  }

  /** The slot printed as a 32-bit integer is read back as that slot. */
  lemma TokenArgumentsRoundTrip(library: string, password: string, slot: int, xmlFile: string, uri: string)
    requires INT_MIN <= slot <= INT_MAX
    ensures ParseArguments(Pkcs11, [library, password, IntToString(slot), xmlFile, uri]) ==
              Sign(library, password, Some(slot), xmlFile, uri)
  {
    ParseIntOfIntToString(slot);
  }

  /** A slot that is not a number stops the token signer. */
  lemma NonNumericSlotRejected(args: seq<string>)
    requires |args| == 5 && ParseInt(args[2]).None?
    ensures ParseArguments(Pkcs11, args) == UsageError(SLOT_NOT_NUMERIC)
  {
  }

  /** Any other count than none, one or the tool's own is rejected. */
  lemma WrongCountRejected(tool: Tool, args: seq<string>)
    requires |args| > 1 && |args| != Arity(tool)
    ensures ParseArguments(tool, args) == UsageError(WRONG_COUNT)
  {
  }

  /** The options are read without regard to case. */
  lemma OptionsIgnoreCase(tool: Tool, arg: string)
    ensures ParseArguments(tool, [ToUpper(arg)]).UsageError? <==> ParseArguments(tool, [arg]).UsageError?
    ensures !ParseArguments(tool, [arg]).UsageError? ==> ParseArguments(tool, [ToUpper(arg)]) == ParseArguments(tool, [arg])
  {
    LowerOfUpperText(arg);
  }

  lemma LowerOfUpperText(s: string)
    ensures ToLower(ToUpper(s)) == ToLower(s)
  {
    forall i | 0 <= i < |s| ensures ToLower(ToUpper(s))[i] == ToLower(s)[i] {
      LowerOfUpperLetter(s[i]);
    }
  }

  lemma LowerOfUpperLetter(c: char)
    ensures LowerChar(UpperChar(c)) == LowerChar(c)
  {
  }

  // ---------------------------------------------------- the output name

  const SIGNED_SUFFIX: string := "-signed"

  /** getOutputFileName: "-signed" inserted before the last '.' of the
      whole path when that '.' is not its first character, appended
      otherwise. */
  function OutputFileName(path: string): string
  {
    var dot := LastIndexOfChar(path, '.');
    if dot > 0 then path[..dot] + SIGNED_SUFFIX + path[dot..] else path + SIGNED_SUFFIX
  }

  /** With a last '.' past the first character, the suffix goes right
      before it. */
  lemma OutputFileNameBeforeLastDot(path: string, d: nat)
    requires 0 < d < |path| && path[d] == '.' && '.' !in path[d + 1..]
    ensures OutputFileName(path) == path[..d] + SIGNED_SUFFIX + path[d..]
  {
  }

  /** With no '.' past the first character, the suffix is appended. */
  lemma OutputFileNameAppends(path: string)
    requires forall i :: 0 < i < |path| ==> path[i] != '.'
    ensures OutputFileName(path) == path + SIGNED_SUFFIX
  {
  }

  /** The '.' searched for may lie in a directory name: a file without an
      extension in a directory with a '.' is written to another directory. */
  lemma OutputFileNameLeavesDirectory()
    ensures OutputFileName("out.d/doc") == "out-signed.d/doc"
  {
    var path := "out.d/doc";
    assert path[4..] == "d/doc";
    OutputFileNameBeforeLastDot(path, 3);
    assert path[..3] == "out";
    assert path[3..] == ".d/doc";
  }

  /** The same rule applied to the last component of the path only. */
  function SiblingOutputFileName(path: string): string
  {
    var name := AfterLast(path, '/');
    path[..|path| - |name|] + OutputFileName(name)
  }

  /** The corrected name stays in the input's directory: it is that
      directory followed by a name without '/'. */
  lemma SiblingOutputFileNameKeepsDirectory(path: string)
    ensures var name := AfterLast(path, '/');
            var dir := path[..|path| - |name|];
            SiblingOutputFileName(path) == dir + OutputFileName(name) && '/' !in OutputFileName(name)
  {
    var name := AfterLast(path, '/');
    OutputFileNameChars(name);
  }

  lemma OutputFileNameChars(name: string)
    ensures forall c :: c in OutputFileName(name) ==> c in name || c in SIGNED_SUFFIX
  {
    var dot := LastIndexOfChar(name, '.');
    if dot > 0 {
      assert name == name[..dot] + name[dot..];
    }
  }

  /** The corrected name agrees with the rule as written whenever the last
      '.' of the path lies in the file name past its first character. */
  lemma SiblingOutputFileNameAgrees(path: string)
    ensures var name := AfterLast(path, '/');
            0 < LastIndexOfChar(path, '.') - (|path| - |name|) ==> SiblingOutputFileName(path) == OutputFileName(path)
  {
    var name := AfterLast(path, '/');
    var dir := path[..|path| - |name|];
    var dot := LastIndexOfChar(path, '.');
    if 0 < dot - |dir| {
      assert path == dir + name by {
        assert path[|dir|..] == name;
      }
      AgreeOnSplit(path, dir, name, dot, dot - |dir|);
    }
  }

  lemma AgreeOnSplit(path: string, dir: string, name: string, dot: int, d: int)
    requires path == dir + name && d == dot - |dir| && 0 < d
    requires dot == LastIndexOfChar(path, '.')
    ensures dir + OutputFileName(name) == OutputFileName(path)
  {
    NameDotIsLast(path, dir, name, dot, d);
    OutputFileNameBeforeLastDot(name, d);
    var left, right := name[..d], name[d..];
    assert path[..dot] == dir + left;
    assert path[dot..] == right;
    Regroup(dir, left, SIGNED_SUFFIX, right);
  }

  lemma Regroup(a: string, b: string, c: string, d: string)
    ensures a + (b + c + d) == (a + b) + c + d
  {
  }

  lemma NameDotIsLast(path: string, dir: string, name: string, dot: int, d: int)
    requires path == dir + name && d == dot - |dir| && 0 < d
    requires dot == LastIndexOfChar(path, '.')
    ensures d < |name| && name[d] == '.' && '.' !in name[d + 1..]
  {
    assert path[dot + 1..] == name[d + 1..];
  }

  lemma SiblingOutputFileNameExample()
    ensures SiblingOutputFileName("out.d/doc") == "out.d/doc-signed"
  {
    assert AfterLast("out.d/doc", '/') == "doc" by {
      assert "out.d/doc"[5] == '/';
      assert "out.d/doc"[6..] == "doc";
    }
  }

  // ------------------------------------------------ the XML declaration

  const DECLARATION_START: string := "<?xml"
  const DECLARATION_END: string := "?>"

  /** The declaration kept from the input: the text through the first "?>"
      when the content starts with "<?xml" and has one, none otherwise. */
  function XmlDeclaration(content: string): Option<string>
  {
    if StartsWith(content, DECLARATION_START) then
      var e := IndexOf(content, DECLARATION_END);
      if e != -1 then Some(content[..e + 2]) else None
    else None
  }

  /** A declaration is captured exactly when the content starts with
      "<?xml" and contains "?>"; it is a prefix of the content that starts
      with "<?xml", ends with "?>" and holds no earlier "?>". */
  lemma XmlDeclarationShape(content: string)
    ensures XmlDeclaration(content).Some? <==> StartsWith(content, DECLARATION_START) && Contains(content, DECLARATION_END)
    ensures var d := XmlDeclaration(content);
            d.Some? ==> StartsWith(content, d.value) && StartsWith(d.value, DECLARATION_START) &&
                        EndsWith(d.value, DECLARATION_END) &&
                        forall j :: 0 <= j < |d.value| - 2 ==> !StartsWith(d.value[j..], DECLARATION_END)
  {
    var d := XmlDeclaration(content);
    if d.Some? {
      var e := IndexOf(content, DECLARATION_END);
      DeclarationEndIsLate(content, e);
      var v := content[..e + 2];
      assert v[..5] == DECLARATION_START;
      assert v[e..] == DECLARATION_END;
      NoEarlierEnd(content, v, e);
    }
  }

  /** "?>" cannot start inside "<?xml". */
  lemma DeclarationEndIsLate(content: string, e: int)
    requires StartsWith(content, DECLARATION_START)
    requires 0 <= e <= |content| && StartsWith(content[e..], DECLARATION_END)
    ensures e >= 5
  {
    assert content[e] == '?' && content[e + 1] == '>';
    assert content[..5] == DECLARATION_START;
    assert content[0] == '<' && content[2] == 'x' && content[3] == 'm' && content[4] == 'l';
  }

  /** The prefix through the first "?>" holds no earlier "?>". */
  lemma NoEarlierEnd(content: string, v: string, e: int)
    requires 0 <= e && e + 2 <= |content| && v == content[..e + 2]
    requires forall j :: 0 <= j < e ==> !StartsWith(content[j..], DECLARATION_END)
    ensures forall j :: 0 <= j < e ==> !StartsWith(v[j..], DECLARATION_END)
  {
    forall j | 0 <= j < e ensures !StartsWith(v[j..], DECLARATION_END) {
      assert v[j..][..2] == content[j..][..2];
    }
  }

  // ------------------------------------------------ the saved document

  /** The character reference the serializer writes for a carriage return. */
  const CR_REFERENCE: string := "&#13;"

  /** What is written: the captured declaration and a line break, then the
      serialized document with every "&#13;" removed. */
  function SavedOutput(declaration: Option<string>, serialized: string): string
  {
    (if declaration.Some? then declaration.value + "\n" else "") + RemoveAll(serialized, CR_REFERENCE)
  }

  /** Text without the target's first character passes the removal
      unchanged. */
  lemma {:induction false} PlainTextKept(a: string, target: string)
    requires target != [] && target[0] !in a
    ensures RemoveAll(a, target) == a
    decreases |a|
  {
    if a != [] {
      assert a == [a[0]] + a[1..];
      KeptFirst(a, target);
      PlainTextKept(a[1..], target);
    }
  }

  /** An occurrence of the target after text without its first character
      is dropped, and the removal goes on after it. */
  lemma {:induction false} TargetDropped(a: string, target: string, b: string)
    requires target != [] && target[0] !in a
    ensures RemoveAll(a + target + b, target) == a + RemoveAll(b, target)
    decreases |a|
  {
    var s := a + target + b;
    if a == [] {
      assert s == target + b;
      assert s[..|target|] == target;
      assert s[|target|..] == b;
    } else {
      assert a == [a[0]] + a[1..];
      TargetDropped(a[1..], target, b);
      DroppedAfterFirst(a, target, b);
    }
  }

  lemma DroppedAfterFirst(a: string, target: string, b: string)
    requires target != [] && a != [] && target[0] !in a
    requires RemoveAll(a[1..] + target + b, target) == a[1..] + RemoveAll(b, target)
    ensures RemoveAll(a + target + b, target) == a + RemoveAll(b, target)
  {
    var s := a + target + b;
    var rest := a[1..] + target + b;
    assert s == [a[0]] + rest;
    assert a[0] in a;
    KeptFirst(s, target);
    assert s[1..] == rest;
    assert a == [a[0]] + a[1..];
  }

  /** A first character other than the target's first is kept, and the
      removal goes on after it. */
  lemma KeptFirst(s: string, target: string)
    requires target != [] && s != [] && s[0] != target[0]
    ensures RemoveAll(s, target) == [s[0]] + RemoveAll(s[1..], target)
  {
    if |s| >= |target| {
      assert s[..|target|][0] != target[0];
    } else {
      assert s == [s[0]] + s[1..];
    }
  }

  /** The saved text is the declaration line followed by the serialized
      pieces with the reference between them removed. */
  lemma SavedOutputDropsCarriageReturns(declaration: string, a: string, b: string)
    requires '&' !in a && '&' !in b
    ensures SavedOutput(Some(declaration), a + CR_REFERENCE + b) == declaration + "\n" + a + b
    ensures SavedOutput(None, a) == a
  {
    assert CR_REFERENCE[0] == '&';
    TargetDropped(a, CR_REFERENCE, b);
    PlainTextKept(b, CR_REFERENCE);
    PlainTextKept(a, CR_REFERENCE);
  }


  // ----------------------------------------- the element to be signed

  /** An element in document order: its qualified tag name, its local
      name and its attributes. */
  datatype Element = Element(tagName: string, localName: string, attributes: map<string, string>)

  /** Element.getAttribute: "" for an absent attribute. */
  function GetAttribute(e: Element, name: string): string
  {
    if name in e.attributes then e.attributes[name] else ""
  }

  /** The reference URI: "" for the whole document, "#" + id otherwise. */
  function ReferenceUri(id: string): (r: string)
  {
    if id == [] then [] else "#" + id
  }

  /** uriExistsInXML's cleaning: one leading '#' is dropped. */
  function CleanUri(uri: string): (r: string)
  {
    if uri != [] && uri[0] == '#' then uri[1..] else uri
  }

  /** The reference URI cleaned gives the id back, for an id that does
      not itself start with '#'. */
  lemma CleanUriOfReferenceUri(id: string)
    requires id == [] || id[0] != '#'
    ensures CleanUri(ReferenceUri(id)) == id
    ensures ReferenceUri(id) == [] <==> id == []
  {
  }

  /** The XPath test selecting any element with @Id=v or @id=v or @ID=v or local-name()=v: an
      absent attribute compares with nothing. */
  predicate XPathMatches(e: Element, v: string)
  {
    ("Id" in e.attributes && e.attributes["Id"] == v) ||
    ("id" in e.attributes && e.attributes["id"] == v) ||
    ("ID" in e.attributes && e.attributes["ID"] == v) ||
    e.localName == v
  }

  /** uriExistsInXML: true for an empty URI, otherwise some element matches
      the URI without its leading '#'. */
  predicate UriExists(doc: seq<Element>, uri: string)
  {
    uri == [] || exists i :: 0 <= i < |doc| && XPathMatches(doc[i], CleanUri(uri))
  }

  /** The test of findElementByAttributeId's loop: Id, id or ID (read with
      getAttribute) or the qualified tag name equals the id. */
  predicate LookupMatches(e: Element, id: string)
  {
    id == GetAttribute(e, "Id") || id == GetAttribute(e, "id") || id == GetAttribute(e, "ID") || id == e.tagName
  }

  /** The first element in document order that passes the loop's test. */
  function FirstMatch(doc: seq<Element>, id: string): (r: Option<nat>)
    ensures r.Some? ==> r.value < |doc| && LookupMatches(doc[r.value], id) &&
                        forall j :: 0 <= j < r.value ==> !LookupMatches(doc[j], id)
    ensures r.None? ==> forall j :: 0 <= j < |doc| ==> !LookupMatches(doc[j], id)
    decreases |doc|
  {
    if doc == [] then None
    else if LookupMatches(doc[0], id) then Some(0)
    else
      match FirstMatch(doc[1..], id)
      case None => None
      case Some(k) => Some(k + 1)
  }

  /** An Id, id or ID attribute of the element holds the id: what
      getElementById answers once those attributes are registered. */
  predicate IdAttributeMatches(e: Element, id: string)
  {
    ("Id" in e.attributes && e.attributes["Id"] == id) ||
    ("id" in e.attributes && e.attributes["id"] == id) ||
    ("ID" in e.attributes && e.attributes["ID"] == id)
  }

  /** What getElementById can answer once every Id, id and ID attribute is
      registered: an element carrying the id in one of them, and nothing
      only when no element does. */
  predicate RegisteredFits(doc: seq<Element>, registered: Option<nat>, id: string)
  {
    (registered.Some? ==> registered.value < |doc| && IdAttributeMatches(doc[registered.value], id)) &&
    (registered.None? ==> forall j :: 0 <= j < |doc| ==> !IdAttributeMatches(doc[j], id))
  }

  /** findElementByAttributeId: the element the DOM's own id lookup
      returns (registered, an input) when there is one, otherwise the first
      element in document order passing the test. */
  method FindElementByAttributeId(doc: seq<Element>, registered: Option<nat>, id: string) returns (found: Option<nat>)
    requires RegisteredFits(doc, registered, id)
    ensures found == ElementLookup(doc, registered, id)
    ensures found.Some? ==> found.value < |doc| && LookupMatches(doc[found.value], id)
    ensures found.None? ==> forall j :: 0 <= j < |doc| ==> !LookupMatches(doc[j], id)
  {
    if registered.Some? {
      IdAttributeIsLookupMatch(doc[registered.value], id);
      return registered;
    }
    var i := 0;
    while i < |doc|
      invariant 0 <= i <= |doc|
      invariant forall j :: 0 <= j < i ==> !LookupMatches(doc[j], id)
    {
      if LookupMatches(doc[i], id) {
        return Some(i);
      }
      i := i + 1;
    }
    return None;
  }

  lemma IdAttributeIsLookupMatch(e: Element, id: string)
    requires IdAttributeMatches(e, id)
    ensures LookupMatches(e, id)
  {
  }

  /** Once the id attributes are registered, the loop of
      findElementByAttributeId only ever finds an element by its tag name:
      one carrying the id in an attribute is the DOM's own answer. */
  lemma FallbackMatchesTagName(doc: seq<Element>, registered: Option<nat>, id: string)
    requires id != []
    requires RegisteredFits(doc, registered, id) && registered.None?
    ensures FirstMatch(doc, id).Some? ==> doc[FirstMatch(doc, id).value].tagName == id
  {
    if FirstMatch(doc, id).Some? {
      var k := FirstMatch(doc, id).value;
      assert !IdAttributeMatches(doc[k], id);
    }
  }

  /** What findElementByAttributeId returns. */
  function ElementLookup(doc: seq<Element>, registered: Option<nat>, id: string): Option<nat>
  {
    if registered.Some? then registered else FirstMatch(doc, id)
  }

  /** The existence check and the search agree for an id without '#' on
      elements without a namespace prefix: the existence check finds an element
      exactly when the search does. */
  lemma ExistsIffFound(doc: seq<Element>, id: string)
    requires id != [] && id[0] != '#'
    requires forall j :: 0 <= j < |doc| ==> doc[j].tagName == doc[j].localName
    ensures UriExists(doc, id) <==> FirstMatch(doc, id).Some?
  {
    if UriExists(doc, id) {
      var i :| 0 <= i < |doc| && XPathMatches(doc[i], id);
      MatchesAgree(doc[i], id);
    }
    if FirstMatch(doc, id).Some? {
      var k := FirstMatch(doc, id).value;
      MatchesAgree(doc[k], id);
    }
  }

  /** On one element without a prefix the two tests agree for a non-empty id. */
  lemma MatchesAgree(e: Element, id: string)
    requires id != [] && e.tagName == e.localName
    ensures XPathMatches(e, id) <==> LookupMatches(e, id)
  {
  }

  /** A '#' typed before the id passes the existence check, yet the search
      looks for the '#' too and the reference points at "##" + id. */
  lemma HashPrefixedIdPassesCheckOnly(id: string)
    requires id != [] && id[0] != '#'
    ensures var doc := [Element("root", "root", map["Id" := id])];
            UriExists(doc, "#" + id) && FirstMatch(doc, "#" + id).None? &&
            ReferenceUri("#" + id) == "##" + id
  {
    var doc := [Element("root", "root", map["Id" := id])];
    assert CleanUri("#" + id) == id;
    assert XPathMatches(doc[0], id);
    assert !LookupMatches(doc[0], "#" + id) by {
      assert GetAttribute(doc[0], "Id") == id;
      assert GetAttribute(doc[0], "id") == "";
      assert GetAttribute(doc[0], "ID") == "";
      assert ("#" + id)[0] == '#';
    }
  }

  /** A prefixed element is found by the existence check through its local name but
      not by the search, which compares the qualified name. */
  lemma PrefixedNamePassesCheckOnly()
    ensures var doc := [Element("ns:Doc", "Doc", map[])];
            UriExists(doc, "Doc") && FirstMatch(doc, "Doc").None?
  {
    var doc := [Element("ns:Doc", "Doc", map[])];
    assert XPathMatches(doc[0], CleanUri("Doc"));
    assert !LookupMatches(doc[0], "Doc") by {
      assert GetAttribute(doc[0], "Id") == "";
      assert "ns:Doc" != "Doc";
    }
  }

  // ---------------------------------------------------- the signing plan

  /** Where the signature goes: last child of the root element for the
      whole document, right after the signed element otherwise. */
  datatype Placement = LastChildOfRoot | AfterElement(index: nat)

  /** What the signer produces apart from the cryptography. */
  datatype SignPlan = SignPlan(declaration: Option<string>, referenceUri: string, placement: Placement)

  const NOT_IN_DOCUMENT: string := "El elemento o p\U{00E1}rrafo XML especificado no existe en el documento XML."
  const NOT_FOUND_PREFIX: string := "No se encontr\U{00F3} el elemento XML con identificador: "
  const DOCUMENT_ERROR_PREFIX: string := "Error al procesar el documento XML: "

  /** The message that leaves the document step: the token signer wraps
      it, the PKCS#12 signer passes it on. */
  function DocumentError(tool: Tool, message: string): string
  {
    match tool
    case Pkcs11 => DOCUMENT_ERROR_PREFIX + message
    case Pkcs12 => message
  }

  /** createSignatureContext: where the signature is placed. The elements
      are in document order, so index 0 is the root element, whose parent
      is the document itself. */
  function SignaturePlacement(doc: seq<Element>, registered: Option<nat>, uri: string): Result<Placement>
  {
    if uri == [] then Ok(LastChildOfRoot)
    else
      match ElementLookup(doc, registered, uri)
      case None => Err(NOT_FOUND_PREFIX + uri)
      case Some(i) => Ok(AfterElement(i))
  }

  /** Why signature.sign fails: the signature would become a second
      element of the document, or its reference names an id that the DOM's
      id lookup does not know. */
  datatype SigningFailure = SecondDocumentElement | UnresolvedReference(id: string)

  /** signature.sign: the signature element is inserted first, which fails
      when its parent is the document (the signed element is the root);
      then the reference "#" + uri is resolved through getElementById,
      which fails when the DOM's id lookup has no element for the id. */
  function SigningStep(registered: Option<nat>, uri: string, placement: Placement): Option<SigningFailure>
  {
    if placement == AfterElement(0) then Some(SecondDocumentElement)
    else if uri != [] && registered.None? then Some(UnresolvedReference(uri))
    else None
  }

  /** processAndSignDocument / signXML without the cryptography: the
      declaration is read from the content, a non-empty URI must pass the
      existence check, then the placement is chosen and the signature made;
      a failure of the signing library carries that library's message. */
  function PlanSignature(tool: Tool, content: string, doc: seq<Element>, registered: Option<nat>, uri: string,
                         libraryMessage: SigningFailure -> string): Result<SignPlan>
  {
    if uri != [] && !UriExists(doc, uri) then Err(DocumentError(tool, NOT_IN_DOCUMENT))
    else
      match SignaturePlacement(doc, registered, uri)
      case Err(e) => Err(DocumentError(tool, e))
      case Ok(p) =>
        match SigningStep(registered, uri, p)
        case Some(f) => Err(DocumentError(tool, libraryMessage(f)))
        case None => Ok(SignPlan(XmlDeclaration(content), ReferenceUri(uri), p))
  }

  /** Signing the whole document always succeeds and places the signature
      at the end of the root. Signing an element succeeds exactly when it
      passes the existence check and the DOM's id lookup gives an element
      other than the root, and places the signature right after it. An
      element found as the root, or found only by the loop, passes the
      search but fails in the signing library. */
  lemma PlanSignatureCases(tool: Tool, content: string, doc: seq<Element>, registered: Option<nat>, uri: string,
                           libraryMessage: SigningFailure -> string)
    ensures uri == [] ==>
              PlanSignature(tool, content, doc, registered, uri, libraryMessage) ==
                Ok(SignPlan(XmlDeclaration(content), "", LastChildOfRoot))
    ensures uri != [] ==>
              (PlanSignature(tool, content, doc, registered, uri, libraryMessage).Ok? <==>
                 UriExists(doc, uri) && registered.Some? && registered.value != 0)
    ensures uri != [] && PlanSignature(tool, content, doc, registered, uri, libraryMessage).Ok? ==>
              PlanSignature(tool, content, doc, registered, uri, libraryMessage).value ==
                SignPlan(XmlDeclaration(content), "#" + uri, AfterElement(registered.value))
    ensures uri != [] && UriExists(doc, uri) && ElementLookup(doc, registered, uri) == Some(0) ==>
              PlanSignature(tool, content, doc, registered, uri, libraryMessage) ==
                Err(DocumentError(tool, libraryMessage(SecondDocumentElement)))
    ensures uri != [] && UriExists(doc, uri) && registered.None? && FirstMatch(doc, uri).Some? &&
            FirstMatch(doc, uri).value != 0 ==>
              PlanSignature(tool, content, doc, registered, uri, libraryMessage) ==
                Err(DocumentError(tool, libraryMessage(UnresolvedReference(uri))))
  {
  }

  /** The plan the code evidently intends: every element the search finds
      is signed, the root element by placing the signature last inside it,
      as for the whole document. */
  function CorrectedPlanSignature(tool: Tool, content: string, doc: seq<Element>, registered: Option<nat>, uri: string): Result<SignPlan>
  {
    if uri != [] && !UriExists(doc, uri) then Err(DocumentError(tool, NOT_IN_DOCUMENT))
    else
      match SignaturePlacement(doc, registered, uri)
      case Err(e) => Err(DocumentError(tool, e))
      case Ok(p) =>
        var placement := if p == AfterElement(0) then LastChildOfRoot else p;
        Ok(SignPlan(XmlDeclaration(content), ReferenceUri(uri), placement))
  }

  /** The corrected plan signs an element exactly when it passes the
      existence check and the search, places the signature inside the
      document, and agrees with the code wherever the code signs. */
  lemma CorrectedPlanSignsFoundElement(tool: Tool, content: string, doc: seq<Element>, registered: Option<nat>, uri: string,
                                       libraryMessage: SigningFailure -> string)
    requires RegisteredFits(doc, registered, uri)
    ensures uri != [] ==>
              (CorrectedPlanSignature(tool, content, doc, registered, uri).Ok? <==>
                 UriExists(doc, uri) && ElementLookup(doc, registered, uri).Some?)
    ensures CorrectedPlanSignature(tool, content, doc, registered, uri).Ok? ==>
              var p := CorrectedPlanSignature(tool, content, doc, registered, uri).value.placement;
              p.AfterElement? ==> 0 < p.index < |doc| && LookupMatches(doc[p.index], uri)
    ensures PlanSignature(tool, content, doc, registered, uri, libraryMessage).Ok? ==>
              CorrectedPlanSignature(tool, content, doc, registered, uri) ==
                PlanSignature(tool, content, doc, registered, uri, libraryMessage)
  {
    if uri != [] && registered.Some? {
      IdAttributeIsLookupMatch(doc[registered.value], uri);
    }
  }

  // ---------------------------------------------------- a whole run

  /** What a run finds outside the arguments: which files exist, the
      key store's failure message (None when it loads and holds a key),
      the XML file's text as readFileToString returns it (its lines, each
      followed by "\n"), its elements in document order, the DOM's own id
      lookup for the URI, and the messages of the signing library. */
  datatype SignerInputs = SignerInputs(
    fileExists: string -> bool,
    keyStoreError: Option<string>,
    content: string,
    doc: seq<Element>,
    registered: Option<nat>,
    libraryMessage: SigningFailure -> string)

  /** validateFiles: the key source, then the XML file, must exist. */
  function ValidateFiles(tool: Tool, keySource: string, xmlFile: string, fileExists: string -> bool): Result<()>
  {
    if !fileExists(keySource) then
      Err(match tool
          case Pkcs11 => "El archivo de la biblioteca PKCS#11 no existe: " + keySource
          case Pkcs12 => "El archivo PKCS#12 no existe: " + keySource)
    else if !fileExists(xmlFile) then Err("El archivo XML no existe: " + xmlFile)
    else Ok(())
  }

  /** A signing request carried out: files, key store, then the document. */
  function SignOutcome(tool: Tool, keySource: string, xmlFile: string, uri: string, inputs: SignerInputs): Result<SignPlan>
  {
    match ValidateFiles(tool, keySource, xmlFile, inputs.fileExists)
    case Err(e) => Err(e)
    case Ok(_) =>
      if inputs.keyStoreError.Some? then Err(inputs.keyStoreError.value)
      else PlanSignature(tool, inputs.content, inputs.doc, inputs.registered, uri, inputs.libraryMessage)
  }

  /** main: exit status 0 after an option or a completed signature, 1
      after any error. */
  method Run(tool: Tool, args: seq<string>, inputs: SignerInputs) returns (exitCode: int)
    ensures exitCode in {0, 1}
    ensures exitCode == 0 <==>
              ParseArguments(tool, args) in {ShowVersion, ShowLicense, ShowHelp} ||
              (ParseArguments(tool, args).Sign? &&
               var c := ParseArguments(tool, args);
               SignOutcome(tool, c.keySource, c.xmlFile, c.uri, inputs).Ok?)
  {
    var command := ParseArguments(tool, args);
    match command {
      case ShowVersion => return 0;
      case ShowLicense => return 0;
      case ShowHelp => return 0;
      case UsageError(_) => return 1;
      case Sign(keySource, _, _, xmlFile, uri) =>
        var outcome := SignOutcome(tool, keySource, xmlFile, uri, inputs);
        if outcome.Err? {
          return 1;
        }
        return 0;
    }
  }

  /** A signing run over an existing document without a usable key store
      fails whatever the URI. */
  lemma KeyStoreFailureStopsRun(tool: Tool, keySource: string, xmlFile: string, uri: string, inputs: SignerInputs)
    requires inputs.keyStoreError.Some?
    ensures SignOutcome(tool, keySource, xmlFile, uri, inputs).Err?
  {
  }

  /** As written, a request naming an element by its tag name alone fails
      although the element passes the existence check and the search: the
      signing library cannot resolve the reference. So the run exits 1. */
  lemma TagNameMatchFails(tool: Tool, keySource: string, xmlFile: string, inputs: SignerInputs)
    requires ValidateFiles(tool, keySource, xmlFile, inputs.fileExists).Ok? && inputs.keyStoreError.None?
    requires inputs.doc == [Element("root", "root", map[]), Element("Doc", "Doc", map[])]
    requires inputs.registered == None
    ensures RegisteredFits(inputs.doc, None, "Doc") && UriExists(inputs.doc, "Doc") && FirstMatch(inputs.doc, "Doc") == Some(1)
    ensures SignOutcome(tool, keySource, xmlFile, "Doc", inputs) ==
              Err(DocumentError(tool, inputs.libraryMessage(UnresolvedReference("Doc"))))
  {
    TagNameOnlyDocument(inputs.doc);
  }

  lemma TagNameOnlyDocument(doc: seq<Element>)
    requires doc == [Element("root", "root", map[]), Element("Doc", "Doc", map[])]
    ensures RegisteredFits(doc, None, "Doc") && UriExists(doc, "Doc") && FirstMatch(doc, "Doc") == Some(1)
  {
    assert XPathMatches(doc[1], CleanUri("Doc"));
    assert !LookupMatches(doc[0], "Doc") by {
      assert GetAttribute(doc[0], "Id") == "" && GetAttribute(doc[0], "id") == "" && GetAttribute(doc[0], "ID") == "";
    }
    assert LookupMatches(doc[1], "Doc");
    assert FirstMatch(doc[1..], "Doc") == Some(0);
  }

  /** As written, a request naming the root element by its Id fails: the
      signature would be inserted beside the root, as a second document
      element. So the run exits 1. */
  lemma RootIdFails(tool: Tool, keySource: string, xmlFile: string, inputs: SignerInputs)
    requires ValidateFiles(tool, keySource, xmlFile, inputs.fileExists).Ok? && inputs.keyStoreError.None?
    requires inputs.doc == [Element("root", "root", map["Id" := "r"])]
    requires inputs.registered == Some(0)
    ensures RegisteredFits(inputs.doc, Some(0), "r") && UriExists(inputs.doc, "r")
    ensures SignOutcome(tool, keySource, xmlFile, "r", inputs) ==
              Err(DocumentError(tool, inputs.libraryMessage(SecondDocumentElement)))
  {
    assert XPathMatches(inputs.doc[0], CleanUri("r"));
  }
}
