/** The GUI's parameter checks before it launches a tool: each validator is
    an ordered chain of guards, the first failing one gives the message, and
    every answer is a ValidationResult whose record invariant holds. The file
    system is an input: what File and Files report for each path. */
module ModuleValidator {
  import opened Wrappers
  import opened JavaStrings

  // ------------------------------------------------------ the result record

  /** ValidationResult(valid, errorMessage); a null message is None. */
  datatype ValidationResult = ValidationResult(valid: bool, errorMessage: Option<string>)

  /** The record invariant: a valid result carries no message and an invalid
      one carries a message that is not blank. */
  predicate WellFormed(r: ValidationResult)
  {
    (r.valid ==> r.errorMessage.None?) && (!r.valid ==> r.errorMessage.Some? && !IsBlank(r.errorMessage.value))
  }

  /** The record's compact constructor: it throws IllegalArgumentException
      (Err) on a valid result with a message, then on an invalid one with a
      null or blank message. */
  function NewValidationResult(valid: bool, errorMessage: Option<string>): (r: Result<ValidationResult>)
    ensures r.Ok? <==> WellFormed(ValidationResult(valid, errorMessage))
    ensures r.Ok? ==> r.value == ValidationResult(valid, errorMessage)
  {
    if valid && errorMessage.Some? then
      Err("Un resultado v\U{00E1}lido no puede tener mensaje de error")
    else if !valid && (errorMessage.None? || Trim(errorMessage.value) == []) then
      Err("Un resultado inv\U{00E1}lido debe tener un mensaje de error")
    else
      Ok(ValidationResult(valid, errorMessage))
  }

  /** new ValidationResult(true, null). */
  function Accepted(): (r: ValidationResult)
    ensures WellFormed(r) && r.valid
    ensures NewValidationResult(true, None) == Ok(r)
  {
    ValidationResult(true, None)
  }

  /** new ValidationResult(false, prefix + detail): every message opens with
      a fixed, non-blank text, so the constructor accepts it. */
  function Rejected(prefix: string, detail: string): (r: ValidationResult)
    requires !IsBlank(prefix)
    ensures WellFormed(r) && !r.valid
    ensures NewValidationResult(false, Some(prefix + detail)) == Ok(r)
  {
    var i :| 0 <= i < |prefix| && prefix[i] > ' ';
    assert (prefix + detail)[i] == prefix[i];
    ValidationResult(false, Some(prefix + detail))
  }

  // ------------------------------------------------------- the file system

  /** What the file system answers for one path: exists (present), isFile / isRegular,
      canRead / isReadable, and Files.size, which may throw an IOException
      (Err with its message). */
  datatype FileStatus = FileStatus(present: bool, isFile: bool, canRead: bool, size: Result<nat>)

  type FileSystem = string -> FileStatus

  // ------------------------------------------------------- the jar files

  /** Which jar each launchable module lives in. */
  const JAR_MAPPINGS: map<string, string> := map[
    "TokenSlotsView" := "TokenSlotsView.jar",
    "TokenCertificateExtractor" := "TokenCertificateExtractor.jar",
    "PKCS12CertificateExtractor" := "PKCS12CertificateExtractor.jar",
    "XMLSignerPKCS11" := "XMLSignerPKCS11.jar",
    "XMLSignerPKCS12" := "XMLSignerPKCS12.jar",
    "XMLVerifySignatures" := "XMLVerifySignatures.jar",
    "XMLVerifyXSDStructure" := "XMLVerifyXSDStructure.jar",
    "PDFSignerPKCS11" := "PDFSignerPKCS11.jar",
    "PDFSignerPKCS12" := "PDFSignerPKCS12.jar",
    "PDFVerifySignatures" := "PDFVerifySignatures.jar"
  ]

  const UNKNOWN_MODULE := "M\U{00F3}dulo no reconocido: "
  const JAR_NOT_FOUND := "No se encuentra el archivo JAR requerido: "
  const JAR_UNREADABLE := "No se puede leer el archivo JAR: "
  const JAR_EMPTY := "El archivo JAR est\U{00E1} vac\U{00ED}o: "
  const JAR_SIZE_ERROR := "Error al verificar el archivo JAR "

  /** The messages above are not blank. */
  lemma JarHeads()
    ensures !IsBlank(UNKNOWN_MODULE)
    ensures !IsBlank(JAR_NOT_FOUND)
    ensures !IsBlank(JAR_UNREADABLE)
    ensures !IsBlank(JAR_EMPTY)
    ensures !IsBlank(JAR_SIZE_ERROR)
  {
    assert UNKNOWN_MODULE[|UNKNOWN_MODULE| - 2] == ':';
    assert JAR_NOT_FOUND[|JAR_NOT_FOUND| - 2] == ':';
    assert JAR_UNREADABLE[|JAR_UNREADABLE| - 2] == ':';
    assert JAR_EMPTY[|JAR_EMPTY| - 2] == ':';
    assert JAR_SIZE_ERROR[|JAR_SIZE_ERROR| - 2] == 'R';
  }

  /** A jar the launcher can use: present, readable and not empty. */
  predicate JarUsable(st: FileStatus)
  {
    st.present && st.canRead && st.size.Ok? && st.size.value > 0
  }

  /** validateJarFile: the module must be known, and its jar (looked up by
      name in the working directory) must exist, be readable and be non-empty;
      the first of these that fails is the one reported. */
  function ValidateJarFile(moduleName: string, fs: FileSystem): (r: ValidationResult)
    ensures WellFormed(r)
    ensures r.valid <==> moduleName in JAR_MAPPINGS && JarUsable(fs(JAR_MAPPINGS[moduleName]))
    ensures moduleName !in JAR_MAPPINGS ==> r.errorMessage == Some(UNKNOWN_MODULE + moduleName)
  {
    JarHeads();
    if moduleName !in JAR_MAPPINGS then Rejected(UNKNOWN_MODULE, moduleName)
    else
      var jarName := JAR_MAPPINGS[moduleName];
      var st := fs(jarName);
      if !st.present then Rejected(JAR_NOT_FOUND, jarName)
      else if !st.canRead then Rejected(JAR_UNREADABLE, jarName)
      else if st.size.Err? then Rejected(JAR_SIZE_ERROR, jarName + ": " + st.size.error)
      else if st.size.value == 0 then Rejected(JAR_EMPTY, jarName)
      else Accepted()
  }

  /** The jar checks run in order: a missing jar is reported as missing
      whatever else is wrong with it, an unreadable one as unreadable, and
      an empty one as empty. */
  lemma JarChecksInOrder(moduleName: string, fs: FileSystem)
    requires moduleName in JAR_MAPPINGS
    ensures var jar := JAR_MAPPINGS[moduleName];
      !fs(jar).present ==> ValidateJarFile(moduleName, fs).errorMessage == Some(JAR_NOT_FOUND + jar)
    ensures var jar := JAR_MAPPINGS[moduleName];
      fs(jar).present && !fs(jar).canRead ==> ValidateJarFile(moduleName, fs).errorMessage == Some(JAR_UNREADABLE + jar)
    ensures var jar := JAR_MAPPINGS[moduleName];
      fs(jar).present && fs(jar).canRead && fs(jar).size == Ok(0) ==>
        ValidateJarFile(moduleName, fs).errorMessage == Some(JAR_EMPTY + jar)
  {
  }

  /** Every tool the GUI launches has a jar of its own, named after it. */
  lemma JarNamedAfterModule(moduleName: string)
    requires moduleName in JAR_MAPPINGS
    ensures JAR_MAPPINGS[moduleName] == moduleName + ".jar"
  {
  }

  // --------------------------------------------------------- extensions

  /** getFileExtension: the text after the last '.' of the whole path, and
      "" for a null path or one without a '.'. */
  function GetFileExtension(path: Option<string>): (ext: string)
    ensures '.' !in ext
    ensures path.None? || '.' !in path.value ==> ext == ""
    ensures path.Some? && '.' in path.value ==>
      EndsWith(path.value, ext) && path.value[|path.value| - |ext| - 1] == '.'
  {
    if path.None? || LastIndexOfChar(path.value, '.') == -1 then ""
    else AfterLast(path.value, '.')
  }

  /** A name ending in "." and a dot-free extension has exactly that
      extension, whatever the stem holds. */
  lemma {:induction false} ExtensionOfDottedName(stem: string, ext: string)
    requires '.' !in ext
    ensures GetFileExtension(Some(stem + "." + ext)) == ext
  {
    var path := stem + "." + ext;
    assert path[|stem|] == '.';
    var r := GetFileExtension(Some(path));
    assert EndsWith(path, r) && path[|path| - |r| - 1] == '.';
    assert r == path[|path| - |ext|..] == ext;
  }

  /** toLowerCase of the extension is one of the accepted ones. */
  predicate HasExtension(path: Option<string>, accepted: set<string>)
  {
    ToLower(GetFileExtension(path)) in accepted
  }

  /** The extension test looks only at the part after the last '.' and
      ignores its case: two names that differ only in the case of their
      extension pass or fail together. */
  lemma ExtensionTestIgnoresCase(stem: string, ext: string, other: string, accepted: set<string>)
    requires '.' !in ext && '.' !in other && EqualsIgnoreCase(ext, other)
    ensures HasExtension(Some(stem + "." + ext), accepted) <==> ToLower(ext) in accepted
    ensures HasExtension(Some(stem + "." + ext), accepted) <==> HasExtension(Some(stem + "." + other), accepted)
  {
    ExtensionOfDottedName(stem, ext);
    ExtensionOfDottedName(stem, other);
  }

  // ------------------------------------------------------- PKCS#11 inputs

  const LIB_REQUIRED := "La ruta de la biblioteca PKCS#11 es requerida"
  const LIB_MISSING := "La biblioteca PKCS#11 no existe: "
  const NOT_A_FILE := "La ruta especificada no es un archivo: "
  const LIB_UNREADABLE := "No se puede leer la biblioteca PKCS#11: "
  const LIB_EXTENSION := "La biblioteca PKCS#11 debe tener extensi\U{00F3}n .dll o .so: "
  const TOKEN_PASSWORD_REQUIRED := "La contrase\U{00F1}a del token es requerida"
  const SLOT_NEGATIVE := "El n\U{00FA}mero de slot debe ser un valor positivo: "
  const SLOT_NOT_NUMERIC := "El n\U{00FA}mero de slot debe ser un valor num\U{00E9}rico v\U{00E1}lido: "

  /** The messages above are not blank. */
  lemma Pkcs11Heads()
    ensures !IsBlank(LIB_REQUIRED)
    ensures !IsBlank(LIB_MISSING)
    ensures !IsBlank(NOT_A_FILE)
    ensures !IsBlank(LIB_UNREADABLE)
    ensures !IsBlank(LIB_EXTENSION)
    ensures !IsBlank(TOKEN_PASSWORD_REQUIRED)
    ensures !IsBlank(SLOT_NEGATIVE)
    ensures !IsBlank(SLOT_NOT_NUMERIC)
  {
    assert LIB_REQUIRED[|LIB_REQUIRED| - 1] == 'a';
    assert LIB_MISSING[|LIB_MISSING| - 2] == ':';
    assert NOT_A_FILE[|NOT_A_FILE| - 2] == ':';
    assert LIB_UNREADABLE[|LIB_UNREADABLE| - 2] == ':';
    assert LIB_EXTENSION[|LIB_EXTENSION| - 2] == ':';
    assert TOKEN_PASSWORD_REQUIRED[|TOKEN_PASSWORD_REQUIRED| - 1] == 'a';
    assert SLOT_NEGATIVE[|SLOT_NEGATIVE| - 2] == ':';
    assert SLOT_NOT_NUMERIC[|SLOT_NOT_NUMERIC| - 2] == ':';
  }

  /** A path that names a readable regular file. */
  predicate ReadableFile(st: FileStatus)
  {
    st.present && st.isFile && st.canRead
  }

  /** The slot is optional; when given, Integer.parseInt of the text as
      typed (not trimmed) must succeed and be at least 0. */
  predicate SlotAcceptable(slot: Option<string>)
  {
    NullOrBlank(slot) || (ParseInt(slot.value).Some? && ParseInt(slot.value).value >= 0)
  }

  /** validatePKCS11: the TokenSlotsView jar, then the library path (given,
      existing, a file, readable, ending in .dll or .so), then the password,
      then the optional slot. */
  function ValidatePkcs11(libPath: Option<string>, password: Option<string>, slotNumber: Option<string>, fs: FileSystem): (r: ValidationResult)
    ensures WellFormed(r)
    ensures r.valid <==>
      ValidateJarFile("TokenSlotsView", fs).valid && !NullOrBlank(libPath) && ReadableFile(fs(libPath.value)) &&
      HasExtension(libPath, {"dll", "so"}) && !NullOrBlank(password) && SlotAcceptable(slotNumber)
    ensures !ValidateJarFile("TokenSlotsView", fs).valid ==> r == ValidateJarFile("TokenSlotsView", fs)
  {
    Pkcs11Heads();
    var jarValidation := ValidateJarFile("TokenSlotsView", fs);
    if !jarValidation.valid then jarValidation
    else if NullOrBlank(libPath) then Rejected(LIB_REQUIRED, "")
    else
      var lib := fs(libPath.value);
      if !lib.present then Rejected(LIB_MISSING, libPath.value)
      else if !lib.isFile then Rejected(NOT_A_FILE, libPath.value)
      else if !lib.canRead then Rejected(LIB_UNREADABLE, libPath.value)
      else
        if !HasExtension(libPath, {"dll", "so"}) then Rejected(LIB_EXTENSION, libPath.value)
        else if NullOrBlank(password) then Rejected(TOKEN_PASSWORD_REQUIRED, "")
        else if !NullOrBlank(slotNumber) then
          match ParseInt(slotNumber.value)
          case None => Rejected(SLOT_NOT_NUMERIC, slotNumber.value)
          case Some(slot) => if slot < 0 then Rejected(SLOT_NEGATIVE, IntToString(slot)) else Accepted()
        else Accepted()
  }

  /** The slot rules: a missing slot never stops an otherwise good request;
      a slot that does not parse is reported with the text as typed, and a
      negative one with its value. */
  lemma SlotRules(libPath: Option<string>, password: Option<string>, slotNumber: Option<string>, fs: FileSystem)
    requires ValidatePkcs11(libPath, password, None, fs).valid
    ensures ValidatePkcs11(libPath, password, Some(""), fs).valid
    ensures slotNumber.Some? && !IsBlank(slotNumber.value) && ParseInt(slotNumber.value).None? ==>
      ValidatePkcs11(libPath, password, slotNumber, fs).errorMessage == Some(SLOT_NOT_NUMERIC + slotNumber.value)
    ensures slotNumber.Some? && ParseInt(slotNumber.value).Some? && ParseInt(slotNumber.value).value < 0 ==>
      ValidatePkcs11(libPath, password, slotNumber, fs).errorMessage ==
        Some(SLOT_NEGATIVE + IntToString(ParseInt(slotNumber.value).value))
  {
    if slotNumber.Some? && ParseInt(slotNumber.value).Some? && ParseInt(slotNumber.value).value < 0 {
      assert slotNumber.value[0] == '-';
    }
  }

  /** The slot is parsed as typed: a slot number with a space around it is
      not a number, even though its trim is. */
  lemma PaddedSlotRejected(libPath: Option<string>, password: Option<string>, fs: FileSystem)
    requires ValidatePkcs11(libPath, password, None, fs).valid
    ensures !ValidatePkcs11(libPath, password, Some(" 1"), fs).valid
    ensures ValidatePkcs11(libPath, password, Some("1"), fs).valid
  {
    assert " 1"[0] == ' ';
    assert !IsBlank(" 1") by { assert " 1"[1] == '1'; }
    assert !IsBlank("1") by { assert "1"[0] == '1'; }
    assert ParseInt("1") == Some(1) by { assert AllDigits("1"); }
  }

  // ------------------------------------------------------- PKCS#12 inputs

  const P12_REQUIRED := "La ruta del archivo PKCS#12 es requerida"
  const P12_MISSING := "El archivo PKCS#12 no existe: "
  const P12_UNREADABLE := "No se puede leer el archivo PKCS#12: "
  const P12_EXTENSION := "El archivo PKCS#12 debe tener extensi\U{00F3}n .p12 o .pfx: "
  const P12_PASSWORD_REQUIRED := "La contrase\U{00F1}a del archivo PKCS#12 es requerida"

  /** The messages above are not blank. */
  lemma Pkcs12Heads()
    ensures !IsBlank(P12_REQUIRED)
    ensures !IsBlank(P12_MISSING)
    ensures !IsBlank(P12_UNREADABLE)
    ensures !IsBlank(P12_EXTENSION)
    ensures !IsBlank(P12_PASSWORD_REQUIRED)
  {
    assert P12_REQUIRED[|P12_REQUIRED| - 1] == 'a';
    assert P12_MISSING[|P12_MISSING| - 2] == ':';
    assert P12_UNREADABLE[|P12_UNREADABLE| - 2] == ':';
    assert P12_EXTENSION[|P12_EXTENSION| - 2] == ':';
    assert P12_PASSWORD_REQUIRED[|P12_PASSWORD_REQUIRED| - 1] == 'a';
  }

  /** validatePKCS12: the PKCS12CertificateExtractor jar, then the keystore
      path (given, existing, a file, readable, ending in .p12 or .pfx), then
      the password. */
  function ValidatePkcs12(pkcs12Path: Option<string>, password: Option<string>, fs: FileSystem): (r: ValidationResult)
    ensures WellFormed(r)
    ensures r.valid <==>
      ValidateJarFile("PKCS12CertificateExtractor", fs).valid && !NullOrBlank(pkcs12Path) && ReadableFile(fs(pkcs12Path.value)) &&
      HasExtension(pkcs12Path, {"p12", "pfx"}) && !NullOrBlank(password)
    ensures !ValidateJarFile("PKCS12CertificateExtractor", fs).valid ==> r == ValidateJarFile("PKCS12CertificateExtractor", fs)
  {
    Pkcs12Heads();
    Pkcs11Heads();
    var jarValidation := ValidateJarFile("PKCS12CertificateExtractor", fs);
    if !jarValidation.valid then jarValidation
    else if NullOrBlank(pkcs12Path) then Rejected(P12_REQUIRED, "")
    else
      var file := fs(pkcs12Path.value);
      if !file.present then Rejected(P12_MISSING, pkcs12Path.value)
      else if !file.isFile then Rejected(NOT_A_FILE, pkcs12Path.value)
      else if !file.canRead then Rejected(P12_UNREADABLE, pkcs12Path.value)
      else
        if !HasExtension(pkcs12Path, {"p12", "pfx"}) then Rejected(P12_EXTENSION, pkcs12Path.value)
        else if NullOrBlank(password) then Rejected(P12_PASSWORD_REQUIRED, "")
        else Accepted()
  }

  /** The password is looked at only once the keystore file itself passed:
      a bad keystore path is reported even when the password is missing. */
  lemma Pkcs12PathBeforePassword(pkcs12Path: string, fs: FileSystem)
    requires ValidateJarFile("PKCS12CertificateExtractor", fs).valid
    requires !IsBlank(pkcs12Path) && !fs(pkcs12Path).present
    ensures ValidatePkcs12(Some(pkcs12Path), None, fs).errorMessage == Some(P12_MISSING + pkcs12Path)
  {
  }

  // ----------------------------------------------------------- XML inputs

  const XML_REQUIRED := "La ruta del archivo XML es requerida"
  const XML_MISSING := "El archivo XML no existe: "
  const XML_UNREADABLE := "No se puede leer el archivo XML: "
  const XML_EXTENSION := "El archivo debe tener extensi\U{00F3}n .xml: "
  const XSD_MISSING := "El archivo XSD no existe: "
  const XSD_NOT_A_FILE := "La ruta del XSD no es un archivo: "
  const XSD_UNREADABLE := "No se puede leer el archivo XSD: "
  const XSD_EXTENSION := "El archivo de esquema debe tener extensi\U{00F3}n .xsd: "

  /** The messages above are not blank. */
  lemma XmlHeads()
    ensures !IsBlank(XML_REQUIRED)
    ensures !IsBlank(XML_MISSING)
    ensures !IsBlank(XML_UNREADABLE)
    ensures !IsBlank(XML_EXTENSION)
    ensures !IsBlank(XSD_MISSING)
    ensures !IsBlank(XSD_NOT_A_FILE)
    ensures !IsBlank(XSD_UNREADABLE)
    ensures !IsBlank(XSD_EXTENSION)
  {
    assert XML_REQUIRED[|XML_REQUIRED| - 1] == 'a';
    assert XML_MISSING[|XML_MISSING| - 2] == ':';
    assert XML_UNREADABLE[|XML_UNREADABLE| - 2] == ':';
    assert XML_EXTENSION[|XML_EXTENSION| - 2] == ':';
    assert XSD_MISSING[|XSD_MISSING| - 2] == ':';
    assert XSD_NOT_A_FILE[|XSD_NOT_A_FILE| - 2] == ':';
    assert XSD_UNREADABLE[|XSD_UNREADABLE| - 2] == ':';
    assert XSD_EXTENSION[|XSD_EXTENSION| - 2] == ':';
  }

  /** The schema is optional; a given one must be a readable .xsd file. */
  predicate SchemaAcceptable(xsdPath: Option<string>, fs: FileSystem)
  {
    NullOrBlank(xsdPath) || (ReadableFile(fs(xsdPath.value)) && HasExtension(xsdPath, {"xsd"}))
  }

  /** validateXML: no jar is checked; the document path (given, existing, a
      file, readable, ending in .xml), then the optional schema path
      (existing, a file, readable, ending in .xsd). */
  function ValidateXml(xmlPath: Option<string>, xsdPath: Option<string>, fs: FileSystem): (r: ValidationResult)
    ensures WellFormed(r)
    ensures r.valid <==>
      !NullOrBlank(xmlPath) && ReadableFile(fs(xmlPath.value)) && HasExtension(xmlPath, {"xml"}) && SchemaAcceptable(xsdPath, fs)
  {
    XmlHeads();
    Pkcs11Heads();
    if NullOrBlank(xmlPath) then Rejected(XML_REQUIRED, "")
    else
      var xml := fs(xmlPath.value);
      if !xml.present then Rejected(XML_MISSING, xmlPath.value)
      else if !xml.isFile then Rejected(NOT_A_FILE, xmlPath.value)
      else if !xml.canRead then Rejected(XML_UNREADABLE, xmlPath.value)
      else if !HasExtension(xmlPath, {"xml"}) then Rejected(XML_EXTENSION, xmlPath.value)
      else if !NullOrBlank(xsdPath) then
        var xsd := fs(xsdPath.value);
        if !xsd.present then Rejected(XSD_MISSING, xsdPath.value)
        else if !xsd.isFile then Rejected(XSD_NOT_A_FILE, xsdPath.value)
        else if !xsd.canRead then Rejected(XSD_UNREADABLE, xsdPath.value)
        else if !HasExtension(xsdPath, {"xsd"}) then Rejected(XSD_EXTENSION, xsdPath.value)
        else Accepted()
      else Accepted()
  }

  /** Leaving the schema out never turns a good document into a bad one,
      and a blank schema path counts as left out. */
  lemma SchemaIsOptional(xmlPath: Option<string>, xsdPath: Option<string>, fs: FileSystem)
    ensures ValidateXml(xmlPath, xsdPath, fs).valid ==> ValidateXml(xmlPath, None, fs).valid
    ensures ValidateXml(xmlPath, Some(" "), fs) == ValidateXml(xmlPath, None, fs)
  {
    assert NullOrBlank(Some(" "));
  }

  /** A document check does not depend on any jar being present. */
  lemma XmlNeedsNoJar(xmlPath: Option<string>, xsdPath: Option<string>, fs: FileSystem, name: string, st: FileStatus)
    requires !NullOrBlank(xmlPath) && xmlPath.value != name
    requires !NullOrBlank(xsdPath) ==> xsdPath.value != name
    ensures ValidateXml(xmlPath, xsdPath, fs) == ValidateXml(xmlPath, xsdPath, (p: string) => if p == name then st else fs(p))
  {
  }

  // ----------------------------------------------------------- PDF inputs

  /** Float.parseFloat (None for a NumberFormatException) and the text Java
      prints for a float; both are inputs. */
  datatype FloatSyntax = FloatSyntax(parse: string -> Option<real>, show: real -> string)

  const PDF_REQUIRED := "La ruta del archivo PDF es requerida"
  const PDF_MISSING := "El archivo PDF no existe: "
  const PDF_UNREADABLE := "No se puede leer el archivo PDF: "
  const POSITION := "La posici\U{00F3}n "
  const PDF_EXTENSION := "El archivo debe tener extensi\U{00F3}n .pdf: "

  /** The messages above are not blank. */
  lemma PdfHeads()
    ensures !IsBlank(PDF_REQUIRED)
    ensures !IsBlank(PDF_MISSING)
    ensures !IsBlank(PDF_UNREADABLE)
    ensures !IsBlank(POSITION)
    ensures !IsBlank(PDF_EXTENSION)
  {
    assert PDF_REQUIRED[|PDF_REQUIRED| - 1] == 'a';
    assert PDF_MISSING[|PDF_MISSING| - 2] == ':';
    assert PDF_UNREADABLE[|PDF_UNREADABLE| - 2] == ':';
    assert POSITION[|POSITION| - 2] == 'n';
    assert PDF_EXTENSION[|PDF_EXTENSION| - 2] == ':';
  }

  /** An optional coordinate: when given, it must parse and not be negative. */
  predicate PositionAcceptable(pos: Option<string>, floats: FloatSyntax)
  {
    NullOrBlank(pos) || (floats.parse(pos.value).Some? && floats.parse(pos.value).value >= 0.0)
  }

  /** One coordinate's check, axis being "X" or "Y". */
  function CheckPosition(axis: string, pos: Option<string>, floats: FloatSyntax): (r: ValidationResult)
    ensures WellFormed(r)
    ensures r.valid <==> PositionAcceptable(pos, floats)
  {
    PdfHeads();
    if NullOrBlank(pos) then Accepted()
    else
      match floats.parse(pos.value)
      case None => Rejected(POSITION, axis + " debe ser un valor num\U{00E9}rico v\U{00E1}lido: " + pos.value)
      case Some(v) => if v < 0.0 then Rejected(POSITION, axis + " debe ser un valor positivo: " + floats.show(v)) else Accepted()
  }

  /** validatePDF: the document path (given, existing, a file, readable,
      ending in .pdf), then the optional X and Y positions, in that order. */
  function ValidatePdf(pdfPath: Option<string>, xPos: Option<string>, yPos: Option<string>, fs: FileSystem, floats: FloatSyntax): (r: ValidationResult)
    ensures WellFormed(r)
    ensures r.valid <==>
      !NullOrBlank(pdfPath) && ReadableFile(fs(pdfPath.value)) && HasExtension(pdfPath, {"pdf"}) &&
      PositionAcceptable(xPos, floats) && PositionAcceptable(yPos, floats)
  {
    PdfHeads();
    Pkcs11Heads();
    if NullOrBlank(pdfPath) then Rejected(PDF_REQUIRED, "")
    else
      var pdf := fs(pdfPath.value);
      if !pdf.present then Rejected(PDF_MISSING, pdfPath.value)
      else if !pdf.isFile then Rejected(NOT_A_FILE, pdfPath.value)
      else if !pdf.canRead then Rejected(PDF_UNREADABLE, pdfPath.value)
      else if !HasExtension(pdfPath, {"pdf"}) then Rejected(PDF_EXTENSION, pdfPath.value)
      else
        var x := CheckPosition("X", xPos, floats);
        if !x.valid then x else CheckPosition("Y", yPos, floats)
  }
}
