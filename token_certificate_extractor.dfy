/** The token certificate extractor: reads the arguments (library, password,
    slot), checks that the PKCS#11 library exists, loads the token's key
    store through the SunPKCS11 provider, and writes one PEM file per X.509
    certificate, framed with "\n". The provider, the token and the file
    writes are inputs. */
module TokenCertificateExtractor {
  import opened Wrappers
  import opened JavaStrings
  import opened CertificateExport

  datatype Command =
    | ShowVersion
    | ShowLicense
    | ShowHelp
    | Extract(libraryPath: string, password: string, slot: int)
    | UsageError(message: string)

  const NO_ARGUMENTS := "No se proporcionaron argumentos."
  const UNKNOWN_ARGUMENT := "Argumento no reconocido: "
  const WRONG_COUNT := "N\U{00FA}mero incorrecto de argumentos.\n"
  const SLOT_NOT_INTEGER := "El n\U{00FA}mero de slot debe ser un n\U{00FA}mero entero."
  const LIBRARY_MISSING := "El archivo de la biblioteca PKCS#11 no existe: "
  const EXTRACTION_ERROR := "Error en la extracci\U{00F3}n del certificado: "
  const PROVIDER_MISSING := "Proveedor SunPKCS11 no disponible"
  const KEYSTORE_ERROR := "Error al cargar el almac\U{00E9}n de claves: "
  const EXPORT_ERROR := "Error al exportar el certificado: "
  const NONE_FOUND := "No se encontr\U{00F3} ning\U{00FA}n certificado en el slot "

  /** The line break of this tool's PEM frame. */
  const NEWLINE := "\n"

  /** processArguments' single-argument switch, on the lower-cased argument. */
  function SingleOption(arg: string): (c: Command)
    ensures c.UsageError? <==> ToLower(arg) !in {"-version", "-licencia", "-ayuda"}
  {
    match ToLower(arg)
    case "-version" => ShowVersion
    case "-licencia" => ShowLicense
    case "-ayuda" => ShowHelp
    case _ => UsageError(UNKNOWN_ARGUMENT + arg)
  }

  /** processArguments and processStandardArguments: no argument is an
      error, one is an option, otherwise exactly three, the slot read by
      Integer.parseInt. The help text follows the wrong-count message. */
  function ParseArguments(args: seq<string>, helpText: string): (c: Command)
    ensures args == [] ==> c == UsageError(NO_ARGUMENTS)
    ensures |args| == 1 ==> c == SingleOption(args[0])
    ensures c.Extract? <==> |args| == 3 && ParseInt(args[2]).Some?
    ensures c.Extract? ==> c == Extract(args[0], args[1], ParseInt(args[2]).value)
    ensures |args| == 2 || |args| > 3 ==> c == UsageError(WRONG_COUNT + helpText)
    ensures |args| == 3 && ParseInt(args[2]).None? ==> c == UsageError(SLOT_NOT_INTEGER)
  {
    if args == [] then UsageError(NO_ARGUMENTS)
    else if |args| == 1 then SingleOption(args[0])
    else if |args| != 3 then UsageError(WRONG_COUNT + helpText)
    else
      match ParseInt(args[2])
      case None => UsageError(SLOT_NOT_INTEGER)
      case Some(slot) => Extract(args[0], args[1], slot)
  }

  /** A slot written as a 32-bit integer is read back as that slot. */
  lemma ArgumentsRoundTrip(library: string, password: string, slot: int, helpText: string)
    requires INT_MIN <= slot <= INT_MAX
    ensures ParseArguments([library, password, IntToString(slot)], helpText) == Extract(library, password, slot)
  {
    ParseIntOfIntToString(slot);
  }

  /** What the run depends on: the help text, whether a path exists, whether
      SunPKCS11 is installed, what loading the token's key store gives for
      (library, slot, password), and which file writes fail (with what
      message). */
  datatype Environment = Environment(
    helpText: string,
    fileExists: string -> bool,
    providerAvailable: bool,
    loadKeyStore: (string, int, string) -> KeyStoreLoad,
    write: string -> Option<string>)

  /** How one certificate becomes a file in this tool. */
  function TokenExport(subject: string, encoded: string): PemFile
  {
    ExportOf(subject, encoded, NEWLINE)
  }

  /** What a run ends with: the exit status, the PEM files written, the
      "no certificate" line when one is printed, and the error printed on
      failure. */
  datatype Outcome = Outcome(exitCode: int, written: seq<PemFile>, notice: Option<string>, error: Option<string>)

  function Failed(message: string): Outcome
  {
    Outcome(1, [], None, Some(message))
  }

  /** extractCertificate for a parsed command: the library must exist, then
      the provider, then the key store; every failure from the provider on
      is wrapped in the extraction message. */
  function Extraction(libraryPath: string, password: string, slot: int, env: Environment): (o: Outcome)
    ensures o.exitCode == 0 <==> o.error.None?
    ensures o.notice.Some? ==> o.exitCode == 0 && o.written == []
    ensures o.exitCode == 0 <==>
              env.fileExists(libraryPath) && env.providerAvailable &&
              env.loadKeyStore(libraryPath, slot, password).Loaded? &&
              ExportOutcome(env.loadKeyStore(libraryPath, slot, password).entries, TokenExport, env.write).failure.None?
  {
    if !env.fileExists(libraryPath) then Failed(LIBRARY_MISSING + libraryPath)
    else if !env.providerAvailable then Failed(EXTRACTION_ERROR + PROVIDER_MISSING)
    else
      match env.loadKeyStore(libraryPath, slot, password)
      case LoadFailed(_, message) => Failed(EXTRACTION_ERROR + KEYSTORE_ERROR + message)
      case Loaded(entries) =>
        var run := ExportOutcome(entries, TokenExport, env.write);
        if run.failure.Some? then Outcome(1, run.written, None, Some(EXTRACTION_ERROR + EXPORT_ERROR + run.failure.value))
        else if run.written == [] then Outcome(0, [], Some(NONE_FOUND + IntToString(slot)), None)
        else Outcome(0, run.written, None, None)
  }

  /** main: the whole run, from the arguments to the exit status. */
  function ToolOutcome(args: seq<string>, env: Environment): (o: Outcome)
    ensures o.exitCode == 0 <==> o.error.None?
  {
    match ParseArguments(args, env.helpText)
    case UsageError(message) => Failed(message)
    case Extract(libraryPath, password, slot) => Extraction(libraryPath, password, slot, env)
    case _ => Outcome(0, [], None, None)
  }

  /** main with processCertificates' loop. */
  method Run(args: seq<string>, env: Environment) returns (o: Outcome)
    ensures o == ToolOutcome(args, env)
  {
    var command := ParseArguments(args, env.helpText);
    match command {
      case UsageError(message) =>
        return Failed(message);
      case Extract(libraryPath, password, slot) =>
        if !env.fileExists(libraryPath) {
          return Failed(LIBRARY_MISSING + libraryPath);
        }
        if !env.providerAvailable {
          return Failed(EXTRACTION_ERROR + PROVIDER_MISSING);
        }
        var load := env.loadKeyStore(libraryPath, slot, password);
        if load.LoadFailed? {
          return Failed(EXTRACTION_ERROR + KEYSTORE_ERROR + load.message);
        }
        var written, found, failure := ExportCertificates(load.entries, TokenExport, env.write);
        if failure.Some? {
          return Outcome(1, written, None, Some(EXTRACTION_ERROR + EXPORT_ERROR + failure.value));
        }
        if !found {
          NoExportsIffNoCertificate(load.entries, TokenExport);
          return Outcome(0, [], Some(NONE_FOUND + IntToString(slot)), None);
        }
        NoExportsIffNoCertificate(load.entries, TokenExport);
        return Outcome(0, written, None, None);
      case _ =>
        return Outcome(0, [], None, None);
    }
  }

  /** Once the token is loaded and every write succeeds, the "no certificate"
      line is printed exactly when no alias holds an X.509 certificate, and
      otherwise each certificate is written once, in alias order. */
  lemma NoticeIffNoCertificate(library: string, password: string, slot: int, env: Environment, entries: seq<KeyEntry>)
    requires env.fileExists(library) && env.providerAvailable
    requires env.loadKeyStore(library, slot, password) == Loaded(entries)
    requires ExportOutcome(entries, TokenExport, env.write).failure.None?
    ensures var o := Extraction(library, password, slot, env);
      o.exitCode == 0 &&
      (o.notice.Some? <==> forall k :: 0 <= k < |entries| ==> !entries[k].certificate.X509Certificate?) &&
      o.written == Exports(entries, TokenExport)
  {
    NoExportsIffNoCertificate(entries, TokenExport);
  }

  /** The library is checked before anything is loaded: a missing library is
      reported whatever the token holds. */
  lemma MissingLibraryFirst(args: seq<string>, env: Environment)
    requires |args| == 3 && ParseInt(args[2]).Some? && !env.fileExists(args[0])
    ensures ToolOutcome(args, env) == Failed(LIBRARY_MISSING + args[0])
  {
  }
}
