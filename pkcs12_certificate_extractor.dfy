/** The PKCS#12 certificate extractor: reads the arguments (file, password),
    checks that the file exists and opens as a key store with at least one
    alias, then writes one PEM file per X.509 certificate, framed with the
    platform line separator; a file without any X.509 certificate is an
    error. The key store, the separator and the file writes are inputs. */
module Pkcs12CertificateExtractor {
  import opened Wrappers
  import opened JavaStrings
  import opened CertificateExport

  datatype Command =
    | ShowVersion
    | ShowLicense
    | ShowHelp
    | Extract(pkcs12File: string, password: string)
    | UsageError(message: string)

  const NO_ARGUMENTS := "No se proporcionaron argumentos."
  const UNKNOWN_ARGUMENT := "Argumento no reconocido: "
  const WRONG_COUNT := "N\U{00FA}mero incorrecto de argumentos.\n\n"
  const FILE_MISSING := "El archivo PKCS#12 no existe: "
  const NOT_A_KEYSTORE := "El archivo no es un PKCS#12 v\U{00E1}lido o la contrase\U{00F1}a es incorrecta"
  const VALIDATION_ERROR := "Error al validar el archivo PKCS#12: "
  const NO_ALIASES := "El archivo PKCS#12 no contiene ning\U{00FA}n certificado."
  const PROCESSING_ERROR := "Error al procesar certificados: "
  const EXPORT_ERROR := "Error al exportar certificado: "
  const NO_X509 := "No se encontr\U{00F3} ning\U{00FA}n certificado X.509 en el archivo PKCS#12"
  /** main prints every failure after this prefix. */
  const ERROR_PREFIX := "Error: "

  /** processSpecialArgument: the lower-cased argument picks the option. */
  function ProcessSpecialArgument(arg: string): (c: Command)
    ensures c.UsageError? <==> ToLower(arg) !in {"-version", "-licencia", "-ayuda"}
  {
    match ToLower(arg)
    case "-version" => ShowVersion
    case "-licencia" => ShowLicense
    case "-ayuda" => ShowHelp
    case _ => UsageError(UNKNOWN_ARGUMENT + arg)
  }

  /** processArguments: no argument is an error, one is an option, otherwise
      exactly two. The help text follows the wrong-count message. */
  function ParseArguments(args: seq<string>, helpText: string): (c: Command)
    ensures args == [] ==> c == UsageError(NO_ARGUMENTS)
    ensures |args| == 1 ==> c == ProcessSpecialArgument(args[0])
    ensures c.Extract? <==> |args| == 2
    ensures c.Extract? ==> c == Extract(args[0], args[1])
    ensures |args| > 2 ==> c == UsageError(WRONG_COUNT + helpText)
  {
    if args == [] then UsageError(NO_ARGUMENTS)
    else if |args| == 1 then ProcessSpecialArgument(args[0])
    else if |args| != 2 then UsageError(WRONG_COUNT + helpText)
    else Extract(args[0], args[1])
  }

  /** The options are recognised in any case. */
  lemma OptionsIgnoreCase(arg: string, other: string)
    requires EqualsIgnoreCase(arg, other)
    ensures ParseArguments([arg], "").UsageError? <==> ParseArguments([other], "").UsageError?
    ensures !ParseArguments([arg], "").UsageError? ==> ParseArguments([arg], "") == ParseArguments([other], "")
  {
  }

  /** What the run depends on: the help text, whether a path exists, what
      loading the file with the password gives, the line separator, and
      which file writes fail (with what message). */
  datatype Environment = Environment(
    helpText: string,
    fileExists: string -> bool,
    loadKeyStore: (string, string) -> KeyStoreLoad,
    lineSeparator: string,
    write: string -> Option<string>)

  /** The file a certificate becomes here: the frame uses the line separator. */
  function Pkcs12Export(lineSeparator: string): (string, string) -> PemFile
  {
    (subject: string, encoded: string) => ExportOf(subject, encoded, lineSeparator)
  }

  /** What a run ends with: the exit status, the PEM files written, and the
      error main prints on failure. */
  datatype Outcome = Outcome(exitCode: int, written: seq<PemFile>, error: Option<string>)

  function Failed(message: string): Outcome
  {
    Outcome(1, [], Some(ERROR_PREFIX + message))
  }

  /** validatePKCS12File: the file must exist, load (an IOException means a
      wrong file or password, any other exception is reported with its
      message) and hold an alias; the missing-alias exception is itself
      caught by the generic handler and reported inside its message. */
  function Validation(pkcs12File: string, password: string, env: Environment): (r: Result<seq<KeyEntry>>)
    ensures r.Ok? <==> env.fileExists(pkcs12File) && env.loadKeyStore(pkcs12File, password).Loaded? &&
                       env.loadKeyStore(pkcs12File, password).entries != []
    ensures r.Ok? ==> r.value == env.loadKeyStore(pkcs12File, password).entries
  {
    if !env.fileExists(pkcs12File) then Err(FILE_MISSING + pkcs12File)
    else
      match env.loadKeyStore(pkcs12File, password)
      case LoadFailed(ioException, message) =>
        if ioException then Err(NOT_A_KEYSTORE) else Err(VALIDATION_ERROR + message)
      case Loaded(entries) =>
        if entries == [] then Err(VALIDATION_ERROR + NO_ALIASES) else Ok(entries)
  }

  /** extractCertificates on the validated key store (loading the same file
      again gives the same entries): every failure is wrapped in the
      processing message, and no X.509 certificate at all is a failure. */
  function Extraction(entries: seq<KeyEntry>, env: Environment): (o: Outcome)
    ensures o.exitCode == 0 <==> o.error.None?
    ensures o.exitCode == 0 <==>
              ExportOutcome(entries, Pkcs12Export(env.lineSeparator), env.write).failure.None? &&
              exists k :: 0 <= k < |entries| && entries[k].certificate.X509Certificate?
    ensures o.written == ExportOutcome(entries, Pkcs12Export(env.lineSeparator), env.write).written
  {
    NoExportsIffNoCertificate(entries, Pkcs12Export(env.lineSeparator));
    var run := ExportOutcome(entries, Pkcs12Export(env.lineSeparator), env.write);
    if run.failure.Some? then Outcome(1, run.written, Some(ERROR_PREFIX + PROCESSING_ERROR + EXPORT_ERROR + run.failure.value))
    else if run.written == [] then Failed(PROCESSING_ERROR + NO_X509)
    else Outcome(0, run.written, None)
  }

  /** main: the whole run, from the arguments to the exit status. */
  function ToolOutcome(args: seq<string>, env: Environment): (o: Outcome)
    ensures o.exitCode == 0 <==> o.error.None?
  {
    match ParseArguments(args, env.helpText)
    case UsageError(message) => Failed(message)
    case Extract(pkcs12File, password) =>
      (match Validation(pkcs12File, password, env)
       case Err(message) => Failed(message)
       case Ok(entries) => Extraction(entries, env))
    case _ => Outcome(0, [], None)
  }

  /** main with extractCertificates' loop. */
  method Run(args: seq<string>, env: Environment) returns (o: Outcome)
    ensures o == ToolOutcome(args, env)
  {
    var command := ParseArguments(args, env.helpText);
    match command {
      case UsageError(message) =>
        return Failed(message);
      case Extract(pkcs12File, password) =>
        var validation := Validation(pkcs12File, password, env);
        if validation.Err? {
          return Failed(validation.error);
        }
        var written, found, failure := ExportCertificates(validation.value, Pkcs12Export(env.lineSeparator), env.write);
        if failure.Some? {
          return Outcome(1, written, Some(ERROR_PREFIX + PROCESSING_ERROR + EXPORT_ERROR + failure.value));
        }
        NoExportsIffNoCertificate(validation.value, Pkcs12Export(env.lineSeparator));
        if !found {
          return Failed(PROCESSING_ERROR + NO_X509);
        }
        return Outcome(0, written, None);
      case _ =>
        return Outcome(0, [], None);
    }
  }

  /** A key store that opens but holds no X.509 certificate makes the run
      fail, and one that holds some succeeds with one file per certificate,
      as long as every write succeeds. */
  lemma SucceedsIffSomeCertificate(file: string, password: string, env: Environment)
    requires Validation(file, password, env).Ok?
    requires ExportOutcome(Validation(file, password, env).value, Pkcs12Export(env.lineSeparator), env.write).failure.None?
    ensures var entries := Validation(file, password, env).value;
      var o := ToolOutcome([file, password], env);
      (o.exitCode == 0 <==> exists k :: 0 <= k < |entries| && entries[k].certificate.X509Certificate?) &&
      (o.exitCode == 0 ==> o.written == Exports(entries, Pkcs12Export(env.lineSeparator)))
  {
    var entries := Validation(file, password, env).value;
    NoExportsIffNoCertificate(entries, Pkcs12Export(env.lineSeparator));
  }

  /** A key store without any alias is refused during validation, with the
      no-alias message wrapped in the validation message. */
  lemma EmptyKeyStoreRefused(file: string, password: string, env: Environment)
    requires env.fileExists(file) && env.loadKeyStore(file, password) == Loaded([])
    ensures ToolOutcome([file, password], env) == Failed(VALIDATION_ERROR + NO_ALIASES)
  {
  }

  /** The PEM text of an exported certificate is BEGIN, separator, body,
      separator, END, and the body can be read back from it. */
  lemma Pkcs12PemFrame(subject: string, encoded: string, lineSeparator: string)
    ensures Pkcs12Export(lineSeparator)(subject, encoded).content ==
      PEM_BEGIN + lineSeparator + encoded + lineSeparator + PEM_END
    ensures PemBody(Pkcs12Export(lineSeparator)(subject, encoded).content, lineSeparator) == encoded
  {
    PemRoundTrip(encoded, lineSeparator);
  }
}
