/** What the two certificate extractors share: the entries of a loaded key
    store, the file name an exported certificate gets, the PEM framing,
    and the export loop that writes one .pem file per X.509 certificate
    and stops at the first write that fails. Base64 (MIME) encoding is not
    modelled: a certificate carries its encoded body text. */
module CertificateExport {
  import opened Wrappers
  import opened JavaStrings
  import opened DistinguishedNames

  /** What KeyStore.getCertificate answers for an alias. */
  datatype StoredCertificate =
    | X509Certificate(subject: string, encoded: string)
    | OtherCertificate
    | NoCertificate

  datatype KeyEntry = KeyEntry(alias: string, certificate: StoredCertificate)

  /** KeyStore.load: the aliases in enumeration order, or the exception it
      threw (an IOException or another one) with its message. */
  datatype KeyStoreLoad = Loaded(entries: seq<KeyEntry>) | LoadFailed(ioException: bool, message: string)

  /** A written file: its name and its text. */
  datatype PemFile = PemFile(name: string, content: string)

  // ------------------------------------------------------------ file names

  const DEFAULT_FILE_NAME := "certificate"

  /** getFileNameFromSubject: the first trimmed "CN=" piece of the subject,
      every char outside [a-zA-Z0-9.-] replaced by '_'; "certificate" when
      no piece starts with "CN=". */
  function FileNameFromSubject(subject: string): (name: string)
    ensures forall i :: 0 <= i < |name| ==> IsFileNameChar(name[i]) || name[i] == '_'
    ensures Attribute(subject, CN_KEY).None? ==> name == DEFAULT_FILE_NAME
    ensures Attribute(subject, CN_KEY).Some? ==> |name| == |Attribute(subject, CN_KEY).value|
  {
    match Attribute(subject, CN_KEY)
    case None => DEFAULT_FILE_NAME
    case Some(cn) => ReplaceDisallowed(cn, IsFileNameChar)
  }

  /** A subject whose first piece is "CN=" + v gives v with its disallowed
      chars replaced, whatever follows; a name that is already file-safe is
      kept as it is. */
  lemma LeadingCommonName(v: string, rest: string)
    requires v != [] && v[|v| - 1] > ' ' && ',' !in v
    requires rest == [] || rest[0] == ','
    ensures FileNameFromSubject(CN_KEY + v + rest) == ReplaceDisallowed(v, IsFileNameChar)
    ensures (forall i :: 0 <= i < |v| ==> IsFileNameChar(v[i])) ==> FileNameFromSubject(CN_KEY + v + rest) == v
  {
    assert (CN_KEY + v)[|CN_KEY + v| - 1] == v[|v| - 1];
    LeadingAttribute(CN_KEY, v, rest);
    if forall i :: 0 <= i < |v| ==> IsFileNameChar(v[i]) {
      ReplaceDisallowedKeepsClean(v, IsFileNameChar);
    }
  }

  /** The name is already file-safe: replacing again changes nothing. */
  lemma FileNameIsFileSafe(subject: string)
    ensures ReplaceDisallowed(FileNameFromSubject(subject), IsFileNameChar) == FileNameFromSubject(subject)
  {
    var name := FileNameFromSubject(subject);
    if Attribute(subject, CN_KEY).Some? {
      ReplaceDisallowedIsClean(Attribute(subject, CN_KEY).value, IsFileNameChar);
    } else {
      ReplaceDisallowedKeepsClean(name, IsFileNameChar);
    }
  }

  // ------------------------------------------------------------ PEM frame

  const PEM_BEGIN := "-----BEGIN CERTIFICATE-----"
  const PEM_END := "-----END CERTIFICATE-----"

  /** The BEGIN line, a line break, the encoded body, a line break and the
      END line (no break after it). */
  function PemText(body: string, newline: string): (text: string)
    ensures StartsWith(text, PEM_BEGIN + newline)
    ensures EndsWith(text, newline + PEM_END)
    ensures |text| == |PEM_BEGIN| + |body| + 2 * |newline| + |PEM_END|
  {
    var text := PEM_BEGIN + newline + body + newline + PEM_END;
    assert text[..|PEM_BEGIN + newline|] == PEM_BEGIN + newline;
    assert text[|text| - |newline + PEM_END|..] == newline + PEM_END;
    text
  }

  /** The body between the two frame lines of a PEM text. */
  function PemBody(text: string, newline: string): string
    requires |text| >= |PEM_BEGIN| + 2 * |newline| + |PEM_END|
  {
    text[|PEM_BEGIN| + |newline| .. |text| - |newline| - |PEM_END|]
  }

  /** The frame gives the body back: reading a written PEM file recovers
      exactly the encoded certificate. */
  lemma PemRoundTrip(body: string, newline: string)
    ensures PemBody(PemText(body, newline), newline) == body
  {
    var text := PemText(body, newline);
    assert text == PEM_BEGIN + newline + body + newline + PEM_END;
    assert text[|PEM_BEGIN| + |newline| .. |text| - |newline| - |PEM_END|] == body;
  }

  /** Two bodies framed the same way give different texts. */
  lemma PemInjective(b1: string, b2: string, newline: string)
    requires PemText(b1, newline) == PemText(b2, newline)
    ensures b1 == b2
  {
    PemRoundTrip(b1, newline);
    PemRoundTrip(b2, newline);
  }

  // ---------------------------------------------------------- the exports

  /** The file exportToPEM writes for one certificate. */
  function ExportOf(subject: string, encoded: string, newline: string): PemFile
  {
    PemFile(FileNameFromSubject(subject) + ".pem", PemText(encoded, newline))
  }

  /** The files the loop would write, one per X.509 entry, in alias order;
      other entries are skipped. toFile is how one certificate (its subject
      and encoded body) becomes a file: ExportOf with the tool's line break. */
  function Exports(entries: seq<KeyEntry>, toFile: (string, string) -> PemFile): (files: seq<PemFile>)
    ensures |files| <= |entries|
  {
    if entries == [] then []
    else
      var rest := Exports(entries[..|entries| - 1], toFile);
      match entries[|entries| - 1].certificate
      case X509Certificate(subject, encoded) => rest + [toFile(subject, encoded)]
      case _ => rest
  }

  /** Nothing is exported exactly when no alias holds an X.509 certificate. */
  lemma {:induction false} NoExportsIffNoCertificate(entries: seq<KeyEntry>, toFile: (string, string) -> PemFile)
    ensures Exports(entries, toFile) == [] <==> forall k :: 0 <= k < |entries| ==> !entries[k].certificate.X509Certificate?
  {
    if entries != [] {
      var init := entries[..|entries| - 1];
      NoExportsIffNoCertificate(init, toFile);
      assert forall k :: 0 <= k < |init| ==> init[k] == entries[k];
    }
  }

  /** Exports distributes over concatenation: each entry contributes on its own. */
  lemma {:induction false} ExportsAppend(a: seq<KeyEntry>, b: seq<KeyEntry>, toFile: (string, string) -> PemFile)
    ensures Exports(a + b, toFile) == Exports(a, toFile) + Exports(b, toFile)
    decreases |b|
  {
    if b == [] {
      assert a + b == a;
    } else {
      var b' := b[..|b| - 1];
      assert (a + b)[..|a + b| - 1] == a + b';
      assert (a + b)[|a + b| - 1] == b[|b| - 1];
      ExportsAppend(a, b', toFile);
    }
  }

  /** Every X.509 certificate is exported exactly once: the exports of a
      single entry are one file for a certificate and none otherwise. */
  lemma ExportsOfOne(e: KeyEntry, toFile: (string, string) -> PemFile)
    ensures e.certificate.X509Certificate? ==>
      Exports([e], toFile) == [toFile(e.certificate.subject, e.certificate.encoded)]
    ensures !e.certificate.X509Certificate? ==> Exports([e], toFile) == []
  {
    assert [e][..0] == [];
  }

  /** The index of the first file whose write fails (|files| when all succeed). */
  function FirstFailedWrite(files: seq<PemFile>, write: string -> Option<string>): (n: nat)
    ensures n <= |files|
    ensures forall j :: 0 <= j < n ==> write(files[j].name).None?
    ensures n < |files| ==> write(files[n].name).Some?
  {
    if files == [] then 0
    else if write(files[0].name).Some? then 0
    else 1 + FirstFailedWrite(files[1..], write)
  }

  /** The characterisation pins the index down. */
  lemma FirstFailedWriteIs(files: seq<PemFile>, write: string -> Option<string>, n: nat)
    requires n <= |files|
    requires forall j :: 0 <= j < n ==> write(files[j].name).None?
    requires n < |files| ==> write(files[n].name).Some?
    ensures FirstFailedWrite(files, write) == n
  {
  }

  /** Files.writeString on each toFile in turn: the files written and, when
      one write threw, its message. */
  datatype ExportRun = ExportRun(written: seq<PemFile>, failure: Option<string>)

  function ExportOutcome(entries: seq<KeyEntry>, toFile: (string, string) -> PemFile, write: string -> Option<string>): (r: ExportRun)
    ensures r.failure.None? ==> r.written == Exports(entries, toFile)
    ensures r.failure.Some? ==> |r.written| < |Exports(entries, toFile)|
    ensures r.written == Exports(entries, toFile)[..|r.written|]
    ensures forall j :: 0 <= j < |r.written| ==> write(r.written[j].name).None?
  {
    var files := Exports(entries, toFile);
    var n := FirstFailedWrite(files, write);
    ExportRun(files[..n], if n < |files| then write(files[n].name) else None)
  }

  /** One more alias adds its own exports at the end. */
  lemma ExportsStep(entries: seq<KeyEntry>, i: nat, toFile: (string, string) -> PemFile)
    requires i < |entries|
    ensures Exports(entries[..i + 1], toFile) == Exports(entries[..i], toFile) + Exports([entries[i]], toFile)
  {
    assert entries[..i + 1] == entries[..i] + [entries[i]];
    ExportsAppend(entries[..i], [entries[i]], toFile);
  }

  /** A write that fails after the exports of the first i aliases succeeded
      is the first failure of the whole run. */
  lemma FailureIsFirst(entries: seq<KeyEntry>, i: nat, toFile: (string, string) -> PemFile, write: string -> Option<string>, written: seq<PemFile>, file: PemFile)
    requires i < |entries| && written == Exports(entries[..i], toFile)
    requires forall j :: 0 <= j < |written| ==> write(written[j].name).None?
    requires Exports(entries[..i + 1], toFile) == written + [file] && write(file.name).Some?
    ensures ExportOutcome(entries, toFile, write) == ExportRun(written, write(file.name))
  {
    ExportsAppend(entries[..i + 1], entries[i + 1..], toFile);
    assert entries[..i + 1] + entries[i + 1..] == entries;
    var files := Exports(entries, toFile);
    assert files[..|written| + 1] == written + [file];
    assert files[|written|] == file;
    FirstFailedWriteIs(files, write, |written|);
  }

  /** When every write succeeded, the run wrote all exports. */
  lemma AllWritten(entries: seq<KeyEntry>, toFile: (string, string) -> PemFile, write: string -> Option<string>, written: seq<PemFile>)
    requires written == Exports(entries, toFile)
    requires forall j :: 0 <= j < |written| ==> write(written[j].name).None?
    ensures ExportOutcome(entries, toFile, write) == ExportRun(written, None)
  {
    FirstFailedWriteIs(written, write, |written|);
    assert written[..|written|] == written;
  }

  /** The loop of processCertificates / extractCertificates: walk the
      aliases, and for each X.509 certificate set the found flag and write
      its PEM file; a failing write ends the loop with its message. */
  method ExportCertificates(entries: seq<KeyEntry>, toFile: (string, string) -> PemFile, write: string -> Option<string>)
      returns (written: seq<PemFile>, found: bool, failure: Option<string>)
    ensures ExportRun(written, failure) == ExportOutcome(entries, toFile, write)
    ensures failure.None? ==> (found <==> exists k :: 0 <= k < |entries| && entries[k].certificate.X509Certificate?)
  {
    written := [];
    found := false;
    failure := None;
    var i := 0;
    while i < |entries|
      invariant 0 <= i <= |entries|
      invariant written == Exports(entries[..i], toFile)
      invariant found <==> written != []
      invariant forall j :: 0 <= j < |written| ==> write(written[j].name).None?
    {
      ExportsStep(entries, i, toFile);
      ExportsOfOne(entries[i], toFile);
      match entries[i].certificate {
        case X509Certificate(subject, encoded) =>
          found := true;
          var file := toFile(subject, encoded);
          if write(file.name).Some? {
            failure := write(file.name);
            FailureIsFirst(entries, i, toFile, write, written, file);
            return;
          }
          written := written + [file];
        case _ =>
      }
      i := i + 1;
    }
    assert entries[..i] == entries;
    AllWritten(entries, toFile, write, written);
    NoExportsIffNoCertificate(entries, toFile);
  }
}
