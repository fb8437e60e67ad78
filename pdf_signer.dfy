/** The two PDF signers, one signing with a PKCS#11 token and one with a
    PKCS#12 file: their flag parser, the output path, the signature field
    name, the visible signature text and when the document is certified
    or locked. The two share everything but their flags, their minimum
    argument count, the slot and where the certification level is set. */
module PdfSigner {
  import opened Wrappers
  import opened JavaStrings
  import opened DistinguishedNames

  datatype Tool = Pkcs11 | Pkcs12

  // ------------------------------------------------------------ arguments

  /** What a command-line token means to a signer's switch. KeyFile is the
      PKCS#11 library (-l) or the PKCS#12 certificate file (-c). */
  datatype Flag = Input | KeyFile | Password | Slot | Lock | XPos | YPos | Text | Help | NotAFlag

  /** The flag a short label "-c" names, by its letter. */
  function ShortFlag(tool: Tool, c: char): Flag
  {
    match c
    case 'i' => Input
    case 'p' => Password
    case 'x' => XPos
    case 'y' => YPos
    case 't' => Text
    case 'h' => Help
    case 'l' => (match tool case Pkcs11 => KeyFile case Pkcs12 => Lock)
    case 'c' => (match tool case Pkcs11 => NotAFlag case Pkcs12 => KeyFile)
    case 's' => (match tool case Pkcs11 => Slot case Pkcs12 => NotAFlag)
    case 'k' => (match tool case Pkcs11 => Lock case Pkcs12 => NotAFlag)
    case _ => NotAFlag
  }

  /** The flag a long label such as "--input" names. */
  function LongFlag(tool: Tool, token: string): Flag
  {
    if token == "--input" then Input
    else if token == "--password" then Password
    else if token == "--xpos" then XPos
    else if token == "--ypos" then YPos
    else if token == "--text" then Text
    else if token == "--help" then Help
    else match tool
      case Pkcs11 =>
        if token == "--library" then KeyFile
        else if token == "--slot" then Slot
        else if token == "--lock" then Lock
        else NotAFlag
      case Pkcs12 =>
        if token == "--certificate" then KeyFile
        else if token == "--lock" then Lock
        else NotAFlag
  }

  /** The switch labels, matched exactly (case matters): a dash and a
      letter, or two dashes and a word. */
  function FlagOf(tool: Tool, token: string): Flag
  {
    if |token| == 2 && token[0] == '-' then ShortFlag(tool, token[1])
    else if |token| > 2 && token[0] == '-' && token[1] == '-' then LongFlag(tool, token)
    else NotAFlag
  }

  /** The switch as written: each case label compared with the token. */
  function SwitchFlag(tool: Tool, token: string): Flag
  {
    if token == "-i" || token == "--input" then Input
    else if token == "-p" || token == "--password" then Password
    else if token == "-x" || token == "--xpos" then XPos
    else if token == "-y" || token == "--ypos" then YPos
    else if token == "-t" || token == "--text" then Text
    else if token == "-h" || token == "--help" then Help
    else match tool
      case Pkcs11 =>
        if token == "-l" || token == "--library" then KeyFile
        else if token == "-s" || token == "--slot" then Slot
        else if token == "-k" || token == "--lock" then Lock
        else NotAFlag
      case Pkcs12 =>
        if token == "-c" || token == "--certificate" then KeyFile
        else if token == "-l" || token == "--lock" then Lock
        else NotAFlag
  }

  /** Reading the label by its shape is the switch. */
  lemma FlagOfIsSwitch(tool: Tool, token: string)
    ensures FlagOf(tool, token) == SwitchFlag(tool, token)
  {
    if |token| == 2 && token[0] == '-' {
      ShortLabelIsSwitch(tool, token);
    } else if |token| > 2 && token[0] == '-' && token[1] == '-' {
      LongLabelIsSwitch(tool, token);
    } else {
      OtherTokenIsNoFlag(tool, token);
    }
  }

  lemma ShortLabelIsSwitch(tool: Tool, token: string)
    requires |token| == 2 && token[0] == '-'
    ensures FlagOf(tool, token) == SwitchFlag(tool, token)
  {
    assert token == ['-', token[1]];
  }

  lemma LongLabelIsSwitch(tool: Tool, token: string)
    requires |token| > 2 && token[0] == '-' && token[1] == '-'
    ensures FlagOf(tool, token) == SwitchFlag(tool, token)
  {
  }

  lemma OtherTokenIsNoFlag(tool: Tool, token: string)
    requires !(|token| == 2 && token[0] == '-') && !(|token| > 2 && token[0] == '-' && token[1] == '-')
    ensures FlagOf(tool, token) == SwitchFlag(tool, token) == NotAFlag
  {
  }

  function MinArguments(tool: Tool): nat
  {
    match tool
    case Pkcs11 => 8
    case Pkcs12 => 6
  }

  /** The parser's local variables. Positions are reals read by an
      abstract float parser; the slot starts at -1. */
  datatype ParseState = ParseState(
    pdfPath: Option<string>,
    keyPath: Option<string>,
    password: Option<string>,
    slot: int,
    lock: bool,
    x: real,
    y: real,
    customText: Option<string>)

  const INITIAL: ParseState := ParseState(None, None, None, -1, false, 0.0, 0.0, None)

  /** The parameters handed to the signer. */
  datatype Params = Params(
    pdfPath: string,
    keyPath: string,
    password: string,
    slot: int,
    lock: bool,
    x: real,
    y: real,
    customText: Option<string>)

  /** One flag with its value: None when a number does not parse. */
  function Apply(flag: Flag, value: string, st: ParseState, parseFloat: string -> Option<real>): Option<ParseState>
  {
    match flag
    case Input => Some(st.(pdfPath := Some(value)))
    case KeyFile => Some(st.(keyPath := Some(value)))
    case Password => Some(st.(password := Some(value)))
    case Slot => (match ParseInt(value) case None => None case Some(n) => Some(st.(slot := n)))
    case Lock => Some(st.(lock := ParseBoolean(value)))
    case XPos => (match parseFloat(value) case None => None case Some(v) => Some(st.(x := v)))
    case YPos => (match parseFloat(value) case None => None case Some(v) => Some(st.(y := v)))
    case Text => Some(st.(customText := Some(value)))
    case _ => Some(st)
  }

  /** The scan from token i on: a help flag stops with None; a flag with a
      following token consumes it; a flag at the very end and any other
      token are skipped. */
  function ScanFrom(tool: Tool, args: seq<string>, i: nat, st: ParseState, parseFloat: string -> Option<real>)
    : Option<ParseState>
    decreases |args| - i
  {
    if i >= |args| then Some(st)
    else
      var flag := FlagOf(tool, args[i]);
      if flag == Help then None
      else if flag == NotAFlag || i + 1 >= |args| then ScanFrom(tool, args, i + 1, st, parseFloat)
      else match Apply(flag, args[i + 1], st, parseFloat)
        case None => None
        case Some(next) => ScanFrom(tool, args, i + 2, next, parseFloat)
  }

  /** The mandatory parameters: input, key file and password, and for the
      token signer a slot that is not negative. */
  function Complete(tool: Tool, st: ParseState): Option<Params>
  {
    if st.pdfPath.None? || st.keyPath.None? || st.password.None? || (tool == Pkcs11 && st.slot < 0) then None
    else Some(Params(st.pdfPath.value, st.keyPath.value, st.password.value, st.slot, st.lock, st.x, st.y, st.customText))
  }

  /** parseArguments: None (null) for too few arguments, a help flag, a bad
      number or a missing mandatory parameter. */
  function ParsedArguments(tool: Tool, args: seq<string>, parseFloat: string -> Option<real>): (r: Option<Params>)
    ensures |args| < MinArguments(tool) ==> r.None?
    ensures r.Some? && tool == Pkcs11 ==> r.value.slot >= 0
  {
    if |args| < MinArguments(tool) then None
    else match ScanFrom(tool, args, 0, INITIAL, parseFloat)
      case None => None
      case Some(st) => Complete(tool, st)
  }

  /** parseArguments as written: one index that the cases advance past the
      value they consume, eight locals and early returns. */
  method ParseArguments(tool: Tool, args: seq<string>, parseFloat: string -> Option<real>) returns (params: Option<Params>)
    ensures params == ParsedArguments(tool, args, parseFloat)
  {
    if |args| < MinArguments(tool) {
      return None;
    }
    var pdfPath: Option<string> := None;
    var keyPath: Option<string> := None;
    var password: Option<string> := None;
    var slot := -1;
    var lock := false;
    var x: real := 0.0;
    var y: real := 0.0;
    var customText: Option<string> := None;
    var i := 0;
    while i < |args|
      invariant 0 <= i <= |args|
      invariant ScanFrom(tool, args, 0, INITIAL, parseFloat) ==
                ScanFrom(tool, args, i, ParseState(pdfPath, keyPath, password, slot, lock, x, y, customText), parseFloat)
    {
      var flag := FlagOf(tool, args[i]);
      if flag == Help {
        return None;
      }
      if flag != NotAFlag && i + 1 < |args| {
        i := i + 1;
        var value := args[i];
        match flag {
          case Input => pdfPath := Some(value);
          case KeyFile => keyPath := Some(value);
          case Password => password := Some(value);
          case Slot =>
            var n := ParseInt(value);
            if n.None? {
              return None;
            }
            slot := n.value;
          case Lock => lock := ParseBoolean(value);
          case XPos =>
            var v := parseFloat(value);
            if v.None? {
              return None;
            }
            x := v.value;
          case YPos =>
            var v := parseFloat(value);
            if v.None? {
              return None;
            }
            y := v.value;
          case Text => customText := Some(value);
        }
      }
      i := i + 1;
    }
    if pdfPath.None? || keyPath.None? || password.None? || (tool == Pkcs11 && slot < 0) {
      return None;
    }
    return Some(Params(pdfPath.value, keyPath.value, password.value, slot, lock, x, y, customText));
  }

  /** A help flag in first position always gives None. */
  lemma HelpFirstGivesNone(tool: Tool, args: seq<string>, parseFloat: string -> Option<real>)
    requires args != [] && args[0] in {"-h", "--help"}
    ensures ParsedArguments(tool, args, parseFloat).None?
  {
  }

  /** A flag given twice keeps its last value. */
  lemma RepeatedInputLastWins(tool: Tool, args: seq<string>, i: nat, st: ParseState, a: string, b: string,
                              parseFloat: string -> Option<real>)
    requires i + 4 <= |args| && args[i] == "-i" && args[i + 1] == a && args[i + 2] == "-i" && args[i + 3] == b
    ensures ScanFrom(tool, args, i, st, parseFloat) == ScanFrom(tool, args, i + 4, st.(pdfPath := Some(b)), parseFloat)
  {
    assert ScanFrom(tool, args, i, st, parseFloat) == ScanFrom(tool, args, i + 2, st.(pdfPath := Some(a)), parseFloat);
  }

  /** The lock flag's value is true exactly when it reads "true" in any case. */
  lemma LockReadsBoolean(tool: Tool, args: seq<string>, i: nat, st: ParseState, parseFloat: string -> Option<real>)
    requires i + 1 < |args| && FlagOf(tool, args[i]) == Lock
    ensures ScanFrom(tool, args, i, st, parseFloat) ==
            ScanFrom(tool, args, i + 2, st.(lock := EqualsIgnoreCase(args[i + 1], "true")), parseFloat)
  {
  }

  /** The two signers read "-l" differently: the token signer takes the
      next token as its library, the file signer as its lock. "-k" locks
      only for the token signer. */
  lemma FlagsDiffer()
    ensures FlagOf(Pkcs11, "-l") == KeyFile && FlagOf(Pkcs12, "-l") == Lock
    ensures FlagOf(Pkcs11, "-k") == Lock && FlagOf(Pkcs12, "-k") == NotAFlag
  {
  }

  // ------------------------------------------- what the graphical tool sends

  /** The tail the graphical tool adds for a non-blank custom text. */
  function TextArguments(customText: Option<string>): seq<string>
  {
    if customText.Some? && !IsBlank(customText.value) then ["-t", customText.value] else []
  }

  /** The first ten arguments the graphical tool passes to the PKCS#12
      signer: input, certificate, password and position. */
  function GuiHead(pdf: string, cert: string, password: string, xPos: string, yPos: string): seq<string>
  {
    ["-i", pdf, "-c", cert, "-p", password, "-x", xPos, "-y", yPos]
  }

  function BooleanText(b: bool): string
  {
    if b then "true" else "false"
  }

  /** The arguments the graphical tool passes to the PKCS#12 signer, as
      written: the lock travels under "-k". */
  function GuiPkcs12Arguments(pdf: string, cert: string, password: string, xPos: string, yPos: string,
                              lock: bool, customText: Option<string>): seq<string>
  {
    GuiHead(pdf, cert, password, xPos, yPos) + ["-k", BooleanText(lock)] + TextArguments(customText)
  }

  /** The same arguments with the lock under the flag the signer knows. */
  function GuiPkcs12ArgumentsFixed(pdf: string, cert: string, password: string, xPos: string, yPos: string,
                                   lock: bool, customText: Option<string>): seq<string>
  {
    GuiHead(pdf, cert, password, xPos, yPos) + ["-l", BooleanText(lock)] + TextArguments(customText)
  }

  /** A token that is not a flag is skipped. */
  lemma ScanSkip(tool: Tool, args: seq<string>, i: nat, st: ParseState, parseFloat: string -> Option<real>)
    requires i < |args| && FlagOf(tool, args[i]) == NotAFlag
    ensures ScanFrom(tool, args, i, st, parseFloat) == ScanFrom(tool, args, i + 1, st, parseFloat)
  {
  }

  /** The arguments the graphical tool builds, token by token. */
  lemma GuiArgumentsLayout(pdf: string, cert: string, password: string, xPos: string, yPos: string,
                           flag: string, value: string, customText: Option<string>)
    ensures var args := GuiHead(pdf, cert, password, xPos, yPos) + [flag, value] + TextArguments(customText);
            |args| >= 12 && args[0] == "-i" && args[1] == pdf && args[2] == "-c" && args[3] == cert &&
            args[4] == "-p" && args[5] == password && args[6] == "-x" && args[7] == xPos &&
            args[8] == "-y" && args[9] == yPos && args[10] == flag && args[11] == value &&
            args[12..] == TextArguments(customText)
  {
  }

  /** The flags the graphical tool sends first, each with its value, as
      the PKCS#12 signer reads them. */
  lemma ScanInput(args: seq<string>, i: nat, st: ParseState, parseFloat: string -> Option<real>)
    requires i + 1 < |args| && args[i] == "-i"
    ensures ScanFrom(Pkcs12, args, i, st, parseFloat) == ScanFrom(Pkcs12, args, i + 2, st.(pdfPath := Some(args[i + 1])), parseFloat)
  {
  }

  lemma ScanCertificate(args: seq<string>, i: nat, st: ParseState, parseFloat: string -> Option<real>)
    requires i + 1 < |args| && args[i] == "-c"
    ensures ScanFrom(Pkcs12, args, i, st, parseFloat) == ScanFrom(Pkcs12, args, i + 2, st.(keyPath := Some(args[i + 1])), parseFloat)
  {
  }

  lemma ScanPassword(args: seq<string>, i: nat, st: ParseState, parseFloat: string -> Option<real>)
    requires i + 1 < |args| && args[i] == "-p"
    ensures ScanFrom(Pkcs12, args, i, st, parseFloat) == ScanFrom(Pkcs12, args, i + 2, st.(password := Some(args[i + 1])), parseFloat)
  {
  }

  lemma ScanXPos(args: seq<string>, i: nat, st: ParseState, parseFloat: string -> Option<real>)
    requires i + 1 < |args| && args[i] == "-x" && parseFloat(args[i + 1]).Some?
    ensures ScanFrom(Pkcs12, args, i, st, parseFloat) == ScanFrom(Pkcs12, args, i + 2, st.(x := parseFloat(args[i + 1]).value), parseFloat)
  {
  }

  lemma ScanYPos(args: seq<string>, i: nat, st: ParseState, parseFloat: string -> Option<real>)
    requires i + 1 < |args| && args[i] == "-y" && parseFloat(args[i + 1]).Some?
    ensures ScanFrom(Pkcs12, args, i, st, parseFloat) == ScanFrom(Pkcs12, args, i + 2, st.(y := parseFloat(args[i + 1]).value), parseFloat)
  {
  }

  lemma ScanLock(args: seq<string>, i: nat, st: ParseState, parseFloat: string -> Option<real>)
    requires i + 1 < |args| && args[i] == "-l"
    ensures ScanFrom(Pkcs12, args, i, st, parseFloat) == ScanFrom(Pkcs12, args, i + 2, st.(lock := ParseBoolean(args[i + 1])), parseFloat)
  {
  }

  /** The state after the first ten arguments. */
  lemma ScanGuiHead(args: seq<string>, pdf: string, cert: string, password: string, xPos: string, yPos: string,
                    parseFloat: string -> Option<real>)
    requires parseFloat(xPos).Some? && parseFloat(yPos).Some?
    requires |args| >= 10
    requires args[0] == "-i" && args[1] == pdf && args[2] == "-c" && args[3] == cert && args[4] == "-p"
    requires args[5] == password && args[6] == "-x" && args[7] == xPos && args[8] == "-y" && args[9] == yPos
    ensures ScanFrom(Pkcs12, args, 0, INITIAL, parseFloat) ==
            ScanFrom(Pkcs12, args, 10, ParseState(Some(pdf), Some(cert), Some(password), -1, false,
                                                  parseFloat(xPos).value, parseFloat(yPos).value, None), parseFloat)
  {
    var s1 := INITIAL.(pdfPath := Some(pdf));
    var s2 := s1.(keyPath := Some(cert));
    var s3 := s2.(password := Some(password));
    var s4 := s3.(x := parseFloat(xPos).value);
    ScanInput(args, 0, INITIAL, parseFloat);
    ScanCertificate(args, 2, s1, parseFloat);
    ScanPassword(args, 4, s2, parseFloat);
    ScanXPos(args, 6, s3, parseFloat);
    ScanYPos(args, 8, s4, parseFloat);
  }

  /** The scan of the last part, from token 12 on: at most a custom text. */
  lemma ScanTextTail(args: seq<string>, customText: Option<string>, st: ParseState, parseFloat: string -> Option<real>)
    requires |args| >= 12 && args[12..] == TextArguments(customText)
    ensures ScanFrom(Pkcs12, args, 12, st, parseFloat) ==
            Some(if TextArguments(customText) == [] then st else st.(customText := customText))
  {
    if TextArguments(customText) != [] {
      assert args[12] == "-t" && args[13] == customText.value && |args| == 14;
      assert ScanFrom(Pkcs12, args, 14, st.(customText := customText), parseFloat) == Some(st.(customText := customText));
    }
  }

  /** The lock chosen in the graphical tool never reaches the PKCS#12
      signer: "-k" and the value after it are both skipped, so the
      document is signed unlocked even when locking was asked for. */
  lemma GuiLockIsLost(pdf: string, cert: string, password: string, xPos: string, yPos: string,
                      customText: Option<string>, parseFloat: string -> Option<real>)
    requires parseFloat(xPos).Some? && parseFloat(yPos).Some?
    ensures var p := ParsedArguments(Pkcs12, GuiPkcs12Arguments(pdf, cert, password, xPos, yPos, true, customText), parseFloat);
            p.Some? && !p.value.lock
  {
    var args := GuiPkcs12Arguments(pdf, cert, password, xPos, yPos, true, customText);
    GuiArgumentsLayout(pdf, cert, password, xPos, yPos, "-k", "true", customText);
    ScanGuiHead(args, pdf, cert, password, xPos, yPos, parseFloat);
    var s := ParseState(Some(pdf), Some(cert), Some(password), -1, false, parseFloat(xPos).value, parseFloat(yPos).value, None);
    FlagsDiffer();
    ScanSkip(Pkcs12, args, 10, s, parseFloat);
    ScanSkip(Pkcs12, args, 11, s, parseFloat);
    ScanTextTail(args, customText, s, parseFloat);
  }

  lemma BooleanTextParses(b: bool)
    ensures ParseBoolean(BooleanText(b)) == b
  {
    assert ToLower("true") == "true";
    if !b {
      assert ToLower("false")[0] == 'f';
    }
  }

  /** With "-l" the lock asked for in the graphical tool is the lock the
      signer uses. */
  lemma GuiLockKeptWhenFixed(pdf: string, cert: string, password: string, xPos: string, yPos: string,
                             lock: bool, customText: Option<string>, parseFloat: string -> Option<real>)
    requires parseFloat(xPos).Some? && parseFloat(yPos).Some?
    ensures var p := ParsedArguments(Pkcs12, GuiPkcs12ArgumentsFixed(pdf, cert, password, xPos, yPos, lock, customText), parseFloat);
            p.Some? && p.value.lock == lock
  {
    var args := GuiPkcs12ArgumentsFixed(pdf, cert, password, xPos, yPos, lock, customText);
    GuiArgumentsLayout(pdf, cert, password, xPos, yPos, "-l", BooleanText(lock), customText);
    ScanGuiHead(args, pdf, cert, password, xPos, yPos, parseFloat);
    var s := ParseState(Some(pdf), Some(cert), Some(password), -1, false, parseFloat(xPos).value, parseFloat(yPos).value, None);
    BooleanTextParses(lock);
    ScanLock(args, 10, s, parseFloat);
    ScanTextTail(args, customText, s.(lock := lock), parseFloat);
  }

  // ---------------------------------------------------------- output path

  const OUTPUT_SUFFIX: string := "-signed"

  /** The directory part of a '/'-separated path, through its last '/'. */
  function Directory(path: string): (d: string)
    ensures StartsWith(path, d)
  {
    path[..|path| - |AfterLast(path, '/')|]
  }

  /** The last component of a '/'-separated path. */
  function FileName(path: string): string
  {
    AfterLast(path, '/')
  }

  /** The part of a file name from its last '.', or "" without one. */
  function Extension(name: string): (e: string)
    ensures EndsWith(name, e)
    ensures e == [] <==> '.' !in name
    ensures e != [] ==> e[0] == '.' && '.' !in e[1..]
  {
    var d := LastIndexOfChar(name, '.');
    if d < 0 then [] else name[d..]
  }

  /** The part of a file name before its extension. */
  function BaseName(name: string): string
  {
    name[..|name| - |Extension(name)|]
  }

  /** "-signed" inserted before the extension. */
  function SignedFileName(name: string): string
  {
    BaseName(name) + OUTPUT_SUFFIX + Extension(name)
  }

  /** createOutputPath: the sibling of the input whose name has "-signed"
      before the last '.', or at the end when there is none. */
  function CreateOutputPath(path: string): string
  {
    Directory(path) + SignedFileName(FileName(path))
  }

  /** A file name is its base name followed by its extension. */
  lemma NameSplits(name: string)
    ensures name == BaseName(name) + Extension(name)
  {
    var ext := Extension(name);
    assert name[|name| - |ext|..] == ext;
  }

  /** A path is its directory followed by its file name. */
  lemma PathSplits(path: string)
    ensures path == Directory(path) + FileName(path)
  {
    var name := FileName(path);
    assert path[|path| - |name|..] == name;
  }

  /** The output stays in the input's directory with the input's base name
      and extension, "-signed" sitting between the two; so it is seven
      characters longer than the input and never the input itself. */
  lemma OutputPathShape(path: string)
    ensures path == Directory(path) + BaseName(FileName(path)) + Extension(FileName(path))
    ensures CreateOutputPath(path) == Directory(path) + BaseName(FileName(path)) + OUTPUT_SUFFIX + Extension(FileName(path))
    ensures |CreateOutputPath(path)| == |path| + |OUTPUT_SUFFIX|
    ensures CreateOutputPath(path) != path
  {
    var dir := Directory(path);
    var base := BaseName(FileName(path));
    var ext := Extension(FileName(path));
    PathSplits(path);
    NameSplits(FileName(path));
    Regroup(dir, base, OUTPUT_SUFFIX, ext);
  }

  lemma Regroup(a: string, b: string, c: string, d: string)
    ensures a + (b + d) == a + b + d
    ensures a + (b + c + d) == a + b + c + d
    ensures |a + b + c + d| == |a + b + d| + |c|
    ensures c != [] ==> a + b + c + d != a + b + d
  {
  }

  /** A name without a '.' simply gets "-signed" appended. */
  lemma NoDotAppends(path: string)
    requires '.' !in FileName(path)
    ensures CreateOutputPath(path) == path + OUTPUT_SUFFIX
  {
    PathSplits(path);
  }

  // -------------------------------------------- names in the signature

  /** getNameFromDN: the first trimmed "CN=" value, or the whole name. */
  function NameFromDN(dn: string): string
  {
    match Attribute(dn, CN_KEY)
    case None => dn
    case Some(v) => v
  }

  /** A name without any "CN=" piece is shown whole; a leading "CN=v" piece gives v. */
  lemma NameFromDNCases(dn: string, v: string, rest: string)
    requires ',' !in v && (v == [] || v[|v| - 1] > ' ')
    requires rest == [] || rest[0] == ','
    ensures NameFromDN(CN_KEY + v + rest) == v
    ensures Attribute(dn, CN_KEY).None? ==> NameFromDN(dn) == dn
  {
    LeadingAttribute(CN_KEY, v, rest);
  }

  /** The signature field name "Signature_<name>_<millis>", with every
      character of the name outside [a-zA-Z0-9] replaced by '_'. */
  function FieldName(dn: string, millis: int): string
  {
    "Signature_" + ReplaceDisallowed(NameFromDN(dn), IsAsciiLetterOrDigit) + "_" + IntToString(millis)
  }

  /** The name inside the field name has only ASCII letters, digits and
      '_', and as many characters as the name read from the DN. */
  lemma FieldNameIsClean(dn: string, millis: int)
    ensures var part := ReplaceDisallowed(NameFromDN(dn), IsAsciiLetterOrDigit);
            FieldName(dn, millis) == "Signature_" + part + "_" + IntToString(millis) &&
            |part| == |NameFromDN(dn)| &&
            forall i :: 0 <= i < |part| ==> IsAsciiLetterOrDigit(part[i]) || part[i] == '_'
  {
    ReplaceDisallowedIsClean(NameFromDN(dn), IsAsciiLetterOrDigit);
  }

  const SIGNED_BY: string := "Firmado digitalmente por:\n"
  const DATE_LABEL: string := "\nFecha: "

  /** The text of the visible signature for the signer's name (the name
      read from the certificate's subject DN by NameFromDN). */
  function SignatureText(customText: Option<string>, signerName: string, timestamp: string): string
  {
    (if customText.Some? && !IsBlank(customText.value) then customText.value + "\n\n" else "") +
    SIGNED_BY + signerName + DATE_LABEL + timestamp
  }

  /** buildSignatureText: a StringBuilder appended to in order. */
  method BuildSignatureText(customText: Option<string>, signerName: string, timestamp: string) returns (text: string)
    ensures text == SignatureText(customText, signerName, timestamp)
  {
    var builder := "";
    if customText.Some? && !IsBlank(customText.value) {
      builder := builder + customText.value;
      builder := builder + "\n\n";
    }
    builder := builder + SIGNED_BY;
    builder := builder + signerName;
    builder := builder + DATE_LABEL;
    builder := builder + timestamp;
    text := builder;
  }

  /** The text opens with the custom text and a blank line exactly when a
      non-blank custom text is given, and always ends with the signer and
      the timestamp. */
  lemma SignatureTextShape(customText: Option<string>, signerName: string, timestamp: string)
    ensures var t := SignatureText(customText, signerName, timestamp);
            var tail := SIGNED_BY + signerName + DATE_LABEL + timestamp;
            EndsWith(t, tail) &&
            (customText.None? || IsBlank(customText.value) ==> t == tail) &&
            (customText.Some? && !IsBlank(customText.value) ==> StartsWith(t, customText.value + "\n\n"))
  {
    var t := SignatureText(customText, signerName, timestamp);
    var tail := SIGNED_BY + signerName + DATE_LABEL + timestamp;
    if customText.Some? && !IsBlank(customText.value) {
      var head := customText.value + "\n\n";
      assert t == head + tail;
      assert t[..|head|] == head;
      assert t[|t| - |tail|..] == tail;
    } else {
      assert t == tail;
      assert t[|t| - |tail|..] == tail;
    }
  }

  // ------------------------------------------------ locking the document

  /** What signing does with the parameters: a visible appearance at
      (x, y) when either is non-zero, the no-changes certification level,
      and a final rewrite with printing-only permissions. */
  datatype SigningPlan = SigningPlan(visible: bool, certifiedNoChanges: bool, restricted: bool)

  function Plan(tool: Tool, params: Params): (p: SigningPlan)
    ensures p.restricted <==> params.lock
    ensures p.visible <==> params.x != 0.0 || params.y != 0.0
    ensures p.certifiedNoChanges ==> params.lock
  {
    var visible := params.x != 0.0 || params.y != 0.0;
    var certified := match tool
      case Pkcs11 => params.lock
      case Pkcs12 => params.lock && visible;
    SigningPlan(visible, certified, params.lock)
  }

  /** The PKCS#12 signer sets the no-changes level only for a visible
      signature; the token signer sets it whenever the lock is on. */
  lemma CertificationNeedsVisibility(params: Params)
    ensures Plan(Pkcs12, params).certifiedNoChanges <==> params.lock && Plan(Pkcs12, params).visible
    ensures Plan(Pkcs11, params).certifiedNoChanges <==> params.lock
  {
  }

  // ------------------------------------------------------------ main

  datatype SpecialAction = ShowVersion | ShowHelp | ShowLicense | Unrecognized

  /** processSpecialArgument: a lone argument, in any case. */
  function SpecialArgument(tool: Tool, arg: string): (a: SpecialAction)
    ensures a == ShowLicense ==> tool == Pkcs11
  {
    var lower := ToLower(arg);
    if lower == "-v" || lower == "--version" then ShowVersion
    else if lower == "-h" || lower == "--help" then ShowHelp
    else if tool == Pkcs11 && lower == "--license" then ShowLicense
    else Unrecognized
  }

  /** main: a lone argument is answered (or reported as unrecognised) and
      the exit status is 0 either way; otherwise parsing, the input checks
      and the signing all have to succeed. */
  method Run(tool: Tool, args: seq<string>, parseFloat: string -> Option<real>, inputsValid: Params -> bool,
             signs: Params -> bool) returns (exitCode: int, action: Option<SpecialAction>)
    ensures exitCode in {0, 1}
    ensures |args| == 1 ==> exitCode == 0 && action == Some(SpecialArgument(tool, args[0]))
    ensures |args| != 1 ==>
              action.None? &&
              (exitCode == 0 <==> ParsedArguments(tool, args, parseFloat).Some? &&
                                  inputsValid(ParsedArguments(tool, args, parseFloat).value) &&
                                  signs(ParsedArguments(tool, args, parseFloat).value))
  {
    if |args| == 1 {
      return 0, Some(SpecialArgument(tool, args[0]));
    }
    action := None;
    var params := ParseArguments(tool, args, parseFloat);
    if params.None? || !inputsValid(params.value) {
      return 1, None;
    }
    exitCode := if signs(params.value) then 0 else 1;
  }
}
