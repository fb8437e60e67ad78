/** The SAX error handler of the schema validator: it keeps the errors and
    fatal errors it is told about, in arrival order, and lets a fatal error
    end the validation. */
module XmlErrorHandler {
  import opened JavaStrings

  /** A SAXParseException: its message and the position it reports. */
  datatype ParseError = ParseError(message: string, line: int, column: int)

  /** The line printMessages writes for one collected error. */
  function ErrorLine(e: ParseError): string
  {
    "L\U{00ED}nea " + IntToString(e.line) + ", Columna " + IntToString(e.column) + ": " + e.message
  }

  /** The header printMessages writes above the collected errors. */
  function Header(count: nat): string
  {
    "\nSe encontraron " + IntToString(count) + " errores:"
  }

  /** Everything printMessages writes for this list: nothing for an empty
      list, otherwise the header and one line per error, in order. */
  function Report(errors: seq<ParseError>): (lines: seq<string>)
    ensures errors == [] ==> lines == []
    ensures errors != [] ==> |lines| == |errors| + 1 && lines[0] == Header(|errors|)
    ensures errors != [] ==> forall k :: 0 <= k < |errors| ==> lines[k + 1] == ErrorLine(errors[k])
  {
    if errors == [] then [] else [Header(|errors|)] + ErrorLines(errors)
  }

  function ErrorLines(errors: seq<ParseError>): (lines: seq<string>)
    ensures |lines| == |errors|
    ensures forall k :: 0 <= k < |errors| ==> lines[k] == ErrorLine(errors[k])
  {
    if errors == [] then [] else [ErrorLine(errors[0])] + ErrorLines(errors[1..])
  }

  class ErrorHandler {
    /** The errors and fatal errors reported so far, oldest first. */
    var errors: seq<ParseError>

    constructor()
      ensures errors == []
    {
      errors := [];
    }

    /** warning: printed and otherwise ignored. */
    method Warning(e: ParseError)
      ensures errors == old(errors)
    {
    }

    /** error: kept, and validation goes on. */
    method Error(e: ParseError)
      modifies this
      ensures errors == old(errors) + [e]
    {
      errors := errors + [e];
    }

    /** fatalError: kept, then thrown again, which ends the validation;
        the exception thrown is the one reported. */
    method FatalError(e: ParseError) returns (thrown: ParseError)
      modifies this
      ensures errors == old(errors) + [e]
      ensures thrown == e
    {
      errors := errors + [e];
      thrown := e;
    }

    /** hasErrors: something was kept. */
    function HasErrors(): (b: bool)
      reads this
      ensures b <==> |errors| > 0
    {
      errors != []
    }

    /** printMessages: the report, line by line; the list is left as it is. */
    method PrintMessages() returns (lines: seq<string>)
      ensures lines == Report(errors)
    {
      lines := [];
      if errors != [] {
        var header := Header(|errors|);
        var body := [];
        var i := 0;
        while i < |errors|
          invariant 0 <= i <= |errors|
          invariant body == ErrorLines(errors[..i])
        {
          ErrorLinesAppend(errors, i);
          body := body + [ErrorLine(errors[i])];
          i := i + 1;
        }
        assert errors[..i] == errors;
        lines := [header] + body;
      }
    }
  }

  lemma {:induction false} ErrorLinesAppend(errors: seq<ParseError>, i: nat)
    requires i < |errors|
    ensures ErrorLines(errors[..i + 1]) == ErrorLines(errors[..i]) + [ErrorLine(errors[i])]
  {
    var longer, shorter := errors[..i + 1], errors[..i];
    var a := ErrorLines(longer);
    var b := ErrorLines(shorter) + [ErrorLine(errors[i])];
    assert |a| == |b| == i + 1;
    forall k | 0 <= k < i + 1 ensures a[k] == b[k] {
      if k < i {
        assert longer[k] == shorter[k];
        assert b[k] == ErrorLines(shorter)[k];
      } else {
        assert longer[k] == errors[i];
      }
    }
  }

  // -------------------------------------------------- a whole validation

  /** What the schema validator reports, in order, to its error handler. */
  datatype ValidatorEvent = WarningEvent(e: ParseError) | ErrorEvent(e: ParseError) | FatalEvent(e: ParseError)

  /** The errors a handler has kept after these events, none of them fatal. */
  function Kept(events: seq<ValidatorEvent>): (kept: seq<ParseError>)
    ensures |kept| <= |events|
    ensures kept == [] <==> forall k :: 0 <= k < |events| ==> events[k].WarningEvent?
  {
    if events == [] then []
    else
      var rest := Kept(events[..|events| - 1]);
      var last := events[|events| - 1];
      assert forall k :: 0 <= k < |events| - 1 ==> events[..|events| - 1][k] == events[k];
      if last.WarningEvent? then rest else rest + [last.e]
  }

  /** The events up to and including the first fatal one are handled; the
      validator stops there. */
  function FirstFatal(events: seq<ValidatorEvent>): (n: nat)
    ensures n <= |events|
    ensures forall k :: 0 <= k < n ==> !events[k].FatalEvent?
    ensures n < |events| ==> events[n].FatalEvent?
  {
    if events == [] then 0
    else if events[0].FatalEvent? then 0
    else 1 + FirstFatal(events[1..])
  }

  /** Feeds the events to a fresh handler, the way the validator does, and
      answers whether it was interrupted and whether the handler kept
      anything. */
  method Handle(events: seq<ValidatorEvent>) returns (interrupted: bool, hasErrors: bool)
    ensures interrupted <==> FirstFatal(events) < |events|
    ensures hasErrors <==> Kept(events[..FirstFatal(events)]) != [] || interrupted
    ensures !interrupted && !hasErrors <==> forall k :: 0 <= k < |events| ==> events[k].WarningEvent?
  {
    var handler := new ErrorHandler();
    var i := 0;
    while i < |events|
      invariant 0 <= i <= |events|
      invariant i <= FirstFatal(events)
      invariant handler.errors == Kept(events[..i])
    {
      assert events[..i + 1][..i] == events[..i];
      match events[i] {
        case WarningEvent(e) =>
          handler.Warning(e);
        case ErrorEvent(e) =>
          handler.Error(e);
        case FatalEvent(e) =>
          var thrown := handler.FatalError(e);
          return true, true;
      }
      i := i + 1;
    }
    return false, handler.HasErrors();
  }
}
