/** The java.lang.String and wrapper-class operations the tools rely on,
    with Java's semantics written out: trim, blank tests, prefix and
    substring search, case mapping, splitting, integer and boolean parsing. */
module JavaStrings {
  import opened Wrappers

  // ---------------------------------------------------------------- trim

  /** String.trim removes every leading and trailing char whose code is at most U+0020. */
  predicate IsBlank(s: string)
  {
    forall i :: 0 <= i < |s| ==> s[i] <= ' '
  }

  /** A String argument that is null or whose trim is empty. */
  predicate NullOrBlank(s: Option<string>)
  {
    s.None? || IsBlank(s.value)
  }

  function TrimStart(s: string): (r: string)
    ensures |r| <= |s| && r == s[|s| - |r|..]
    ensures r == [] || r[0] > ' '
    ensures forall i :: 0 <= i < |s| - |r| ==> s[i] <= ' '
  {
    if s != [] && s[0] <= ' ' then TrimStart(s[1..]) else s
  }

  function TrimEnd(s: string): (r: string)
    ensures |r| <= |s| && r == s[..|r|]
    ensures r == [] || r[|r| - 1] > ' '
    ensures forall i :: |r| <= i < |s| ==> s[i] <= ' '
  {
    if s != [] && s[|s| - 1] <= ' ' then TrimEnd(s[..|s| - 1]) else s
  }

  /** String.trim(): the text between the first and the last char above U+0020. */
  function Trim(s: string): (r: string)
    ensures r == [] <==> IsBlank(s)
    ensures r == [] || (r[0] > ' ' && r[|r| - 1] > ' ')
    ensures |r| <= |s|
  {
    var t := TrimStart(s);
    var r := TrimEnd(t);
    if t != [] then
      assert s[|s| - |t|] == t[0] > ' ';
      assert r != [];
      r
    else
      assert IsBlank(s);
      r
  }

  /** Trimming only removes characters: what is left occurs in the original. */
  lemma TrimKeepsChars(s: string)
    ensures forall c :: c in Trim(s) ==> c in s
  {
    var t := TrimStart(s);
    assert Trim(s) == TrimEnd(t);
    forall c | c in TrimEnd(t) ensures c in s {
      assert c in t;
    }
  }

  lemma TrimIdempotent(s: string)
    ensures Trim(Trim(s)) == Trim(s)
  {
    var t := Trim(s);
    if t != [] {
      assert TrimStart(t) == t;
      assert TrimEnd(t) == t;
    }
  }

  // ------------------------------------------------------ prefix / search

  predicate StartsWith(s: string, prefix: string)
  {
    |prefix| <= |s| && s[..|prefix|] == prefix
  }

  predicate EndsWith(s: string, suffix: string)
  {
    |suffix| <= |s| && s[|s| - |suffix|..] == suffix
  }

  /** String.indexOf(String): the first index at which p occurs in s, or -1. */
  function IndexOf(s: string, p: string): (r: int)
    ensures -1 <= r <= |s|
    ensures r >= 0 ==> StartsWith(s[r..], p)
    ensures r >= 0 ==> forall j :: 0 <= j < r ==> !StartsWith(s[j..], p)
    ensures r == -1 ==> forall j :: 0 <= j <= |s| ==> !StartsWith(s[j..], p)
  {
    if StartsWith(s, p) then 0
    else if s == [] then -1
    else
      var k := IndexOf(s[1..], p);
      assert forall j :: 1 <= j <= |s| ==> s[j..] == s[1..][j - 1..];
      if k < 0 then -1 else k + 1
  }

  /** String.contains(CharSequence). */
  predicate Contains(s: string, p: string)
  {
    IndexOf(s, p) >= 0
  }

  /** String.indexOf(char): the first index holding c, or -1. */
  function IndexOfChar(s: string, c: char): (r: int)
    ensures r == -1 <==> c !in s
    ensures r >= 0 ==> r < |s| && s[r] == c && c !in s[..r]
  {
    if s == [] then -1
    else if s[0] == c then 0
    else
      var k := IndexOfChar(s[1..], c);
      if k < 0 then -1
      else
        assert s[..k + 1] == [s[0]] + s[1..][..k];
        k + 1
  }

  /** String.lastIndexOf(char): the last index holding c, or -1. */
  function LastIndexOfChar(s: string, c: char): (r: int)
    ensures r == -1 <==> c !in s
    ensures r >= 0 ==> r < |s| && s[r] == c && c !in s[r + 1..]
  {
    if s == [] then -1
    else if s[|s| - 1] == c then |s| - 1
    else
      var k := LastIndexOfChar(s[..|s| - 1], c);
      if k >= 0 then
        assert s[k + 1..] == s[..|s| - 1][k + 1..] + [s[|s| - 1]];
        k
      else
        assert s == s[..|s| - 1] + [s[|s| - 1]];
        -1
  }

  /** The text after the last occurrence of c (all of s when c is absent):
      s.substring(s.lastIndexOf(c) + 1). */
  function AfterLast(s: string, c: char): (r: string)
    ensures EndsWith(s, r) && c !in r
    ensures c !in s ==> r == s
    ensures c in s ==> |r| < |s| && s[|s| - |r| - 1] == c
  {
    var i := LastIndexOfChar(s, c);
    var r := s[i + 1..];
    assert |s| - |r| == i + 1;
    assert s[|s| - |r|..] == r;
    r
  }

  // -------------------------------------------------------- case mapping

  /** Character.toLowerCase for ASCII and the Latin-1 letters (À..Þ except ×). */
  function LowerChar(c: char): char
  {
    if 'A' <= c <= 'Z' || ('\U{00C0}' <= c <= '\U{00DE}' && c != '\U{00D7}') then
      (c as int + 32) as char
    else c
  }

  /** Character.toUpperCase for ASCII and the Latin-1 letters (à..þ except ÷). */
  function UpperChar(c: char): char
  {
    if 'a' <= c <= 'z' || ('\U{00E0}' <= c <= '\U{00FE}' && c != '\U{00F7}') then
      (c as int - 32) as char
    else c
  }

  function ToLower(s: string): (r: string)
    ensures |r| == |s|
    ensures forall i :: 0 <= i < |s| ==> r[i] == LowerChar(s[i])
  {
    seq(|s|, i requires 0 <= i < |s| => LowerChar(s[i]))
  }

  function ToUpper(s: string): (r: string)
    ensures |r| == |s|
    ensures forall i :: 0 <= i < |s| ==> r[i] == UpperChar(s[i])
  {
    seq(|s|, i requires 0 <= i < |s| => UpperChar(s[i]))
  }

  /** String.equalsIgnoreCase for a non-null argument. */
  predicate EqualsIgnoreCase(a: string, b: string)
  {
    ToLower(a) == ToLower(b)
  }

  lemma LowerIsIdempotent(s: string)
    ensures ToLower(ToLower(s)) == ToLower(s)
  {
  }

  // ------------------------------------------------------------ splitting

  /** Every piece of s between occurrences of sep (String.split with limit -1). */
  function SplitAll(s: string, sep: char): (parts: seq<string>)
    ensures |parts| >= 1
    decreases |s|
  {
    var i := IndexOfChar(s, sep);
    if i < 0 then [s] else [s[..i]] + SplitAll(s[i + 1..], sep)
  }

  /** No piece holds the separator. */
  lemma {:induction false} SplitAllHasNoSep(s: string, sep: char)
    ensures forall k :: 0 <= k < |SplitAll(s, sep)| ==> sep !in SplitAll(s, sep)[k]
    decreases |s|
  {
    var i := IndexOfChar(s, sep);
    if i >= 0 {
      SplitAllHasNoSep(s[i + 1..], sep);
      var rest := SplitAll(s[i + 1..], sep);
      assert SplitAll(s, sep) == [s[..i]] + rest;
      assert forall k :: 1 <= k < |rest| + 1 ==> SplitAll(s, sep)[k] == rest[k - 1];
    }
  }

  /** The inverse of splitting: the pieces glued back with the separator. */
  function Join(parts: seq<string>, sep: char): string
  {
    if parts == [] then []
    else if |parts| == 1 then parts[0]
    else parts[0] + [sep] + Join(parts[1..], sep)
  }

  lemma {:induction false} JoinSplitAll(s: string, sep: char)
    ensures Join(SplitAll(s, sep), sep) == s
    decreases |s|
  {
    var i := IndexOfChar(s, sep);
    if i >= 0 {
      var head, tail := s[..i], s[i + 1..];
      var rest := SplitAll(tail, sep);
      SplitAllAtFirst(s, sep);
      JoinCons(head, rest, sep);
      JoinSplitAll(tail, sep);
      AroundSeparator(s, i);
    }
  }

  lemma SplitAllAtFirst(s: string, sep: char)
    requires IndexOfChar(s, sep) >= 0
    ensures var i := IndexOfChar(s, sep);
            SplitAll(s, sep) == [s[..i]] + SplitAll(s[i + 1..], sep)
  {
  }

  lemma AroundSeparator(s: string, i: nat)
    requires i < |s|
    ensures s[..i] + [s[i]] + s[i + 1..] == s
  {
  }

  lemma JoinCons(p: string, rest: seq<string>, sep: char)
    requires rest != []
    ensures Join([p] + rest, sep) == p + [sep] + Join(rest, sep)
  {
    assert ([p] + rest)[1..] == rest;
  }

  function DropTrailingEmpty(parts: seq<string>): (r: seq<string>)
    ensures |r| <= |parts| && r == parts[..|r|]
    ensures r == [] || r[|r| - 1] != []
    ensures forall k :: |r| <= k < |parts| ==> parts[k] == []
  {
    if parts != [] && parts[|parts| - 1] == [] then DropTrailingEmpty(parts[..|parts| - 1])
    else parts
  }

  /** String.split(String.valueOf(sep)) for a separator that is not a regex
      metacharacter: no occurrence gives the string itself, otherwise the
      pieces with trailing empty pieces removed. */
  function JavaSplit(s: string, sep: char): seq<string>
  {
    if sep !in s then [s] else DropTrailingEmpty(SplitAll(s, sep))
  }

  /** The characters the regex class \s matches. */
  predicate IsRegexSpace(c: char)
  {
    c == ' ' || c == '\t' || c == '\n' || c == '\U{000B}' || c == '\U{000C}' || c == '\r'
  }

  function RunLength(s: string): (n: nat)
    ensures n <= |s|
    ensures forall i :: 0 <= i < n ==> !IsRegexSpace(s[i])
    ensures n == |s| || IsRegexSpace(s[n])
  {
    if s == [] || IsRegexSpace(s[0]) then 0 else 1 + RunLength(s[1..])
  }

  /** The maximal runs of non-\s characters of s, in order. For a string that
      does not start with \s (a trimmed one) this is s.split("\\s+"). */
  function Words(s: string): (w: seq<string>)
    ensures forall k :: 0 <= k < |w| ==> w[k] != []
    ensures forall k, i :: 0 <= k < |w| && 0 <= i < |w[k]| ==> !IsRegexSpace(w[k][i])
    decreases |s|
  {
    if s == [] then []
    else if IsRegexSpace(s[0]) then Words(s[1..])
    else
      var n := RunLength(s);
      [s[..n]] + Words(s[n..])
  }

  lemma {:induction false} WordsOfSpaceFree(s: string)
    requires s != []
    requires forall i :: 0 <= i < |s| ==> !IsRegexSpace(s[i])
    ensures Words(s) == [s]
  {
    RunLengthOfSpaceFree(s);
    assert s[..|s|] == s;
    assert s[|s|..] == [];
  }

  lemma {:induction false} RunLengthOfSpaceFree(s: string)
    requires forall i :: 0 <= i < |s| ==> !IsRegexSpace(s[i])
    ensures RunLength(s) == |s|
  {
    if s != [] {
      RunLengthOfSpaceFree(s[1..]);
    }
  }

  // ------------------------------------------------------ number parsing

  const INT_MIN: int := -0x8000_0000
  const INT_MAX: int := 0x7FFF_FFFF

  predicate IsDigit(c: char) { '0' <= c <= '9' }

  predicate AllDigits(s: string)
  {
    forall i :: 0 <= i < |s| ==> IsDigit(s[i])
  }

  function DigitsValue(s: string): (v: nat)
    requires AllDigits(s)
  {
    if s == [] then 0 else DigitsValue(s[..|s| - 1]) * 10 + (s[|s| - 1] as int - '0' as int)
  }

  /** Integer.parseInt on ASCII digits: an optional sign, at least one
      digit, and a value in the 32-bit range; anything else is a
      NumberFormatException (None). */
  function ParseInt(s: string): (r: Option<int>)
    ensures r.Some? ==> INT_MIN <= r.value <= INT_MAX
    ensures r.Some? ==> s != [] && (IsDigit(s[0]) || s[0] == '-' || s[0] == '+')
    ensures r.Some? && r.value < 0 ==> s[0] == '-'
  {
    if s == [] then None
    else if s[0] == '-' || s[0] == '+' then
      var digits := s[1..];
      if digits == [] || !AllDigits(digits) then None
      else
        var magnitude: int := DigitsValue(digits);
        var v := if s[0] == '-' then -magnitude else magnitude;
        if INT_MIN <= v <= INT_MAX then Some(v) else None
    else if AllDigits(s) then
      var v := DigitsValue(s);
      if v <= INT_MAX then Some(v) else None
    else None
  }

  function DigitChar(d: nat): char
    requires d < 10
  {
    ('0' as int + d) as char
  }

  /** Integer.toString for a non-negative value. */
  function NatToString(n: nat): (s: string)
    ensures s != [] && AllDigits(s)
  {
    if n < 10 then [DigitChar(n)] else NatToString(n / 10) + [DigitChar(n % 10)]
  }

  /** Integer.toString / String.valueOf(int). */
  function IntToString(n: int): string
  {
    if n < 0 then "-" + NatToString(-n) else NatToString(n)
  }

  lemma {:induction false} DigitsValueOfNatToString(n: nat)
    ensures DigitsValue(NatToString(n)) == n
  {
    var s := NatToString(n);
    if n >= 10 {
      DigitsValueOfNatToString(n / 10);
      assert s[..|s| - 1] == NatToString(n / 10);
    }
  }

  /** Integer.parseInt reads back what Integer.toString printed. */
  lemma ParseIntOfIntToString(n: int)
    requires INT_MIN <= n <= INT_MAX
    ensures ParseInt(IntToString(n)) == Some(n)
  {
    if n < 0 {
      DigitsValueOfNatToString(-n);
      assert IntToString(n)[1..] == NatToString(-n);
    } else {
      DigitsValueOfNatToString(n);
    }
  }

  /** Boolean.parseBoolean: true iff the text is "true" ignoring case. */
  predicate ParseBoolean(s: string)
  {
    EqualsIgnoreCase(s, "true")
  }

  // ----------------------------------------------------------- replacing

  /** String.replace(target, "") for a non-empty target: one left-to-right
      pass that deletes non-overlapping occurrences. */
  function RemoveAll(s: string, target: string): (r: string)
    requires target != []
    ensures |r| <= |s|
    decreases |s|
  {
    if |s| < |target| then s
    else if s[..|target|] == target then RemoveAll(s[|target|..], target)
    else [s[0]] + RemoveAll(s[1..], target)
  }

  lemma {:induction false} RemoveAllWithoutTarget(s: string, target: string)
    requires target != []
    requires IndexOf(s, target) == -1
    ensures RemoveAll(s, target) == s
    decreases |s|
  {
    if |s| >= |target| {
      assert s[0..] == s;
      assert !StartsWith(s, target);
      assert forall j :: 0 <= j <= |s| - 1 ==> s[1..][j..] == s[j + 1..];
      RemoveAllWithoutTarget(s[1..], target);
    }
  }
}
