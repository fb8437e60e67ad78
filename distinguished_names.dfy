/** Reading one attribute out of a distinguished name the way every tool
    does it: the RFC 4514 string is cut at each comma (escaped commas are
    not honoured), each piece is trimmed, and the first piece starting with
    the attribute's "KEY=" gives the rest of that piece. Also the
    character replacement the tools apply before using a name in a file
    name or a signature field name. */
module DistinguishedNames {
  import opened Wrappers
  import opened JavaStrings

  const CN_KEY: string := "CN="
  const O_KEY: string := "O="

  /** A piece carries the attribute when, trimmed, it starts with key. */
  predicate Carries(part: string, key: string)
  {
    StartsWith(Trim(part), key)
  }

  /** The value of the first piece that, trimmed, starts with key. */
  function FirstAttribute(parts: seq<string>, key: string): Option<string>
    decreases |parts|
  {
    if parts == [] then None
    else if Carries(parts[0], key) then Some(Trim(parts[0])[|key|..])
    else FirstAttribute(parts[1..], key)
  }

  /** Nothing is found exactly when no piece carries the key. */
  lemma {:induction false} FirstAttributeNone(parts: seq<string>, key: string)
    ensures FirstAttribute(parts, key).None? <==> forall k :: 0 <= k < |parts| ==> !Carries(parts[k], key)
    decreases |parts|
  {
    if parts != [] && !Carries(parts[0], key) {
      FirstAttributeNone(parts[1..], key);
      assert forall k :: 1 <= k < |parts| ==> parts[k] == parts[1..][k - 1];
    }
  }

  /** parts[k] is the first piece carrying key, and v is what follows key in it. */
  predicate FoundAt(parts: seq<string>, key: string, k: int, v: string)
  {
    0 <= k < |parts| && Trim(parts[k]) == key + v &&
    forall j :: 0 <= j < k ==> !Carries(parts[j], key)
  }

  /** The value found is the rest of the first piece carrying the key. */
  lemma {:induction false} FirstAttributeExact(parts: seq<string>, key: string)
    ensures FirstAttribute(parts, key).Some? ==> exists k :: FoundAt(parts, key, k, FirstAttribute(parts, key).value)
    decreases |parts|
  {
    if parts != [] {
      if Carries(parts[0], key) {
        var t := Trim(parts[0]);
        assert t == key + t[|key|..];
        assert FoundAt(parts, key, 0, t[|key|..]);
      } else {
        FirstAttributeExact(parts[1..], key);
        var r := FirstAttribute(parts[1..], key);
        if r.Some? {
          var k :| FoundAt(parts[1..], key, k, r.value);
          FoundAtShift(parts, key, k, r.value);
        }
      }
    }
  }

  lemma FoundAtShift(parts: seq<string>, key: string, k: int, v: string)
    requires parts != [] && !Carries(parts[0], key) && FoundAt(parts[1..], key, k, v)
    ensures FoundAt(parts, key, k + 1, v)
  {
    forall j | 0 <= j < k + 1 ensures !Carries(parts[j], key) {
      if j > 0 {
        assert parts[j] == parts[1..][j - 1];
      }
    }
  }

  /** The attribute key of the distinguished name dn, split at every comma. */
  function Attribute(dn: string, key: string): Option<string>
  {
    FirstAttribute(JavaSplit(dn, ','), key)
  }

  /** No piece of a comma split contains a comma. */
  lemma JavaSplitHasNoComma(dn: string)
    ensures forall k :: 0 <= k < |JavaSplit(dn, ',')| ==> ',' !in JavaSplit(dn, ',')[k]
  {
    if ',' in dn {
      var all := SplitAll(dn, ',');
      SplitAllHasNoSep(dn, ',');
      var kept := DropTrailingEmpty(all);
      assert forall k :: 0 <= k < |kept| ==> kept[k] == all[k];
    }
  }

  /** A value read out of a distinguished name never contains a comma. */
  lemma AttributeHasNoComma(dn: string, key: string)
    ensures Attribute(dn, key).Some? ==> ',' !in Attribute(dn, key).value
  {
    var parts := JavaSplit(dn, ',');
    var r := FirstAttribute(parts, key);
    if r.Some? {
      FirstAttributeExact(parts, key);
      var k :| FoundAt(parts, key, k, r.value);
      JavaSplitHasNoComma(dn);
      TrimKeepsChars(parts[k]);
      assert forall c :: c in r.value ==> c in Trim(parts[k]);
    }
  }

  /** A piece with no blank at either end is its own trim. */
  lemma TrimOfTight(s: string)
    requires s != [] && s[0] > ' ' && s[|s| - 1] > ' '
    ensures Trim(s) == s
  {
    assert TrimStart(s) == s;
    assert TrimEnd(s) == s;
  }

  /** Splitting piece + rest at commas, where piece has no comma and rest is
      empty or starts with one, gives piece first. */
  lemma FirstPiece(piece: string, rest: string)
    requires piece != [] && ',' !in piece
    requires rest == [] || rest[0] == ','
    ensures JavaSplit(piece + rest, ',') != [] && JavaSplit(piece + rest, ',')[0] == piece
  {
    var dn := piece + rest;
    if ',' in dn {
      assert rest != [];
      assert IndexOfChar(dn, ',') == |piece| by {
        assert dn[|piece|] == ',';
        assert dn[..|piece|] == piece;
      }
      var all := SplitAll(dn, ',');
      assert all[0] == dn[..|piece|] == piece;
      var kept := DropTrailingEmpty(all);
      assert |kept| >= 1;
    } else {
      assert rest == [];
      assert dn == piece;
    }
  }

  /** A tight piece key + v carries the key with the value v. */
  lemma CarriesTight(piece: string, key: string, v: string)
    requires piece == key + v && Trim(piece) == piece
    ensures Carries(piece, key) && Trim(piece)[|key|..] == v
  {
    assert piece[..|key|] == key;
  }

  /** The leading piece decides: in a name starting with key + v, where v
      holds no comma and key + v has no surrounding blanks, the attribute
      is v whatever follows the next comma. */
  lemma LeadingAttribute(key: string, v: string, rest: string)
    requires key != [] && key[0] > ' ' && ',' !in key + v
    requires (key + v)[|key + v| - 1] > ' '
    requires rest == [] || rest[0] == ','
    ensures Attribute(key + v + rest, key) == Some(v)
  {
    var piece := key + v;
    TrimOfTight(piece);
    CarriesTight(piece, key, v);
    FirstPiece(piece, rest);
  }

  // ------------------------------------------------------ file-safe names

  predicate IsAsciiLetterOrDigit(c: char)
  {
    'a' <= c <= 'z' || 'A' <= c <= 'Z' || '0' <= c <= '9'
  }

  /** The class [a-zA-Z0-9.-] kept in exported certificate file names. */
  predicate IsFileNameChar(c: char)
  {
    IsAsciiLetterOrDigit(c) || c == '.' || c == '-'
  }

  /** replaceAll("[^...]", "_") for a class of allowed characters: every
      other character becomes '_', one for one. */
  function ReplaceDisallowed(s: string, allowed: char -> bool): (r: string)
    ensures |r| == |s|
    ensures forall i :: 0 <= i < |s| ==> (allowed(s[i]) ==> r[i] == s[i]) && (!allowed(s[i]) ==> r[i] == '_')
  {
    if s == [] then []
    else [if allowed(s[0]) then s[0] else '_'] + ReplaceDisallowed(s[1..], allowed)
  }

  /** After the replacement only allowed characters and '_' are left, and
      replacing again changes nothing when '_' itself is allowed or not. */
  lemma ReplaceDisallowedIsClean(s: string, allowed: char -> bool)
    ensures forall i :: 0 <= i < |s| ==> allowed(ReplaceDisallowed(s, allowed)[i]) || ReplaceDisallowed(s, allowed)[i] == '_'
    ensures ReplaceDisallowed(ReplaceDisallowed(s, allowed), allowed) == ReplaceDisallowed(s, allowed)
  {
    var r := ReplaceDisallowed(s, allowed);
    var rr := ReplaceDisallowed(r, allowed);
    forall i | 0 <= i < |s| ensures rr[i] == r[i] {
      if !allowed(r[i]) {
        assert r[i] == '_';
      }
    }
  }

  /** A name that already consists of allowed characters is left as it is. */
  lemma ReplaceDisallowedKeepsClean(s: string, allowed: char -> bool)
    requires forall i :: 0 <= i < |s| ==> allowed(s[i])
    ensures ReplaceDisallowed(s, allowed) == s
  {
  }
}
