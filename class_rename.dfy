/** The substitution inside `replaceThemeNameInFile` (utils/create-theme.js):
    a global replace of `.theme--(light|dark)--<old>` by
    `.theme--$1--<new>`. The regular expression is scanned left to right: at
    each position either a class token for the old name starts there (and is
    replaced as a whole) or one character is copied. */
module ClassRename {
  import opened Wrappers
  import opened Text

  datatype Mode = Light | Dark

  function ModeName(m: Mode): string
  {
    match m
    case Light => "light"
    case Dark => "dark"
  }

  /** `.theme--<mode>--<name>`. */
  function ClassToken(m: Mode, name: string): string
  {
    ".theme--" + ModeName(m) + "--" + name
  }

  /** The mode captured by `(light|dark)` when the pattern for `name` matches
      at the start of `s`. No trailing boundary is required. */
  function MatchAt(s: string, name: string): (r: Option<Mode>)
    ensures r.Some? ==> StartsWith(s, ClassToken(r.value, name))
    ensures r.None? ==> !StartsWith(s, ClassToken(Light, name)) && !StartsWith(s, ClassToken(Dark, name))
  {
    if StartsWith(s, ClassToken(Light, name)) then Some(Light)
    else if StartsWith(s, ClassToken(Dark, name)) then Some(Dark)
    else None
  }

  /** `content.replace(/\.theme--(light|dark)--<oldName>/g, ".theme--$1--<newName>")`. */
  function Rename(s: string, oldName: string, newName: string): string
    decreases |s|
  {
    if s == [] then []
    else match MatchAt(s, oldName)
      case Some(m) => ClassToken(m, newName) + Rename(s[|ClassToken(m, oldName)|..], oldName, newName)
      case None => [s[0]] + Rename(s[1..], oldName, newName)
  }

  /** A reading of a stylesheet as plain characters and class tokens, the
      latter standing for `.theme--<mode>--<name>` with the name left open. */
  datatype Piece = Char(c: char) | Class(mode: Mode)

  /** The text of `pieces` with every class token written for `name`. */
  function Render(pieces: seq<Piece>, name: string): string
  {
    if pieces == [] then []
    else
      (match pieces[0]
       case Char(c) => [c]
       case Class(m) => ClassToken(m, name))
      + Render(pieces[1..], name)
  }

  /** The pieces the left-to-right scan for `oldName` finds in `s`. */
  function Tokenize(s: string, oldName: string): seq<Piece>
    decreases |s|
  {
    if s == [] then []
    else match MatchAt(s, oldName)
      case Some(m) => [Class(m)] + Tokenize(s[|ClassToken(m, oldName)|..], oldName)
      case None => [Char(s[0])] + Tokenize(s[1..], oldName)
  }

  /** Tokenizing loses nothing: writing the pieces back with the old name
      gives the input. */
  lemma {:induction false} TokenizeRoundTrip(s: string, oldName: string)
    ensures Render(Tokenize(s, oldName), oldName) == s
    decreases |s|
  {
    if s != [] {
      match MatchAt(s, oldName)
      case Some(m) =>
        TokenizeRoundTrip(s[|ClassToken(m, oldName)|..], oldName);
        RoundTripClassStep(s, oldName, m);
      case None =>
        TokenizeRoundTrip(s[1..], oldName);
        RoundTripCharStep(s, oldName);
    }
  }

  /** The round trip over a class token, given it for the rest. */
  lemma RoundTripClassStep(s: string, oldName: string, m: Mode)
    requires s != [] && MatchAt(s, oldName) == Some(m)
    requires var k := |ClassToken(m, oldName)|;
      Render(Tokenize(s[k..], oldName), oldName) == s[k..]
    ensures Render(Tokenize(s, oldName), oldName) == s
  {
    var p := Tokenize(s, oldName);
    var k := |ClassToken(m, oldName)|;
    assert p[1..] == Tokenize(s[k..], oldName);
    assert s == s[..k] + s[k..];
  }

  /** The round trip over a plain character, given it for the rest. */
  lemma RoundTripCharStep(s: string, oldName: string)
    requires s != [] && MatchAt(s, oldName) == None
    requires Render(Tokenize(s[1..], oldName), oldName) == s[1..]
    ensures Render(Tokenize(s, oldName), oldName) == s
  {
    var p := Tokenize(s, oldName);
    assert p[1..] == Tokenize(s[1..], oldName);
    assert s == [s[0]] + s[1..];
  }

  /** Every piece the scan leaves as a plain character is one where no class
      token for `oldName` starts: no occurrence is left unreplaced. */
  lemma {:induction false} TokenizeMaximal(s: string, oldName: string)
    ensures var p := Tokenize(s, oldName);
      forall k :: 0 <= k < |p| && p[k].Char? ==> MatchAt(Render(p[k..], oldName), oldName).None?
    decreases |s|
  {
    var p := Tokenize(s, oldName);
    if s != [] {
      var rest := if MatchAt(s, oldName).Some? then s[|ClassToken(MatchAt(s, oldName).value, oldName)|..] else s[1..];
      assert p[1..] == Tokenize(rest, oldName);
      TokenizeMaximal(rest, oldName);
      TokenizeRoundTrip(s, oldName);
      forall k | 0 <= k < |p| && p[k].Char?
        ensures MatchAt(Render(p[k..], oldName), oldName).None?
      {
        if k == 0 {
          assert p[0..] == p;
        } else {
          assert p[k..] == p[1..][k - 1..];
        }
      }
    }
  }

  /** The rename is exactly: read the text as pieces for the old name, write
      them back for the new name. Every class token found keeps its mode and
      gets the new name; every other character is copied unchanged. */
  lemma {:induction false} RenameIsRetokenize(s: string, oldName: string, newName: string)
    ensures Rename(s, oldName, newName) == Render(Tokenize(s, oldName), newName)
    decreases |s|
  {
    if s != [] {
      var p := Tokenize(s, oldName);
      match MatchAt(s, oldName)
      case Some(m) =>
        var k := |ClassToken(m, oldName)|;
        RenameIsRetokenize(s[k..], oldName, newName);
        assert p[1..] == Tokenize(s[k..], oldName);
      case None =>
        RenameIsRetokenize(s[1..], oldName, newName);
        assert p[1..] == Tokenize(s[1..], oldName);
    }
  }

  /** Renaming a theme to its own name changes nothing. */
  lemma {:induction false} RenameToSameName(s: string, name: string)
    ensures Rename(s, name, name) == s
  {
    RenameIsRetokenize(s, name, name);
    TokenizeRoundTrip(s, name);
  }

  /** Text that holds no class token for the old name comes back unchanged. */
  lemma {:induction false} RenameWithoutOccurrence(s: string, oldName: string, newName: string)
    requires forall i :: 0 <= i < |s| ==> MatchAt(s[i..], oldName).None?
    ensures Rename(s, oldName, newName) == s
    decreases |s|
  {
    if s != [] {
      assert s[0..] == s;
      forall i | 0 <= i < |s| - 1
        ensures MatchAt(s[1..][i..], oldName).None?
      {
        assert s[1..][i..] == s[i + 1..];
      }
      RenameWithoutOccurrence(s[1..], oldName, newName);
    }
  }

  /** The pattern has no trailing boundary: a longer class name that merely
      starts with the old name is rewritten too, keeping its tail. */
  lemma RenameNoTrailingBoundary()
    ensures Rename(".theme--light--originalX", "original", "ocean") == ".theme--light--oceanX"
  {
    var s := ".theme--light--originalX";
    var k := |ClassToken(Light, "original")|;
    assert ClassToken(Light, "original") == ".theme--light--original";
    assert MatchAt(s, "original") == Some(Light);
    assert s[k..] == "X";
    assert MatchAt("X", "original") == None;
    assert Rename("X", "original", "ocean") == "X";
  }
}
