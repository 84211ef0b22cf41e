/** The theme generator (utils/create-theme.js): the prompt loop that accepts
    a theme name, the folder names derived from it, and the class rename it
    applies to the copied `_main.scss` files. Prompting, copying folders and
    console output are not modelled; the answers typed at the prompt are a
    sequence, and the `themes/` folder is a map from relative paths to file
    contents plus the set of its entry names. */
module CreateTheme {
  import opened Wrappers
  import opened Text
  import opened KebabCase
  import opened ClassRename

  /** The template theme every new pair is copied from. */
  const TemplateName := "original"

  /** `<mode>-<name>`: the folder holding one half of a theme pair. */
  function ThemeFolder(m: Mode, name: string): string
  {
    ModeName(m) + "-" + name
  }

  /** The entry stylesheet of a theme folder, relative to `themes/`. */
  function MainFile(folder: string): string
  {
    folder + "/_main.scss"
  }

  /** Different modes or different names never give the same folder. */
  lemma ThemeFolderInjective(m1: Mode, n1: string, m2: Mode, n2: string)
    requires ThemeFolder(m1, n1) == ThemeFolder(m2, n2)
    ensures m1 == m2 && n1 == n2
  {
    var f := ThemeFolder(m1, n1);
    assert f[0] == ModeName(m1)[0] && f[0] == ModeName(m2)[0];
    assert m1 == m2;
    var k := |ModeName(m1) + "-"|;
    assert f[k..] == n1 && f[k..] == n2;
  }

  /** The outcome of one answer at the prompt. */
  datatype NameCheck =
    | Empty                                      // blank after trimming
    | Taken(lightExists: bool, darkExists: bool) // a folder of the pair exists
    | Accepted(name: string)

  /** What the loop body decides for one answer, given the entries of
      `themes/`. */
  function CheckName(input: string, existing: set<string>): (r: NameCheck)
    ensures r.Empty? <==> AllSpace(input)
    ensures r.Accepted? ==> r.name == ToKebabCase(Trim(input))
  {
    var trimmed := Trim(input);
    if trimmed == [] then Empty
    else
      var name := ToKebabCase(trimmed);
      var lightExists := ThemeFolder(Light, name) in existing;
      var darkExists := ThemeFolder(Dark, name) in existing;
      if lightExists || darkExists then Taken(lightExists, darkExists) else Accepted(name)
  }

  /** A blank answer is refused; otherwise the trimmed answer is put in kebab
      case and refused, saying which folder exists, when either folder of the
      pair exists; and it is accepted when neither does. An accepted name is
      kebab-shaped and names two folders that do not exist yet. */
  lemma CheckNameMeaning(input: string, existing: set<string>)
    ensures var v := CheckName(input, existing);
      && (v.Empty? <==> AllSpace(input))
      && (v.Taken? ==>
            && v.lightExists == (ThemeFolder(Light, ToKebabCase(Trim(input))) in existing)
            && v.darkExists == (ThemeFolder(Dark, ToKebabCase(Trim(input))) in existing)
            && (v.lightExists || v.darkExists))
      && (v.Accepted? ==>
            && v.name == ToKebabCase(Trim(input))
            && IsKebab(v.name)
            && ThemeFolder(Light, v.name) !in existing
            && ThemeFolder(Dark, v.name) !in existing)
      && ((&& !AllSpace(input)
           && ThemeFolder(Light, ToKebabCase(Trim(input))) !in existing
           && ThemeFolder(Dark, ToKebabCase(Trim(input))) !in existing) ==> v.Accepted?)
  {
    if !AllSpace(input) {
      KebabShape(Trim(input));
    }
  }

  /** The emptiness test looks at the trimmed answer, not at its kebab form:
      an answer made only of punctuation is accepted with the empty name, so
      the pair created would be the folders `light-` and `dark-`. */
  lemma PunctuationOnlyAccepted()
    ensures CheckName("!!!", {}) == Accepted("")
  {
    assert Trim("!!!") == "!!!" by {
      var s := "!!!";
      assert !IsJsSpace(s[0]) && !IsJsSpace(s[2]);
      assert LeadingSpaces(s) == 0;
      assert TrailingSpaces(s) == 0;
    }
    KebabExampleEmpty();
  }

  /** The answer the prompt finally accepts: its position among the answers
      given and the kebab-case theme name. */
  datatype Answer = Answer(attempt: nat, name: string)

  /** The `while (true)` loop of `main`: read answers in turn until one is
      accepted. When the answers run out without one being accepted the model
      returns `None` (the program would keep asking). */
  method AskThemeName(answers: seq<string>, existing: set<string>) returns (r: Option<Answer>)
    ensures r.Some? ==>
      && r.value.attempt < |answers|
      && CheckName(answers[r.value.attempt], existing) == Accepted(r.value.name)
      && forall j :: 0 <= j < r.value.attempt ==> !CheckName(answers[j], existing).Accepted?
    ensures r.None? ==> forall j :: 0 <= j < |answers| ==> !CheckName(answers[j], existing).Accepted?
  {
    var i := 0;
    while i < |answers|
      invariant 0 <= i <= |answers|
      invariant forall j :: 0 <= j < i ==> !CheckName(answers[j], existing).Accepted?
    {
      var input := answers[i];
      if Trim(input) == [] {
        assert CheckName(input, existing) == Empty;
        RefusedOneMore(answers, existing, i);
        i := i + 1;
        continue;
      }
      var themeName := ToKebabCase(Trim(input));
      var lightExists := ThemeFolder(Light, themeName) in existing;
      var darkExists := ThemeFolder(Dark, themeName) in existing;
      if lightExists || darkExists {
        assert CheckName(input, existing) == Taken(lightExists, darkExists);
        RefusedOneMore(answers, existing, i);
        i := i + 1;
        continue;
      }
      assert CheckName(input, existing) == Accepted(themeName);
      return Some(Answer(i, themeName));
    }
    return None;
  }

  /** Refusing answer `i` extends the run of refused answers by one. */
  lemma RefusedOneMore(answers: seq<string>, existing: set<string>, i: nat)
    requires i < |answers|
    requires forall j :: 0 <= j < i ==> !CheckName(answers[j], existing).Accepted?
    requires !CheckName(answers[i], existing).Accepted?
    ensures forall j :: 0 <= j < i + 1 ==> !CheckName(answers[j], existing).Accepted?
  {
    forall j | 0 <= j < i + 1
      ensures !CheckName(answers[j], existing).Accepted?
    {
      if j == i {
        assert answers[j] == answers[i];
      }
    }
  }

  /** The files under `themes/`, updated in place by the generator. */
  class ThemeStore {
    /** Contents of each text file, by path relative to `themes/`. */
    var files: map<string, string>

    constructor (files: map<string, string>)
      ensures this.files == files
    {
      this.files := files;
    }

    /** `replaceThemeNameInFile`: read the file, rename the classes, write it
        back, and report success. Reading fails when the file is missing;
        `writable` says whether the write succeeds. Either failure is caught:
        the result is `false` and the file is left as it was. */
    method ReplaceThemeNameInFile(path: string, oldName: string, newName: string, writable: bool)
      returns (ok: bool)
      modifies this
      ensures ok <==> path in old(files) && writable
      ensures ok ==> files == old(files)[path := Rename(old(files)[path], oldName, newName)]
      ensures !ok ==> files == old(files)
    {
      if path !in files {
        return false;
      }
      var content := files[path];
      content := Rename(content, oldName, newName);
      if !writable {
        return false;
      }
      files := files[path := content];
      return true;
    }

    /** The class-name step of `main` for a freshly copied pair: in each
        folder whose `_main.scss` exists, `.theme--<mode>--original` becomes
        `.theme--<mode>--<name>`. The light file is handled first and a
        failure there does not stop the dark one. No other file changes. */
    method UpdateClassNames(name: string, lightWritable: bool, darkWritable: bool)
      returns (lightUpdated: bool, darkUpdated: bool)
      modifies this
      ensures lightUpdated <==> MainFile(ThemeFolder(Light, name)) in old(files) && lightWritable
      ensures darkUpdated <==> MainFile(ThemeFolder(Dark, name)) in old(files) && darkWritable
      ensures files.Keys == old(files).Keys
      ensures forall p :: p in files ==>
        files[p] == if (p == MainFile(ThemeFolder(Light, name)) && lightUpdated)
                    || (p == MainFile(ThemeFolder(Dark, name)) && darkUpdated)
                    then Rename(old(files)[p], TemplateName, name)
                    else old(files)[p]
    {
      var lightMainPath := MainFile(ThemeFolder(Light, name));
      var darkMainPath := MainFile(ThemeFolder(Dark, name));
      assert lightMainPath[0] != darkMainPath[0];
      lightUpdated, darkUpdated := false, false;
      if lightMainPath in files {
        lightUpdated := ReplaceThemeNameInFile(lightMainPath, TemplateName, name, lightWritable);
      }
      if darkMainPath in files {
        darkUpdated := ReplaceThemeNameInFile(darkMainPath, TemplateName, name, darkWritable);
      }
    }
  }
}
