/** The batch compiler (utils/build-themes.js): list the theme folders,
    compile each folder's `_main.scss` with sass, tally the outcomes, and
    decide what a file-watch event recompiles. The file system and sass are
    given as an environment: which files exist, what sass returns or throws
    for an entry file, and whether writing an output file throws. */
module BuildThemes {
  import opened Wrappers
  import opened Text

  /** An entry of `readdirSync(themesDir, { withFileTypes: true })`. */
  datatype Dirent = Dirent(name: string, isDirectory: bool)

  /** `getThemeFolders`: the names of the directory entries, in listing
      order. */
  function GetThemeFolders(listing: seq<Dirent>): (r: seq<string>)
    ensures |r| <= |listing|
    ensures forall n :: n in r <==> Dirent(n, true) in listing
  {
    if listing == [] then []
    else (if listing[0].isDirectory then [listing[0].name] else []) + GetThemeFolders(listing[1..])
  }

  /** Listing order is kept: the folders of a concatenated listing are the
      folders of each part, one after the other. */
  lemma {:induction false} GetThemeFoldersAppend(a: seq<Dirent>, b: seq<Dirent>)
    ensures GetThemeFolders(a + b) == GetThemeFolders(a) + GetThemeFolders(b)
  {
    if a == [] {
      assert a + b == b;
    } else {
      assert (a + b)[1..] == a[1..] + b;
      GetThemeFoldersAppend(a[1..], b);
    }
  }

  /** `themes.filter((t) => t.startsWith(prefix))`. */
  function WithPrefix(themes: seq<string>, prefix: string): (r: seq<string>)
    ensures |r| <= |themes|
    ensures forall t :: t in r <==> t in themes && StartsWith(t, prefix)
  {
    if themes == [] then []
    else (if StartsWith(themes[0], prefix) then [themes[0]] else []) + WithPrefix(themes[1..], prefix)
  }

  /** The filter keeps order: filtering a concatenation filters each part. */
  lemma {:induction false} WithPrefixAppend(a: seq<string>, b: seq<string>, prefix: string)
    ensures WithPrefix(a + b, prefix) == WithPrefix(a, prefix) + WithPrefix(b, prefix)
  {
    if a == [] {
      assert a + b == b;
    } else {
      assert (a + b)[1..] == a[1..] + b;
      WithPrefixAppend(a[1..], b, prefix);
    }
  }

  const LightPrefix := "light-"
  const DarkPrefix := "dark-"

  /** No name is both a light and a dark theme. */
  lemma {:induction false} LightDarkDisjoint(themes: seq<string>)
    ensures forall t :: t in WithPrefix(themes, LightPrefix) ==> t !in WithPrefix(themes, DarkPrefix)
  {
    forall t | t in WithPrefix(themes, LightPrefix)
      ensures t !in WithPrefix(themes, DarkPrefix)
    {
      assert t[0] == 'l';
    }
  }

  /** `themes/<name>/_main.scss`. */
  function InputFile(name: string): string
  {
    "themes/" + name + "/_main.scss"
  }

  /** `compiled/<name>.css`. */
  function OutputFile(name: string): string
  {
    "compiled/" + name + ".css"
  }

  /** What `sass.compile` does with an entry file: return CSS text or throw. */
  datatype SassOutcome = Css(css: string) | Threw(message: string)

  /** The outside world as `compileTheme` sees it: the files that exist, the
      compiler, and the error (if any) that writing a given path throws. */
  datatype Env = Env(
    existing: set<string>,
    sass: string -> SassOutcome,
    writeError: string -> Option<string>)

  /** The record `compileTheme` returns: `{ success, name }` with `error`
      present only when an exception was caught. */
  datatype CompileResult = CompileResult(success: bool, name: string, error: Option<string>)

  /** A theme skipped for lack of `_main.scss`: a failure with no message. */
  predicate Skipped(r: CompileResult)
  {
    !r.success && r.error.None?
  }

  /** A theme whose compilation or output write threw. */
  predicate Errored(r: CompileResult)
  {
    !r.success && r.error.Some?
  }

  /** One call of `compileTheme`: its result and the CSS it wrote to
      `OutputFile(name)`, if the write happened. */
  datatype Compilation = Compilation(result: CompileResult, written: Option<string>)

  function CompileTheme(env: Env, name: string): (c: Compilation)
    ensures c.result.name == name
    ensures Skipped(c.result) <==> InputFile(name) !in env.existing
    ensures InputFile(name) in env.existing && env.sass(InputFile(name)).Threw? ==>
      c.result.error == Some(env.sass(InputFile(name)).message)
    ensures InputFile(name) in env.existing && env.sass(InputFile(name)).Css? ==>
      c.result.error == env.writeError(OutputFile(name))
    ensures c.result.success <==> c.written.Some?
    ensures c.result.success ==>
      && InputFile(name) in env.existing
      && env.sass(InputFile(name)) == Css(c.written.value)
      && env.writeError(OutputFile(name)).None?
  {
    var inputFile := InputFile(name);
    var outputFile := OutputFile(name);
    if inputFile !in env.existing then
      Compilation(CompileResult(false, name, None), None)
    else
      match env.sass(inputFile)
      case Threw(message) => Compilation(CompileResult(false, name, Some(message)), None)
      case Css(css) =>
        match env.writeError(outputFile)
        case Some(message) => Compilation(CompileResult(false, name, Some(message)), None)
        case None => Compilation(CompileResult(true, name, None), Some(css))
  }

  /** A theme's outcome depends only on its own entry file and output file,
      so one theme's failure cannot affect another's. */
  lemma CompileThemeIsLocal(env1: Env, env2: Env, name: string)
    requires (InputFile(name) in env1.existing) == (InputFile(name) in env2.existing)
    requires InputFile(name) in env1.existing ==>
      && env1.sass(InputFile(name)) == env2.sass(InputFile(name))
      && env1.writeError(OutputFile(name)) == env2.writeError(OutputFile(name))
    ensures CompileTheme(env1, name) == CompileTheme(env2, name)
  {
  }

  /** A theme without `_main.scss` is skipped whatever the compiler would do:
      the compiler is not consulted. */
  lemma SkippedIgnoresCompiler(env: Env, name: string, other: string -> SassOutcome)
    requires InputFile(name) !in env.existing
    ensures CompileTheme(env, name) == CompileTheme(env.(sass := other), name)
    ensures CompileTheme(env, name).result == CompileResult(false, name, None)
  {
    CompileThemeIsLocal(env, env.(sass := other), name);
  }

  function CountSuccessful(rs: seq<CompileResult>): nat
  {
    if rs == [] then 0 else (if rs[0].success then 1 else 0) + CountSuccessful(rs[1..])
  }

  function CountFailed(rs: seq<CompileResult>): nat
  {
    if rs == [] then 0 else (if !rs[0].success then 1 else 0) + CountFailed(rs[1..])
  }

  function CountSkipped(rs: seq<CompileResult>): nat
  {
    if rs == [] then 0 else (if Skipped(rs[0]) then 1 else 0) + CountSkipped(rs[1..])
  }

  function CountErrored(rs: seq<CompileResult>): nat
  {
    if rs == [] then 0 else (if Errored(rs[0]) then 1 else 0) + CountErrored(rs[1..])
  }

  /** The tally adds up: every result is counted once as compiled or failed,
      and "failed" is the skipped themes plus the ones that threw. */
  lemma {:induction false} TallyAddsUp(rs: seq<CompileResult>)
    ensures CountSuccessful(rs) + CountFailed(rs) == |rs|
    ensures CountFailed(rs) == CountSkipped(rs) + CountErrored(rs)
  {
    if rs != [] {
      TallyAddsUp(rs[1..]);
    }
  }

  /** The files written by compiling `themes` in order: one
      (output path, CSS) pair per theme that succeeded. */
  function Writes(env: Env, themes: seq<string>): (w: seq<(string, string)>)
    ensures |w| <= |themes|
  {
    if themes == [] then []
    else
      var c := CompileTheme(env, themes[0]);
      (if c.written.Some? then [(OutputFile(themes[0]), c.written.value)] else [])
      + Writes(env, themes[1..])
  }

  /** A single theme writes its CSS to its own output file exactly when it
      compiles, and writes nothing otherwise. */
  lemma WritesOne(env: Env, theme: string)
    ensures CompileTheme(env, theme).result.success ==>
      Writes(env, [theme]) == [(OutputFile(theme), env.sass(InputFile(theme)).css)]
    ensures !CompileTheme(env, theme).result.success ==> Writes(env, [theme]) == []
  {
    assert [theme][1..] == [];
  }

  /** Compiling `a` and then `b` writes what compiling `a` writes followed by
      what compiling `b` writes: with `WritesOne`, the writes of a batch are
      the successful themes' files, in folder order. */
  lemma {:induction false} WritesAppend(env: Env, a: seq<string>, b: seq<string>)
    ensures Writes(env, a + b) == Writes(env, a) + Writes(env, b)
  {
    if a == [] {
      assert a + b == b;
    } else {
      assert (a + b)[0] == a[0];
      assert (a + b)[1..] == a[1..] + b;
      WritesAppend(env, a[1..], b);
    }
  }

  /** Everything `compileAllThemes` computes. */
  datatype Build = Build(
    themes: seq<string>,
    lightThemes: seq<string>,
    darkThemes: seq<string>,
    results: seq<CompileResult>,
    writes: seq<(string, string)>,
    successful: nat,
    failed: nat)

  /** `compileAllThemes`: every folder is compiled, in folder order, whatever
      its prefix and whatever happened to the folders before it. */
  function CompileAllThemes(env: Env, listing: seq<Dirent>): (b: Build)
    ensures b.themes == GetThemeFolders(listing)
    ensures |b.results| == |b.themes|
    ensures forall i :: 0 <= i < |b.themes| ==>
      b.results[i] == CompileTheme(env, b.themes[i]).result && b.results[i].name == b.themes[i]
    ensures b.lightThemes == WithPrefix(b.themes, LightPrefix)
    ensures b.darkThemes == WithPrefix(b.themes, DarkPrefix)
  {
    var themes := GetThemeFolders(listing);
    var results := seq(|themes|, i requires 0 <= i < |themes| => CompileTheme(env, themes[i]).result);
    Build(
      themes,
      WithPrefix(themes, LightPrefix),
      WithPrefix(themes, DarkPrefix),
      results,
      Writes(env, themes),
      CountSuccessful(results),
      CountFailed(results))
  }

  /** The summary line's two numbers account for every theme, and the themes
      skipped are exactly those without `_main.scss`. */
  lemma {:induction false} CompileAllTally(env: Env, listing: seq<Dirent>)
    ensures var b := CompileAllThemes(env, listing);
      && b.successful + b.failed == |b.themes|
      && b.failed == CountSkipped(b.results) + CountErrored(b.results)
      && forall i :: 0 <= i < |b.themes| ==> (Skipped(b.results[i]) <==> InputFile(b.themes[i]) !in env.existing)
  {
    TallyAddsUp(CompileAllThemes(env, listing).results);
  }

  /** One output file is written per successful theme. */
  lemma {:induction false} WritesMatchSuccesses(env: Env, themes: seq<string>)
    ensures |Writes(env, themes)| ==
      CountSuccessful(seq(|themes|, i requires 0 <= i < |themes| => CompileTheme(env, themes[i]).result))
  {
    var rs := seq(|themes|, i requires 0 <= i < |themes| => CompileTheme(env, themes[i]).result);
    if themes != [] {
      var tail := themes[1..];
      WritesMatchSuccesses(env, tail);
      assert rs[1..] == seq(|tail|, i requires 0 <= i < |tail| => CompileTheme(env, tail[i]).result);
    }
  }

  /** Where a watched change came from: inside one theme's folder or inside
      `components/`. */
  datatype WatchSource = ThemeDir(theme: string) | ComponentsDir

  /** `watchThemes` registers one watcher per theme folder found at start-up
      and one on `components/` only when it exists. */
  function WatchedSources(listing: seq<Dirent>, componentsExists: bool): (ws: seq<WatchSource>)
    ensures forall t :: ThemeDir(t) in ws <==> t in GetThemeFolders(listing)
    ensures ComponentsDir in ws <==> componentsExists
    ensures |ws| == |GetThemeFolders(listing)| + (if componentsExists then 1 else 0)
    ensures forall i :: 0 <= i < |GetThemeFolders(listing)| ==> ws[i] == ThemeDir(GetThemeFolders(listing)[i])
  {
    var themes := GetThemeFolders(listing);
    var dirs := seq(|themes|, i requires 0 <= i < |themes| => ThemeDir(themes[i]));
    assert forall t :: ThemeDir(t) in dirs <==> t in themes by {
      forall t | t in themes
        ensures ThemeDir(t) in dirs
      {
        var i :| 0 <= i < |themes| && themes[i] == t;
        assert dirs[i] == ThemeDir(t);
      }
    }
    dirs + (if componentsExists then [ComponentsDir] else [])
  }

  /** The watch callbacks: `filename && filename.endsWith(".scss")` guards
      all work; a theme-folder change recompiles that theme only, a
      component change recompiles everything from a fresh listing. The
      result is the list of compile results produced. */
  function OnWatchEvent(env: Env, listing: seq<Dirent>, source: WatchSource, filename: Option<string>)
    : (rs: seq<CompileResult>)
    ensures !(filename.Some? && EndsWith(filename.value, ".scss")) ==> rs == []
    ensures filename.Some? && EndsWith(filename.value, ".scss") && source.ThemeDir? ==>
      rs == [CompileTheme(env, source.theme).result]
    ensures filename.Some? && EndsWith(filename.value, ".scss") && source.ComponentsDir? ==>
      rs == CompileAllThemes(env, listing).results && |rs| == |GetThemeFolders(listing)|
  {
    if filename.Some? && EndsWith(filename.value, ".scss") then
      match source
      case ThemeDir(theme) => [CompileTheme(env, theme).result]
      case ComponentsDir => CompileAllThemes(env, listing).results
    else []
  }
}
