# Warframe Market theme tooling, modelled in Dafny

This project models the three scripts of a small userstyle toolchain for
warframe.market:

- `utils/create-theme.js` scaffolds a new light/dark theme pair. It normalises
  the typed name to kebab case. It refuses a blank name or a name whose
  folders already exist. It renames the `.theme--<mode>--original` classes in
  the copied `_main.scss` files.
- `utils/build-themes.js` lists the theme folders and compiles each one's
  `_main.scss` with sass. It tallies the outcomes, splits the names into
  `light-` and `dark-` lists, and decides what a watched change recompiles.
- `utils/inject-theme-stylus.js` maps every compiled `.css` file to a theme
  name. It concatenates the files between a fixed `==UserStyle==` header and
  a `@-moz-document domain("warframe.market")` footer into `user-style.styl`.
  It rebuilds 200 ms after the last change to a watched file.

Modules, one per concern:

- `Wrappers` holds `Option`.
- `Text` holds `startsWith`, `endsWith` and `trim`.
- `KebabCase` is `toKebabCase`.
- `ClassRename` is the class substitution of `replaceThemeNameInFile`.
- `CreateTheme` covers the name prompt loop, the `themes/` file store and the
  class update of the new pair.
- `BuildThemes` covers folder listing, `compileTheme`, `compileAllThemes` and
  the watch callbacks.
- `InjectThemeStylus` covers the theme map, `buildStylusContent` and the
  debounce state machine (pure `Step`/`Run`).
- `StylusProcess` holds the `StylusSession` class. The class keeps the
  script's module-level state and has `readAllThemes`, `buildAndWrite`, the
  debounce and the watch callback.
- `Pipeline` holds one lemma connecting the generator to the batch compiler.

The outside world is passed in as parameters:

- the answers typed at the prompt, as a sequence;
- the directory listings, as sequences of names or `Dirent`s;
- the file contents, as a map from path to text;
- sass, as a function from entry file to `Css(text)` or `Threw(message)`;
- whether a file write throws, as a boolean or a function from path to error;
- time, as ticks of one millisecond.

## Model

| member | source | states |
|---|---|---|
| `KebabCase.ToKebabCase` | utils/create-theme.js:56-61 | Reference definition of `toKebabCase`: lowercase, collapse, trim dashes. It has no contract of its own; `KebabIsJoinedWords`, `KebabShape`, `KebabIdempotent` and `KebabFixedPoints` state its properties. |
| `KebabCase.KebabIsJoinedWords` | utils/create-theme.js:56-61 | The result is the maximal runs of `[a-z0-9]` in the lowercased input, joined with `-`. Every word is non-empty, so the result has no dash before the first word or after the last, and exactly one dash between two neighbouring words. |
| `KebabCase.HyphenateIsJoin` | utils/create-theme.js:59-60 | The two `replace` calls, applied to a lowercased string, give its words joined with `-`. |
| `KebabCase.CollapseSplit` | utils/create-theme.js:59 | A word, then a whole run of characters outside `[a-z0-9]`, then text that is empty or starts a word, becomes the word, one `-`, and the collapsed rest. |
| `KebabCase.KebabShape` | utils/create-theme.js:56-61 | The result uses only `a`-`z`, `0`-`9` and `-`. It never starts or ends with `-` and never contains `--`. Deleting its dashes gives exactly the letters and digits of the lowercased input, in order. |
| `KebabCase.LowerChar` | utils/create-theme.js:58 | Each of `A`-`Z` maps to the letter at the same position in `a`-`z`, and every other character is unchanged. After lowering, a character is in `[a-z0-9]` exactly when it was an ASCII letter or digit. |
| `KebabCase.Collapse` | utils/create-theme.js:59 | The output holds only `[a-z0-9]` and `-`, with no `--`. It is empty only for empty input. It starts with the input's first character when that is in `[a-z0-9]`, and with `-` otherwise. Its letters and digits are the input's, in order. Where the dashes go is stated by `CollapseSplit`. |
| `KebabCase.TrimLeadingDashes` | utils/create-theme.js:60 | The result is a suffix of the input that does not start with `-`. Only dashes were removed. |
| `KebabCase.TrimTrailingDashes` | utils/create-theme.js:60 | The result is a prefix of the input that does not end with `-`. Only dashes were removed. |
| `KebabCase.KebabIdempotent` | utils/create-theme.js:56-61 | Applying `toKebabCase` to its own output changes nothing. |
| `KebabCase.KebabFixedPoints` | utils/create-theme.js:56-61 | `toKebabCase(s) == s` holds exactly when `s` is kebab-shaped. |
| `KebabCase.KebabExampleEmpty` | utils/create-theme.js:56-61 | `toKebabCase("!!!")` is the empty string. |
| `Text.Trim` | utils/create-theme.js:97 | `trim()` leaves no JavaScript white space at either end. The result is empty exactly when the input is all white space. |
| `Text.TrimRemovesOuterSpace` | utils/create-theme.js:97 | The result is a contiguous slice of the input with only white space before it and only white space after it. |
| `ClassRename.MatchAt` | utils/create-theme.js:41 | Reports which of `.theme--light--<old>` and `.theme--dark--<old>` starts the text, if either does. No boundary is required after the name. |
| `ClassRename.Rename` | utils/create-theme.js:41-42 | Reference definition of the global replace, scanning left to right: an occurrence of `.theme--<mode>--<old>` becomes `.theme--<mode>--<new>`, and the scan resumes after it. It has no contract of its own; `RenameIsRetokenize`, `RenameToSameName`, `RenameWithoutOccurrence` and `RenameNoTrailingBoundary` state its properties. |
| `ClassRename.TokenizeRoundTrip` | utils/create-theme.js:41-42 | Splitting a text into plain characters and class tokens for the old name, then writing it back with the old name, gives the text unchanged. |
| `ClassRename.TokenizeMaximal` | utils/create-theme.js:41-42 | No plain character left by the scan starts an occurrence of the old class token, so every occurrence is replaced. |
| `ClassRename.RenameIsRetokenize` | utils/create-theme.js:41-42 | The global replace equals writing the same pieces back with the new name. Each token keeps its mode and every other character is unchanged. |
| `ClassRename.RenameToSameName` | utils/create-theme.js:41-42 | Renaming to the old name leaves any text unchanged. |
| `ClassRename.RenameWithoutOccurrence` | utils/create-theme.js:41-42 | Text with no occurrence of the old class token is returned unchanged. |
| `ClassRename.RenameNoTrailingBoundary` | utils/create-theme.js:41-42 | `.theme--light--originalX` becomes `.theme--light--oceanX`, because the pattern has no trailing boundary. |
| `CreateTheme.ThemeFolderInjective` | utils/create-theme.js:130-131 | `light-<name>` and `dark-<name>` never coincide. Two names never share a folder. |
| `CreateTheme.CheckName` | utils/create-theme.js:97-119 | An answer is refused as empty exactly when it is all white space. An accepted name is the trimmed answer in kebab case. |
| `CreateTheme.CheckNameMeaning` | utils/create-theme.js:97-119 | An all-white-space answer is refused as empty. Otherwise the trimmed answer in kebab case is refused when `light-<n>` or `dark-<n>` exists, reporting which one. It is accepted when neither exists, and an accepted name is kebab-shaped. |
| `CreateTheme.PunctuationOnlyAccepted` | utils/create-theme.js:97-102 | The answer `!!!` passes the emptiness check and is accepted with the empty name. |
| `CreateTheme.AskThemeName` | utils/create-theme.js:91-120 | The loop returns the first answer `CheckName` accepts, with its kebab name, and every earlier answer was refused. If none is accepted, the result is `None`. |
| `CreateTheme.ThemeStore.ReplaceThemeNameInFile` | utils/create-theme.js:37-54 | The result is true exactly when the file exists and the write succeeds. The file then holds the renamed text. On false, no file has changed. |
| `CreateTheme.ThemeStore.UpdateClassNames` | utils/create-theme.js:148-169 | Only `light-<n>/_main.scss` and `dark-<n>/_main.scss` may change, and only if they exist. Each is renamed from `original` to `<n>`. A failure on the light file does not stop the dark one. |
| `BuildThemes.GetThemeFolders` | utils/build-themes.js:24-29 | Returns exactly the names of directory entries. |
| `BuildThemes.GetThemeFoldersAppend` | utils/build-themes.js:24-29 | Listing order is kept. |
| `BuildThemes.WithPrefix` | utils/build-themes.js:77-78 | Returns exactly the themes that start with the prefix. |
| `BuildThemes.WithPrefixAppend` | utils/build-themes.js:77-78 | The prefix filter keeps order. |
| `BuildThemes.LightDarkDisjoint` | utils/build-themes.js:77-78 | No theme is in both the light and the dark list. |
| `BuildThemes.CompileTheme` | utils/build-themes.js:31-58 | The result carries the theme's name. It is skipped (failure without `error`) exactly when `themes/<n>/_main.scss` is missing. If the entry exists and sass throws, the error is sass's message and nothing is written. If sass returns CSS, the error is exactly the one the write throws, if any. Success means the entry exists, sass returned CSS, and that CSS was written to `compiled/<n>.css`. |
| `BuildThemes.CompileThemeIsLocal` | utils/build-themes.js:31-58 | A theme's result depends only on its own entry file, its compiler outcome and its output write. |
| `BuildThemes.SkippedIgnoresCompiler` | utils/build-themes.js:35-40 | Without `_main.scss`, the result is `{success: false, name}` whatever sass would do, so the compiler is not consulted. |
| `BuildThemes.TallyAddsUp` | utils/build-themes.js:102-103 | `successful + failed` equals the number of results. `failed` counts skipped themes plus themes that threw. |
| `BuildThemes.CompileAllThemes` | utils/build-themes.js:60-103 | There is one result per folder, in folder order, and result `i` is `compileTheme` of folder `i`. Every folder is compiled whatever its prefix and whatever failed before it. The light and dark lists are the prefix filters of the folders. |
| `BuildThemes.CompileAllTally` | utils/build-themes.js:100-103 | The summary counts add up to the number of themes. The skipped themes are exactly those without `_main.scss`. |
| `BuildThemes.Writes` | utils/build-themes.js:32-49 | A batch writes at most one file per theme. |
| `BuildThemes.WritesOne` | utils/build-themes.js:32-49 | A single theme writes its sass CSS to `compiled/<n>.css` exactly when it succeeds, and writes nothing when it fails. |
| `BuildThemes.WritesAppend` | utils/build-themes.js:60-103 | The writes of a batch are the writes of its first part followed by those of the rest. With `WritesOne`, they are the successful themes' output files with their CSS, in folder order. |
| `BuildThemes.WritesMatchSuccesses` | utils/build-themes.js:49 | One output file is written per successful theme. |
| `BuildThemes.WatchedSources` | utils/build-themes.js:125-147 | There is exactly one watcher per theme folder found at start-up, in listing order, then one on `components/` exactly when it exists, and nothing else. |
| `BuildThemes.OnWatchEvent` | utils/build-themes.js:130-155 | Only a filename ending in `.scss` triggers work. A theme-folder change recompiles only that theme, and a component change recompiles all themes. |
| `InjectThemeStylus.Assign` | utils/inject-theme-stylus.js:13 | Reference definition of `obj[key] = value` on an insertion-ordered object. It has no contract of its own; `AssignNewKey`, `AssignExistingKey` and `AssignKeepsKeysDistinct` state its properties. |
| `InjectThemeStylus.AssignNewKey` | utils/inject-theme-stylus.js:13 | Assigning a key the object does not have appends the entry at the end. |
| `InjectThemeStylus.AssignExistingKey` | utils/inject-theme-stylus.js:13 | Assigning a key the object has keeps its position and replaces its value. Every other entry is unchanged. |
| `InjectThemeStylus.AssignKeepsKeysDistinct` | utils/inject-theme-stylus.js:13 | Assigning keeps the keys distinct. Assigning an existing key leaves the key order as it was. |
| `InjectThemeStylus.MapTestRedundant` | utils/inject-theme-stylus.js:10 | The `!endsWith(".map")` test excludes nothing beyond the `.css` test. |
| `InjectThemeStylus.ThemeMap` | utils/inject-theme-stylus.js:8-14 | Reference definition of the `themes` object after the `forEach` over the listing. It has no contract of its own; `ThemeMapContents` and `ThemeMapAppend` state its properties. |
| `InjectThemeStylus.ThemeMapContents` | utils/inject-theme-stylus.js:8-14 | Keys are distinct. `k` is a key exactly when `k.css` is in the compiled listing, and key `k` maps to `compiled/k.css`. |
| `InjectThemeStylus.ThemeMapAppend` | utils/inject-theme-stylus.js:8-14 | A new `.css` file adds its entry at the end, so the map follows listing order. |
| `InjectThemeStylus.CollectThemes` | utils/inject-theme-stylus.js:8-14 | The `forEach` loop builds exactly the theme map of the listing. |
| `InjectThemeStylus.StylusContent` | utils/inject-theme-stylus.js:22-44 | Reference definition of the composed file: header, blocks, footer. It has no contract of its own; `StylusContentLayout` and `StylusContentEmpty` state its properties, and `BuildStylusContent` is proved equal to it. |
| `InjectThemeStylus.BuildStylusContent` | utils/inject-theme-stylus.js:22-44 | The loop's output is the header, then one block per theme in order, then the footer. |
| `InjectThemeStylus.BlocksAppend` | utils/inject-theme-stylus.js:34-36 | The blocks of concatenated contents are the blocks of each part, one after the other. |
| `InjectThemeStylus.StylusContentLayout` | utils/inject-theme-stylus.js:22-44 | Theme `i` appears as `/* Theme: <name> */\n\n<css>\n\n`, with the CSS verbatim. It sits between the header plus the blocks before it and the blocks after it plus the footer. |
| `InjectThemeStylus.StylusContentEmpty` | utils/inject-theme-stylus.js:22-44 | With no themes, the output is the header followed by the footer. |
| `InjectThemeStylus.Step` | utils/inject-theme-stylus.js:69-78 | Reference definition of the timer transition. Its contract states that a call arms a timer for now + 200, replacing any pending one, that a build is counted only when a pending timer fires and leaves the timer null, and that the timer invariant is preserved; `TicksWhilePending` and `BurstBuildsOnce` state when it fires. |
| `InjectThemeStylus.BuildsBoundedByChanges` | utils/inject-theme-stylus.js:69-78 | Over any run, builds done plus the one still pending never exceed the starting count plus the number of calls. |
| `InjectThemeStylus.TicksWhilePending` | utils/inject-theme-stylus.js:74-77 | Nothing fires before the deadline. At the deadline exactly one build runs and the timer becomes null. |
| `InjectThemeStylus.BurstBuildsOnce` | utils/inject-theme-stylus.js:70-78 | Calls each less than 200 ticks apart, then 200 quiet ticks, give exactly one build and leave the timer null. |
| `StylusProcess.StylusSession.constructor` | utils/inject-theme-stylus.js:8-14 | Fills `themes` from the compiled listing and runs the initial build. The process stops when a theme file cannot be read. |
| `StylusProcess.StylusSession.ReadAllThemes` | utils/inject-theme-stylus.js:53-59 | The result has the same keys in the same order as `themes`, each holding its file's contents. It is `None` exactly when some file is missing. |
| `StylusProcess.StylusSession.BuildAndWrite` | utils/inject-theme-stylus.js:62-66 | Appends exactly the composed content to the written file when every theme is readable. Otherwise nothing is written. |
| `StylusProcess.StylusSession.DebouncedBuildAndWrite` | utils/inject-theme-stylus.js:69-78 | The session's state moves by `Step(_, Change)`: any pending timer is dropped and one fires 200 ticks from now. |
| `StylusProcess.StylusSession.OnFileChanged` | utils/inject-theme-stylus.js:81-85 | A change to a theme map file re-arms the debounce. Any other path changes nothing. |
| `StylusProcess.StylusSession.Elapse` | utils/inject-theme-stylus.js:74-77 | One tick moves the state by `Step(_, Tick)`. A due timer writes the composed content and is reset to null. If the build throws, the process ends with the timer still set and nothing written. |
| `Pipeline.ScaffoldedPairIsClassified` | utils/build-themes.js:77-78 | The generated `light-<n>` folder is listed only as a light theme. The `dark-<n>` folder is listed only as a dark theme. |

## Left out

- I/O plumbing is not modelled. This covers `copyFolderSync`, the `readline`
  prompts, coloured console output, `process.exit`, the check that
  `light-original` and `dark-original` exist (utils/create-theme.js:133-139),
  the outer `catch` of `main`, and the `mkdirSync` of `compiled/`.
- Watcher plumbing is not modelled: `fs.watch` recursion and `fs.watchFile`
  polling every 500 ms. A watch event is an input to `OnWatchEvent` or
  `OnFileChanged`.
- `sass.compile` is a foreign library. It is an uninterpreted function from
  entry file to CSS or thrown message, and its options are not modelled.
- The root-level `build-themes.js` duplicates the batch logic. Its
  `compileTheme` returns nothing, and it also writes a source map, so it is
  not part of this model.
- `KebabCase.LowerChar`: lowercasing is ASCII only. A few non-ASCII
  characters lowercase to ASCII letters in JavaScript (the Kelvin sign, the
  dotted capital I), and the model does not cover them.
- `ClassRename.Rename`: the old name is matched literally. The source builds
  a regular expression from it, which behaves the same only when the name
  has no metacharacters. The one call site passes `original`, which has
  none. `$` sequences in the new name would be read as replacement patterns
  in JavaScript, and kebab names never contain `$`.
- `CreateTheme.ThemeStore.ReplaceThemeNameInFile`: a write is modelled as
  atomic, so a failed call leaves every file unchanged. A `writeFileSync`
  that fails part way can leave the file truncated or partly written, and
  the model does not cover that.
- `BuildThemes.WritesOne`: output writes of `CompileTheme` are modelled as
  atomic, so a failed theme writes nothing. A `writeFileSync` of
  `compiled/<n>.css` that fails after truncating the file leaves it empty or
  partly written, and the model does not cover that.
- `BuildThemes.CompileTheme`: the same atomic-write assumption; `written`
  is `None` whenever the write throws.
- `CreateTheme.AskThemeName`: the answers are a finite sequence, and running
  out of answers gives `None`. The source prompts forever.
- `readdirSync` throwing when `themes/` or `compiled/` is missing is not
  modelled. The listings are given.
- `StylusProcess.StylusSession.BuildAndWrite`: writing
  `user-style.styl` is assumed to succeed. The log line of `writeStylus` is
  not modelled.
- Objects are insertion-ordered sequences of pairs. JavaScript would list
  integer-like keys first. Assigning the key `__proto__` in JavaScript calls
  the prototype setter and creates no key, so a compiled `__proto__.css` is
  dropped by the script but is an entry of `InjectThemeStylus.ThemeMap`.
