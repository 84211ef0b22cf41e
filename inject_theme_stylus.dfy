/** The userstyle writer (utils/inject-theme-stylus.js): it collects the
    compiled CSS files into a theme map, concatenates their contents between a
    fixed header and footer into `user-style.styl`, and rebuilds 200 ms after
    the last change to a watched file. JavaScript objects are modelled as
    insertion-ordered sequences of (key, value) pairs; time is counted in
    ticks of one millisecond. */
module InjectThemeStylus {
  import opened Wrappers
  import opened Text

  /** A JavaScript object with string keys, in insertion order. */
  type Entries = seq<(string, string)>

  function Keys(es: Entries): (ks: seq<string>)
    ensures |ks| == |es| && forall i :: 0 <= i < |es| ==> ks[i] == es[i].0
  {
    seq(|es|, i requires 0 <= i < |es| => es[i].0)
  }

  predicate DistinctKeys(es: Entries)
  {
    forall i, j :: 0 <= i < j < |es| ==> es[i].0 != es[j].0
  }

  /** `obj[key] = value`. */
  function Assign(es: Entries, key: string, value: string): Entries
  {
    if es == [] then [(key, value)]
    else if es[0].0 == key then [(key, value)] + es[1..]
    else [es[0]] + Assign(es[1..], key, value)
  }

  /** A key the object does not have yet is added at the end. */
  lemma {:induction false} AssignNewKey(es: Entries, key: string, value: string)
    requires key !in Keys(es)
    ensures Assign(es, key, value) == es + [(key, value)]
  {
    if es != [] {
      assert es[0].0 == Keys(es)[0];
      assert Keys(es[1..]) == Keys(es)[1..];
      AssignNewKey(es[1..], key, value);
      assert es + [(key, value)] == [es[0]] + (es[1..] + [(key, value)]);
    }
  }

  /** A key the object already has keeps its place and gets the new value;
      every other entry is left as it was. */
  lemma {:induction false} AssignExistingKey(es: Entries, key: string, value: string)
    requires DistinctKeys(es) && key in Keys(es)
    ensures |Assign(es, key, value)| == |es|
    ensures forall i :: 0 <= i < |es| ==>
      Assign(es, key, value)[i] == if es[i].0 == key then (key, value) else es[i]
  {
    var r := Assign(es, key, value);
    if es[0].0 == key {
      forall i | 1 <= i < |es|
        ensures es[i].0 != key
      {
        assert es[0].0 != es[i].0;
      }
    } else {
      var tail := es[1..];
      assert Keys(tail) == Keys(es)[1..];
      AssignExistingKey(tail, key, value);
      var rest := Assign(tail, key, value);
      assert r == [es[0]] + rest;
      forall i | 1 <= i < |es|
        ensures r[i] == if es[i].0 == key then (key, value) else es[i]
      {
        assert r[i] == rest[i - 1] && tail[i - 1] == es[i];
      }
    }
  }

  /** Assigning keeps the keys distinct, as they are in a JavaScript object,
      and leaves the keys of an existing entry where they were. */
  lemma {:induction false} AssignKeepsKeysDistinct(es: Entries, key: string, value: string)
    requires DistinctKeys(es)
    ensures DistinctKeys(Assign(es, key, value))
    ensures key in Keys(es) ==> Keys(Assign(es, key, value)) == Keys(es)
  {
    if key in Keys(es) {
      AssignExistingKey(es, key, value);
      assert Keys(Assign(es, key, value)) == Keys(es);
    } else {
      AssignNewKey(es, key, value);
    }
  }

  /** The `.css`/`.map` filter applied to the compiled listing. */
  predicate IsThemeFile(file: string)
  {
    EndsWith(file, ".css") && !EndsWith(file, ".map")
  }

  /** A name ending in `.css` never ends in `.map`: the second test of the
      filter excludes nothing. */
  lemma MapTestRedundant(file: string)
    ensures IsThemeFile(file) <==> EndsWith(file, ".css")
  {
    if EndsWith(file, ".css") {
      assert file[|file| - 1] == 's';
    }
  }

  /** `path.basename(file, ".css")` for a bare file name. */
  function ThemeName(file: string): string
    requires EndsWith(file, ".css")
  {
    file[..|file| - 4]
  }

  /** `path.join(compiledDir, file)`. */
  function CompiledPath(file: string): string
  {
    "compiled/" + file
  }

  /** The `themes` object after `forEach` has run over the first files of the
      listing. */
  function ThemeMap(files: seq<string>): Entries
  {
    if files == [] then []
    else
      var prev := ThemeMap(files[..|files| - 1]);
      var file := files[|files| - 1];
      if IsThemeFile(file) then Assign(prev, ThemeName(file), CompiledPath(file)) else prev
  }

  /** The theme map has one key per `.css` file, its name without the
      extension, and each key points at that file under `compiled/`. */
  lemma {:induction false} ThemeMapContents(files: seq<string>)
    ensures DistinctKeys(ThemeMap(files))
    ensures forall k :: k in Keys(ThemeMap(files)) <==> k + ".css" in files
    ensures forall e :: e in ThemeMap(files) ==> e.1 == CompiledPath(e.0 + ".css")
  {
    if files != [] {
      var init := files[..|files| - 1];
      var file := files[|files| - 1];
      ThemeMapContents(init);
      assert files == init + [file];
      var prev := ThemeMap(init);
      if IsThemeFile(file) {
        var name := ThemeName(file);
        assert name + ".css" == file;
        AssignKeepsKeysDistinct(prev, name, CompiledPath(file));
        var r := ThemeMap(files);
        if name in Keys(prev) {
          AssignExistingKey(prev, name, CompiledPath(file));
        } else {
          AssignNewKey(prev, name, CompiledPath(file));
        }
        forall k
          ensures k in Keys(r) <==> k + ".css" in files
        {
          assert (k + ".css")[..|k + ".css"| - 4] == k;
          if name !in Keys(prev) {
            assert Keys(r) == Keys(prev) + [name];
          }
        }
        forall e | e in r
          ensures e.1 == CompiledPath(e.0 + ".css")
        {
          var i :| 0 <= i < |r| && r[i] == e;
        }
      } else {
        forall k
          ensures k + ".css" != file
        {
          assert EndsWith(k + ".css", ".css");
          MapTestRedundant(k + ".css");
        }
      }
    }
  }

  /** Listing order is kept: a `.css` file whose name is new adds its entry
      at the end. */
  lemma {:induction false} ThemeMapAppend(files: seq<string>, file: string)
    requires EndsWith(file, ".css") && file !in files
    ensures ThemeMap(files + [file]) == ThemeMap(files) + [(ThemeName(file), CompiledPath(file))]
  {
    var all := files + [file];
    assert all[..|all| - 1] == files;
    MapTestRedundant(file);
    ThemeMapContents(files);
    assert ThemeName(file) + ".css" == file;
    AssignNewKey(ThemeMap(files), ThemeName(file), CompiledPath(file));
  }

  /** The `forEach` that builds the theme map from the compiled folder's
      listing. */
  method CollectThemes(files: seq<string>) returns (themes: Entries)
    ensures themes == ThemeMap(files)
  {
    themes := [];
    for i := 0 to |files|
      invariant themes == ThemeMap(files[..i])
    {
      var file := files[i];
      assert files[..i + 1][..i] == files[..i];
      if EndsWith(file, ".css") && !EndsWith(file, ".map") {
        var themeName := file[..|file| - 4];
        themes := Assign(themes, themeName, CompiledPath(file));
      }
    }
    assert files[..|files|] == files;
  }

  const Header := "/* ==UserStyle==\n@name           Warframe Market live theme updater\n@namespace      github.com/openstyles/stylus\n@version        1.0.0\n@description    Live update user CSS themes from Sass watch.\n@author         EroiiKZz\n==/UserStyle== */\n\n"

  const Footer := "@-moz-document domain(\"warframe.market\") {\n  /* Custom rules */\n}\n"

  /** The banner and CSS of one theme. */
  function Block(name: string, css: string): string
  {
    "/* Theme: " + name + " */\n\n" + css + "\n\n"
  }

  /** The blocks of all themes, in the object's iteration order. */
  function Blocks(themeContents: Entries): string
  {
    if themeContents == [] then []
    else
      var last := themeContents[|themeContents| - 1];
      Blocks(themeContents[..|themeContents| - 1]) + Block(last.0, last.1)
  }

  /** The whole `user-style.styl` text for the given contents. */
  function StylusContent(themeContents: Entries): string
  {
    Header + Blocks(themeContents) + Footer
  }

  /** `buildStylusContent`: the loop appends one block per theme. */
  method BuildStylusContent(themeContents: Entries) returns (content: string)
    ensures content == StylusContent(themeContents)
  {
    content := Header;
    assert themeContents[..0] == [];
    ConcatEmpty(Header);
    for i := 0 to |themeContents|
      invariant content == Header + Blocks(themeContents[..i])
    {
      var themeName := themeContents[i].0;
      var css := themeContents[i].1;
      SplitAt(themeContents, i);
      ConcatAssoc(Header, Blocks(themeContents[..i]), Block(themeName, css));
      content := content + ("/* Theme: " + themeName + " */\n\n" + css + "\n\n");
    }
    assert themeContents[..|themeContents|] == themeContents;
    content := content + Footer;
  }

  lemma {:induction false} BlocksAppend(a: Entries, b: Entries)
    ensures Blocks(a + b) == Blocks(a) + Blocks(b)
    decreases |b|
  {
    if b == [] {
      assert a + b == a;
    } else {
      var ab := a + b;
      var front := b[..|b| - 1];
      var last := b[|b| - 1];
      AppendDropLast(a, b);
      BlocksAppend(a, front);
      calc {
        Blocks(ab);
        Blocks(a + front) + Block(last.0, last.1);
        (Blocks(a) + Blocks(front)) + Block(last.0, last.1);
        Blocks(a) + (Blocks(front) + Block(last.0, last.1));
      }
    }
  }

  /** The last entry of `a + b` is the last of `b`, and the rest is `a`
      followed by the rest of `b`. */
  lemma AppendDropLast(a: Entries, b: Entries)
    requires b != []
    ensures (a + b)[..|a + b| - 1] == a + b[..|b| - 1]
    ensures (a + b)[|a + b| - 1] == b[|b| - 1]
  {
  }

  /** The output is the header, then each theme's banner and its CSS text
      exactly as read, in order, then the footer. */
  lemma {:induction false} StylusContentLayout(themeContents: Entries, i: nat)
    requires i < |themeContents|
    ensures StylusContent(themeContents) ==
      Header + Blocks(themeContents[..i])
      + Block(themeContents[i].0, themeContents[i].1)
      + Blocks(themeContents[i + 1..]) + Footer
  {
    var t := themeContents;
    BlocksSplit(t, i);
    var front, one := Blocks(t[..i]), Block(t[i].0, t[i].1);
    ConcatAssoc(Header, front, one);
    ConcatAssoc(Header, front + one, Blocks(t[i + 1..]));
  }

  lemma {:induction false} BlocksSplit(t: Entries, i: nat)
    requires i < |t|
    ensures Blocks(t) == Blocks(t[..i]) + Block(t[i].0, t[i].1) + Blocks(t[i + 1..])
  {
    SplitAt(t, i);
    BlocksAppend(t[..i + 1], t[i + 1..]);
  }

  /** Cutting `t` after its `i`th entry. */
  lemma SplitAt(t: Entries, i: nat)
    requires i < |t|
    ensures t[..i + 1] + t[i + 1..] == t
    ensures t[..i + 1][..i] == t[..i] && t[..i + 1][i] == t[i]
  {
  }

  /** With no themes the output is the header followed by the footer. */
  lemma StylusContentEmpty()
    ensures StylusContent([]) == Header + Footer
  {
    ConcatEmpty(Header);
  }

  /** Every path of the theme map names an existing file. */
  predicate AllReadable(themes: Entries, disk: map<string, string>)
  {
    forall i :: 0 <= i < |themes| ==> themes[i].1 in disk
  }

  /** The `{ themeName: cssContent }` object `readAllThemes` returns. */
  function ThemeContents(themes: Entries, disk: map<string, string>): Entries
    requires AllReadable(themes, disk)
  {
    seq(|themes|, i requires 0 <= i < |themes| => (themes[i].0, disk[themes[i].1]))
  }

  /** The debounce delay, in ticks. */
  const Delay: nat := 200

  /** `debounceTimer`: null, or a pending timer with the tick it fires at. */
  datatype Timer = Idle | Pending(deadline: nat)

  /** The debounce state: the current tick, the timer, and how many times a
      timer has fired and run `buildAndWrite`. */
  datatype Clock = Clock(now: nat, timer: Timer, builds: nat)

  /** A pending timer fires after the current tick and at most `Delay`
      ticks from now. */
  predicate ClockValid(c: Clock)
  {
    c.timer.Pending? ==> c.now < c.timer.deadline <= c.now + Delay
  }

  datatype Event = Change | Tick

  /** `debouncedBuildAndWrite()` (a change) or the passing of one tick,
      which fires a due timer: the build runs and the timer goes back to
      null. */
  function Step(c: Clock, e: Event): (r: Clock)
    ensures ClockValid(c) ==> ClockValid(r)
    ensures e == Change ==> r.timer == Pending(c.now + Delay) && r.builds == c.builds
    ensures r.builds == c.builds || (r.builds == c.builds + 1 && r.timer == Idle && c.timer.Pending?)
  {
    match e
    case Change => c.(timer := Pending(c.now + Delay))
    case Tick =>
      if c.timer.Pending? && c.timer.deadline <= c.now + 1 then Clock(c.now + 1, Idle, c.builds + 1)
      else c.(now := c.now + 1)
  }

  function Run(c: Clock, events: seq<Event>): Clock
    decreases |events|
  {
    if events == [] then c else Run(Step(c, events[0]), events[1..])
  }

  lemma {:induction false} RunAppend(c: Clock, a: seq<Event>, b: seq<Event>)
    ensures Run(c, a + b) == Run(Run(c, a), b)
    decreases |a|
  {
    if a == [] {
      assert a + b == b;
    } else {
      assert (a + b)[1..] == a[1..] + b;
      RunAppend(Step(c, a[0]), a[1..], b);
    }
  }

  function Ticks(n: nat): seq<Event>
  {
    seq(n, _ => Tick)
  }

  function CountChanges(events: seq<Event>): nat
  {
    if events == [] then 0 else (if events[0] == Change then 1 else 0) + CountChanges(events[1..])
  }

  /** A timer that is still pending stands for one build to come. */
  function PendingBuilds(c: Clock): nat
  {
    if c.timer.Pending? then 1 else 0
  }

  /** At most one timer is ever pending, so over any run the builds done
      plus the one still pending never exceed those at the start plus the
      number of changes. */
  lemma {:induction false} BuildsBoundedByChanges(c: Clock, events: seq<Event>)
    ensures Run(c, events).builds + PendingBuilds(Run(c, events))
      <= c.builds + PendingBuilds(c) + CountChanges(events)
    decreases |events|
  {
    if events != [] {
      BuildsBoundedByChanges(Step(c, events[0]), events[1..]);
    }
  }

  /** Ticks with a timer pending: nothing happens before the deadline, and
      at the deadline the build runs once and the timer becomes null. */
  lemma {:induction false} TicksWhilePending(c: Clock, n: nat)
    requires c.timer.Pending? && c.now < c.timer.deadline
    ensures c.now + n < c.timer.deadline ==> Run(c, Ticks(n)) == c.(now := c.now + n)
    ensures c.timer.deadline <= c.now + n ==> Run(c, Ticks(n)) == Clock(c.now + n, Idle, c.builds + 1)
    decreases n
  {
    if n > 0 {
      var first := Step(c, Tick);
      assert Ticks(n)[1..] == Ticks(n - 1);
      if c.timer.deadline <= c.now + 1 {
        IdleTicks(first, n - 1);
      } else {
        TicksWhilePending(first, n - 1);
      }
    }
  }

  /** With no timer pending, ticks only advance time. */
  lemma {:induction false} IdleTicks(c: Clock, n: nat)
    requires c.timer == Idle
    ensures Run(c, Ticks(n)) == c.(now := c.now + n)
    decreases n
  {
    if n > 0 {
      assert Ticks(n)[1..] == Ticks(n - 1);
      IdleTicks(Step(c, Tick), n - 1);
    }
  }

  /** A burst: a change, then `gaps[0]` ticks, another change, and so on. */
  function Burst(gaps: seq<nat>): seq<Event>
  {
    if gaps == [] then [] else [Change] + Ticks(gaps[0]) + Burst(gaps[1..])
  }

  function Sum(gaps: seq<nat>): nat
  {
    if gaps == [] then 0 else gaps[0] + Sum(gaps[1..])
  }

  /** Changes that each come less than `Delay` ticks after the one before,
      followed by `Delay` quiet ticks or more, give exactly one build, and the
      timer is null afterwards. A timer pending before the burst is cancelled
      by its first change. */
  lemma {:induction false} BurstBuildsOnce(c: Clock, gaps: seq<nat>)
    requires |gaps| >= 1
    requires forall i :: 0 <= i < |gaps| - 1 ==> gaps[i] < Delay
    requires gaps[|gaps| - 1] >= Delay
    ensures Run(c, Burst(gaps)) == Clock(c.now + Sum(gaps), Idle, c.builds + 1)
    decreases |gaps|
  {
    var armed := Step(c, Change);
    var ticks := Ticks(gaps[0]);
    var rest := gaps[1..];
    assert Burst(gaps) == [Change] + (ticks + Burst(rest));
    RunAppend(armed, ticks, Burst(rest));
    TicksWhilePending(armed, gaps[0]);
    if |gaps| == 1 {
      assert Burst(rest) == [];
    } else {
      BurstBuildsOnce(Run(armed, ticks), rest);
    }
  }
}
