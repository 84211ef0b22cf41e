/** The running userstyle writer (utils/inject-theme-stylus.js): the
    module-level state of the script and the functions that change it. The
    pure parts it uses (theme map, file content, debounce clock) are in
    `InjectThemeStylus`. */
module StylusProcess {
  import opened Wrappers
  import opened InjectThemeStylus

  /** The process around `user-style.styl`: the module-level `themes`
      object and `debounceTimer`, the clock, and the successive contents
      written to the file. */
  class StylusSession {
    var themes: Entries
    var timer: Timer
    var now: nat
    var written: seq<string>
    /** An exception escaped `buildAndWrite` and ended the process. */
    var crashed: bool

    ghost predicate Valid()
      reads this
    {
      DistinctKeys(themes) && ClockValid(State())
    }

    function State(): Clock
      reads this
    {
      Clock(now, timer, |written|)
    }

    /** Loading the script: fill `themes` from the compiled folder's
        listing, then run the initial build. A file that cannot be read
        makes the initial build throw and the process end. */
    constructor (files: seq<string>, disk: map<string, string>)
      ensures themes == ThemeMap(files)
      ensures timer == Idle && now == 0
      ensures crashed <==> !AllReadable(themes, disk)
      ensures written == if crashed then [] else [StylusContent(ThemeContents(themes, disk))]
      ensures !crashed ==> Valid()
    {
      var collected := CollectThemes(files);
      themes := collected;
      timer := Idle;
      now := 0;
      written := [];
      crashed := false;
      new;
      ThemeMapContents(files);
      var ok := BuildAndWrite(disk);
      crashed := !ok;
    }

    /** `readAllThemes`: one entry per theme, same keys in the same order,
        each holding its file's contents; `None` when a read throws. */
    method ReadAllThemes(disk: map<string, string>) returns (r: Option<Entries>)
      requires DistinctKeys(themes)
      ensures r.Some? <==> AllReadable(themes, disk)
      ensures r.Some? ==> Keys(r.value) == Keys(themes)
      ensures r.Some? ==> forall i :: 0 <= i < |themes| ==> r.value[i].1 == disk[themes[i].1]
      ensures r.Some? ==> r.value == ThemeContents(themes, disk)
    {
      var themeContents: Entries := [];
      for i := 0 to |themes|
        invariant AllReadable(themes[..i], disk)
        invariant themeContents == ThemeContents(themes[..i], disk)
      {
        var name := themes[i].0;
        var filePath := themes[i].1;
        if filePath !in disk {
          return None;
        }
        assert Keys(themeContents) == Keys(themes[..i]);
        assert name !in Keys(themeContents);
        AssignNewKey(themeContents, name, disk[filePath]);
        themeContents := Assign(themeContents, name, disk[filePath]);
      }
      assert themes[..|themes|] == themes;
      return Some(themeContents);
    }

    /** `buildAndWrite`: read every theme, compose, and write the file.
        A read failure throws before anything is written. */
    method BuildAndWrite(disk: map<string, string>) returns (ok: bool)
      requires DistinctKeys(themes)
      modifies this
      ensures ok <==> AllReadable(themes, disk)
      ensures written == old(written) + if ok then [StylusContent(ThemeContents(themes, disk))] else []
      ensures themes == old(themes) && timer == old(timer) && now == old(now) && crashed == old(crashed)
    {
      var themeContents := ReadAllThemes(disk);
      if themeContents.None? {
        return false;
      }
      var stylusContent := BuildStylusContent(themeContents.value);
      written := written + [stylusContent];
      return true;
    }

    /** `debouncedBuildAndWrite`: clear any pending timer and arm a new one
        `Delay` ticks ahead. */
    method DebouncedBuildAndWrite()
      requires Valid() && !crashed
      modifies this
      ensures Valid()
      ensures State() == Step(old(State()), Change)
      ensures themes == old(themes) && written == old(written) && !crashed
    {
      timer := Pending(now + Delay);
    }

    /** The `watchFile` callback: only the compiled files in the theme map
        are watched. */
    method OnFileChanged(path: string)
      requires Valid() && !crashed
      modifies this
      ensures Valid() && !crashed && themes == old(themes) && written == old(written)
      ensures (exists i :: 0 <= i < |themes| && themes[i].1 == path)
        ==> State() == Step(old(State()), Change)
      ensures (forall i :: 0 <= i < |themes| ==> themes[i].1 != path)
        ==> State() == old(State())
    {
      var watched := false;
      for i := 0 to |themes|
        invariant watched <==> exists j :: 0 <= j < i && themes[j].1 == path
      {
        if themes[i].1 == path {
          watched := true;
        }
      }
      if watched {
        DebouncedBuildAndWrite();
      }
    }

    /** One tick passes. A due timer fires: `buildAndWrite` runs and then the
        timer is set back to null. If the build throws, nothing catches it:
        the process ends with the timer still set. */
    method Elapse(disk: map<string, string>)
      requires Valid() && !crashed
      modifies this
      ensures themes == old(themes)
      ensures !crashed ==> Valid() && State() == Step(old(State()), Tick)
      ensures !crashed && old(timer).Pending? && old(timer).deadline <= old(now) + 1 ==>
        AllReadable(themes, disk) && written == old(written) + [StylusContent(ThemeContents(themes, disk))]
      ensures !(old(timer).Pending? && old(timer).deadline <= old(now) + 1) ==> written == old(written)
      ensures crashed <==> old(timer).Pending? && old(timer).deadline <= old(now) + 1 && !AllReadable(themes, disk)
      ensures crashed ==> written == old(written) && timer == old(timer)
    {
      now := now + 1;
      if timer.Pending? && timer.deadline <= now {
        var ok := BuildAndWrite(disk);
        if ok {
          timer := Idle;
        } else {
          crashed := true;
        }
      }
    }
  }
}
