/** `toKebabCase` (utils/create-theme.js): lowercase the input, replace every
    run of characters outside `[a-z0-9]` by one `-`, then strip the leading
    and trailing `-`. The three steps are the three functions below; the
    properties of the composition are stated in `KebabShape` and in the
    lemmas at the end. */
module KebabCase {

  /** A character the pattern `[^a-z0-9]` does not match. */
  predicate IsWordChar(c: char)
  {
    ('a' <= c <= 'z') || ('0' <= c <= '9')
  }

  /** `toLowerCase` restricted to ASCII: `A`-`Z` become `a`-`z`. */
  function LowerChar(c: char): (d: char)
    ensures IsWordChar(d) <==> IsWordChar(c) || ('A' <= c <= 'Z')
    ensures !('A' <= c <= 'Z') ==> d == c
    ensures 'A' <= c <= 'Z' ==> 'a' <= d <= 'z' && d as int - 'a' as int == c as int - 'A' as int
  {
    if 'A' <= c <= 'Z' then (c as int - 'A' as int + 'a' as int) as char else c
  }

  function Lower(s: string): (r: string)
    ensures |r| == |s| && forall i :: 0 <= i < |s| ==> r[i] == LowerChar(s[i])
  {
    seq(|s|, i requires 0 <= i < |s| => LowerChar(s[i]))
  }

  /** The word characters of `s`, in order. */
  function Alnums(s: string): string
  {
    if s == [] then [] else (if IsWordChar(s[0]) then [s[0]] else []) + Alnums(s[1..])
  }

  /** `s` with every `-` deleted. */
  function RemoveDashes(s: string): string
  {
    if s == [] then [] else (if s[0] == '-' then [] else [s[0]]) + RemoveDashes(s[1..])
  }

  predicate DashOrWord(s: string)
  {
    forall i :: 0 <= i < |s| ==> IsWordChar(s[i]) || s[i] == '-'
  }

  predicate NoDoubleDash(s: string)
  {
    forall i :: 0 <= i < |s| - 1 ==> !(s[i] == '-' && s[i + 1] == '-')
  }

  /** The shape every result of `toKebabCase` has. */
  predicate IsKebab(s: string)
  {
    && DashOrWord(s)
    && NoDoubleDash(s)
    && (s != [] ==> s[0] != '-' && s[|s| - 1] != '-')
  }

  /** The rest of `s` after the run of non-word characters it starts with. */
  function DropRun(s: string): (r: string)
    ensures |r| <= |s| && r == s[|s| - |r|..]
    ensures r == [] || IsWordChar(r[0])
    ensures Alnums(r) == Alnums(s)
  {
    if s != [] && !IsWordChar(s[0]) then DropRun(s[1..]) else s
  }

  /** `.replace(/[^a-z0-9]+/g, "-")`: each maximal run of non-word characters
      becomes a single dash, and the word characters are kept in order. */
  function Collapse(s: string): (r: string)
    decreases |s|
    ensures DashOrWord(r) && NoDoubleDash(r)
    ensures s == [] <==> r == []
    ensures s != [] ==> (if IsWordChar(s[0]) then r[0] == s[0] else r[0] == '-')
    ensures Alnums(r) == Alnums(s)
  {
    if s == [] then []
    else if IsWordChar(s[0]) then
      var r := [s[0]] + Collapse(s[1..]);
      assert r[1..] == Collapse(s[1..]);
      r
    else
      var t := DropRun(s[1..]);
      var r := "-" + Collapse(t);
      assert r[1..] == Collapse(t);
      r
  }

  /** The `^-+` half of `.replace(/^-+|-+$/g, "")`. */
  function TrimLeadingDashes(s: string): (r: string)
    ensures |r| <= |s| && r == s[|s| - |r|..]
    ensures r == [] || r[0] != '-'
    ensures RemoveDashes(r) == RemoveDashes(s)
  {
    if s != [] && s[0] == '-' then TrimLeadingDashes(s[1..]) else s
  }

  /** The `-+$` half of `.replace(/^-+|-+$/g, "")`. */
  function TrimTrailingDashes(s: string): (r: string)
    ensures |r| <= |s| && r == s[..|r|]
    ensures r == [] || r[|r| - 1] != '-'
    ensures RemoveDashes(r) == RemoveDashes(s)
  {
    if s != [] && s[|s| - 1] == '-' then
      RemoveDashesAppend(s[..|s| - 1], "-");
      assert s[..|s| - 1] + "-" == s;
      TrimTrailingDashes(s[..|s| - 1])
    else s
  }

  lemma {:induction false} RemoveDashesAppend(a: string, b: string)
    ensures RemoveDashes(a + b) == RemoveDashes(a) + RemoveDashes(b)
  {
    if a == [] {
      assert a + b == b;
    } else {
      assert (a + b)[1..] == a[1..] + b;
      RemoveDashesAppend(a[1..], b);
    }
  }

  /** On a string of dashes and word characters, deleting the dashes leaves
      exactly the word characters. */
  lemma {:induction false} RemoveDashesIsAlnums(s: string)
    requires DashOrWord(s)
    ensures RemoveDashes(s) == Alnums(s)
  {
    if s != [] {
      RemoveDashesIsAlnums(s[1..]);
    }
  }

  /** The two `replace` calls of `toKebabCase`, applied to an already
      lowercased string. */
  function Hyphenate(s: string): string
  {
    TrimTrailingDashes(TrimLeadingDashes(Collapse(s)))
  }

  /** `toKebabCase(str)`. Its meaning, the words of the lowercased input
      joined with `-`, is proved in `KebabIsJoinedWords`. */
  function ToKebabCase(str: string): string
  {
    Hyphenate(Lower(str))
  }

  /** The result of `toKebabCase` is kebab-shaped, and deleting its dashes
      gives back exactly the lowercased input's letters and digits, in
      order. */
  lemma KebabShape(str: string)
    ensures IsKebab(ToKebabCase(str))
    ensures RemoveDashes(ToKebabCase(str)) == Alnums(Lower(str))
  {
    assert ToKebabCase(str) == Hyphenate(Lower(str));
    var c := Collapse(Lower(str));
    var t := TrimLeadingDashes(c);
    var r := TrimTrailingDashes(t);
    SuffixKeepsShape(c, |c| - |t|);
    PrefixKeepsShape(t, |r|);
    RemoveDashesIsAlnums(c);
    assert r != [] ==> r[0] == t[0];
  }

  lemma SuffixKeepsShape(s: string, k: nat)
    requires k <= |s| && DashOrWord(s) && NoDoubleDash(s)
    ensures DashOrWord(s[k..]) && NoDoubleDash(s[k..])
  {
    assert forall i :: 0 <= i < |s| - k ==> s[k..][i] == s[k + i];
  }

  lemma PrefixKeepsShape(s: string, k: nat)
    requires k <= |s| && DashOrWord(s) && NoDoubleDash(s)
    ensures DashOrWord(s[..k]) && NoDoubleDash(s[..k])
  {
  }

  /** Collapsing changes nothing in a string that is already made of single
      dashes between word characters. */
  lemma {:induction false} CollapseFixed(s: string)
    requires DashOrWord(s) && NoDoubleDash(s)
    ensures Collapse(s) == s
  {
    if s != [] {
      var rest := s[1..];
      assert DashOrWord(rest) && NoDoubleDash(rest);
      CollapseFixed(rest);
      if !IsWordChar(s[0]) {
        assert rest == [] || IsWordChar(rest[0]);
        assert DropRun(rest) == rest;
      }
    }
  }

  /** A kebab-case string is a fixed point, so `toKebabCase` is idempotent. */
  lemma {:induction false} KebabFixed(s: string)
    requires IsKebab(s)
    ensures ToKebabCase(s) == s
  {
    assert Lower(s) == s;
    CollapseFixed(s);
  }

  lemma {:induction false} KebabIdempotent(str: string)
    ensures ToKebabCase(ToKebabCase(str)) == ToKebabCase(str)
  {
    KebabShape(str);
    KebabFixed(ToKebabCase(str));
  }

  /** The strings `toKebabCase` leaves unchanged are exactly the kebab-shaped
      ones. */
  lemma {:induction false} KebabFixedPoints(s: string)
    ensures ToKebabCase(s) == s <==> IsKebab(s)
  {
    KebabShape(s);
    if IsKebab(s) {
      KebabFixed(s);
    }
  }

  /** An input made only of punctuation has an empty kebab form. */
  lemma KebabExampleEmpty()
    ensures ToKebabCase("!!!") == ""
  {
    var s := "!!!";
    assert Lower(s) == s;
    assert !IsWordChar(s[0]) && s[1..] == "!!" && s[2..] == "!";
    assert DropRun("!") == [];
    assert DropRun("!!") == [];
    assert Collapse(s) == "-";
    var d := "-";
    assert d[1..] == [];
    assert TrimLeadingDashes(d) == [];
  }

  /** `s` consists of word characters only. */
  predicate AllWord(s: string)
  {
    forall i :: 0 <= i < |s| ==> IsWordChar(s[i])
  }

  /** `s` contains no word character. */
  predicate NoWord(s: string)
  {
    forall i :: 0 <= i < |s| ==> !IsWordChar(s[i])
  }

  /** The length of the run of word characters `s` starts with. */
  function WordRun(s: string): (n: nat)
    ensures n <= |s|
    ensures forall i :: 0 <= i < n ==> IsWordChar(s[i])
    ensures n == |s| || !IsWordChar(s[n])
  {
    if s != [] && IsWordChar(s[0]) then
      var n := 1 + WordRun(s[1..]);
      assert forall i :: 1 <= i < n ==> s[i] == s[1..][i - 1];
      n
    else 0
  }

  /** The length of the run of non-word characters `s` starts with. */
  function GapRun(s: string): (n: nat)
    ensures n <= |s|
    ensures forall i :: 0 <= i < n ==> !IsWordChar(s[i])
    ensures n == |s| || IsWordChar(s[n])
  {
    if s != [] && !IsWordChar(s[0]) then
      var n := 1 + GapRun(s[1..]);
      assert forall i :: 1 <= i < n ==> s[i] == s[1..][i - 1];
      n
    else 0
  }

  /** The words of `s`: its maximal runs of `[a-z0-9]`, in order. This is
      the reference definition `toKebabCase` is compared with. */
  function Words(s: string): (ws: seq<string>)
    decreases |s|
  {
    if s == [] then []
    else if IsWordChar(s[0]) then
      var n := WordRun(s);
      [s[..n]] + Words(s[n..])
    else Words(s[GapRun(s)..])
  }

  /** `ws.join("-")`. */
  function Join(ws: seq<string>): string
  {
    if ws == [] then []
    else if |ws| == 1 then ws[0]
    else ws[0] + "-" + Join(ws[1..])
  }

  /** Every word is a non-empty run of word characters, so joining the words
      with `-` puts a dash exactly between two words. */
  lemma {:induction false} WordsAreWords(s: string)
    ensures forall k :: 0 <= k < |Words(s)| ==> Words(s)[k] != [] && AllWord(Words(s)[k])
    decreases |s|
  {
    if s != [] {
      if IsWordChar(s[0]) {
        var n := WordRun(s);
        WordsAreWords(s[n..]);
      } else {
        WordsAreWords(s[GapRun(s)..]);
      }
    }
  }

  /** A word-only string collapses to itself. */
  lemma CollapseWord(u: string)
    requires AllWord(u)
    ensures Collapse(u) == u
  {
    CollapseFixed(u);
  }

  /** After a run of non-word characters, `DropRun` resumes exactly where
      the next word starts. */
  lemma {:induction false} DropRunSkips(w: string, v: string)
    requires NoWord(w)
    requires v == [] || IsWordChar(v[0])
    ensures DropRun(w + v) == v
  {
    if w == [] {
      assert w + v == v;
    } else {
      assert (w + v)[1..] == w[1..] + v;
      DropRunSkips(w[1..], v);
    }
  }

  /** A whole run of non-word characters at the front collapses to one dash
      in front of the collapsed rest. */
  lemma CollapseGap(w: string, v: string)
    requires w != [] && NoWord(w)
    requires v == [] || IsWordChar(v[0])
    ensures Collapse(w + v) == "-" + Collapse(v)
  {
    var x := w + v;
    assert x[0] == w[0] && x[1..] == w[1..] + v;
    DropRunSkips(w[1..], v);
  }

  /** Where the dashes go: a word, then a whole run of non-word characters,
      then the rest, collapses to the word, one dash, and the collapsed
      rest. */
  lemma {:induction false} CollapseSplit(u: string, w: string, v: string)
    requires AllWord(u)
    requires w != [] && NoWord(w)
    requires v == [] || IsWordChar(v[0])
    ensures Collapse(u + w + v) == u + "-" + Collapse(v)
  {
    if u == [] {
      assert u + w + v == w + v;
      CollapseGap(w, v);
    } else {
      CollapseWordStep(u, w, v);
      CollapseSplit(u[1..], w, v);
      ConsDash(u, Collapse(v));
    }
  }

  /** A leading word character is copied through. */
  lemma CollapseWordStep(u: string, w: string, v: string)
    requires u != [] && IsWordChar(u[0])
    ensures Collapse(u + w + v) == [u[0]] + Collapse(u[1..] + w + v)
  {
    var x := u + w + v;
    assert x[0] == u[0] && x[1..] == u[1..] + w + v;
  }

  lemma ConsDash(u: string, c: string)
    requires u != []
    ensures [u[0]] + (u[1..] + "-" + c) == u + "-" + c
  {
    assert u == [u[0]] + u[1..];
  }

  /** Trailing dashes are removed from the end only: what precedes a tail
      that keeps a character is kept whole. */
  lemma {:induction false} TrimTrailingAppend(a: string, b: string)
    requires TrimTrailingDashes(b) != []
    ensures TrimTrailingDashes(a + b) == a + TrimTrailingDashes(b)
    decreases |b|
  {
    if b[|b| - 1] == '-' {
      var b' := b[..|b| - 1];
      assert (a + b)[..|a + b| - 1] == a + b';
      TrimTrailingAppend(a, b');
    }
  }

  /** A string that starts with a word character keeps that character when
      trailing dashes are removed. */
  lemma TrimTrailingKeepsHead(c: string)
    requires c != [] && IsWordChar(c[0])
    ensures TrimTrailingDashes(c) != []
  {
  }

  /** Leading-dash removal leaves a string that does not start with `-`
      alone, and removes one more dash put in front of any string. */
  lemma TrimLeadingSteps(c: string)
    ensures c == [] || c[0] != '-' ==> TrimLeadingDashes(c) == c
    ensures TrimLeadingDashes("-" + c) == TrimLeadingDashes(c)
  {
    assert ("-" + c)[1..] == c;
  }

  /** The dash after a final word is removed. */
  lemma TrimTrailingAfterWord(u: string)
    requires u != [] && AllWord(u)
    ensures TrimTrailingDashes(u + "-") == u
  {
    var d := u + "-";
    assert d[..|d| - 1] == u;
  }

  /** A word-only string is left as it is. */
  lemma HyphenateWord(u: string)
    requires AllWord(u)
    ensures Hyphenate(u) == u
  {
    CollapseWord(u);
    TrimLeadingSteps(u);
  }

  /** A leading run of separators disappears. */
  lemma HyphenateSkipsGap(w: string, v: string)
    requires w != [] && NoWord(w)
    requires v == [] || IsWordChar(v[0])
    ensures Hyphenate(w + v) == Hyphenate(v)
  {
    CollapseGap(w, v);
    TrimLeadingSteps(Collapse(v));
  }

  /** A word followed by separators becomes the word, then one dash before
      the rest's kebab form if the rest has any word, and nothing after it
      otherwise. */
  lemma HyphenateSplit(u: string, w: string, v: string)
    requires u != [] && AllWord(u)
    requires w != [] && NoWord(w)
    requires v == [] || IsWordChar(v[0])
    ensures Hyphenate(u + w + v) == if v == [] then u else u + "-" + Hyphenate(v)
  {
    CollapseSplit(u, w, v);
    var d := u + "-" + Collapse(v);
    assert d[0] == u[0];
    TrimLeadingSteps(d);
    if v == [] {
      HyphenateLastWord(u, d);
    } else {
      HyphenateInnerWord(u, Collapse(v));
    }
  }

  lemma HyphenateLastWord(u: string, d: string)
    requires u != [] && AllWord(u)
    requires d == u + "-" + []
    ensures TrimTrailingDashes(d) == u
  {
    assert d == u + "-";
    TrimTrailingAfterWord(u);
  }

  lemma HyphenateInnerWord(u: string, c: string)
    requires c != [] && IsWordChar(c[0])
    ensures TrimTrailingDashes(u + "-" + c) == u + "-" + TrimTrailingDashes(TrimLeadingDashes(c))
  {
    TrimLeadingSteps(c);
    TrimTrailingKeepsHead(c);
    TrimTrailingAppend(u + "-", c);
  }

  /** The reference characterisation: the kebab form of a lowercased string
      is its words joined with `-`. */
  lemma {:induction false} HyphenateIsJoin(s: string)
    ensures Hyphenate(s) == Join(Words(s))
    decreases |s|
  {
    if s == [] {
    } else if !IsWordChar(s[0]) {
      HyphenateIsJoin(s[GapRun(s)..]);
      JoinGapCase(s);
    } else if WordRun(s) == |s| {
      JoinWordOnlyCase(s);
    } else {
      var n := WordRun(s);
      var g := GapRun(s[n..]);
      HyphenateIsJoin(s[n..][g..]);
      JoinSplitCase(s, n, g);
    }
  }

  lemma JoinSplitCase(s: string, n: nat, g: nat)
    requires s != [] && IsWordChar(s[0]) && n == WordRun(s) && n < |s|
    requires g == GapRun(s[n..])
    requires Hyphenate(s[n..][g..]) == Join(Words(s[n..][g..]))
    ensures Hyphenate(s) == Join(Words(s))
  {
    var u, w, v := s[..n], s[n..][..g], s[n..][g..];
    WordThenGap(s, n, g);
    JoinWordCase(s, u, w, v);
  }

  /** Cutting `s` after its first word and the separator run after it. */
  lemma WordThenGap(s: string, n: nat, g: nat)
    requires s != [] && IsWordChar(s[0]) && n == WordRun(s) && n < |s|
    requires g == GapRun(s[n..])
    ensures var u, w, v := s[..n], s[n..][..g], s[n..][g..];
      && s == u + w + v
      && u != [] && AllWord(u)
      && w != [] && NoWord(w)
      && (v == [] || IsWordChar(v[0]))
      && Words(s) == [u] + Words(v)
  {
    SplitThree(s, n, g);
  }

  lemma JoinGapCase(s: string)
    requires s != [] && !IsWordChar(s[0])
    requires Hyphenate(s[GapRun(s)..]) == Join(Words(s[GapRun(s)..]))
    ensures Hyphenate(s) == Join(Words(s))
  {
    var g := GapRun(s);
    GapThenRest(s, g);
    JoinGapStep(s, s[..g], s[g..]);
  }

  /** Cutting `s` after the separator run it starts with. */
  lemma GapThenRest(s: string, g: nat)
    requires s != [] && !IsWordChar(s[0]) && g == GapRun(s)
    ensures var w, v := s[..g], s[g..];
      && s == w + v
      && w != [] && NoWord(w)
      && (v == [] || IsWordChar(v[0]))
      && Words(s) == Words(v)
  {
  }

  lemma JoinGapStep(s: string, w: string, v: string)
    requires s == w + v
    requires w != [] && NoWord(w)
    requires v == [] || IsWordChar(v[0])
    requires Hyphenate(v) == Join(Words(v))
    requires Words(s) == Words(v)
    ensures Hyphenate(s) == Join(Words(s))
  {
    HyphenateSkipsGap(w, v);
  }

  lemma JoinWordOnlyCase(s: string)
    requires s != [] && IsWordChar(s[0]) && WordRun(s) == |s|
    ensures Hyphenate(s) == Join(Words(s))
  {
    assert s == s[..|s|];
    HyphenateWord(s);
  }

  lemma JoinWordCase(s: string, u: string, w: string, v: string)
    requires s == u + w + v
    requires u != [] && AllWord(u)
    requires w != [] && NoWord(w)
    requires v == [] || IsWordChar(v[0])
    requires Hyphenate(v) == Join(Words(v))
    requires Words(s) == [u] + Words(v)
    ensures Hyphenate(s) == Join(Words(s))
  {
    HyphenateSplit(u, w, v);
    JoinAfterWord(u, v);
  }

  lemma SplitThree(s: string, n: nat, g: nat)
    requires n <= |s| && g <= |s| - n
    ensures s == s[..n] + s[n..][..g] + s[n..][g..]
  {
    assert s[n..] == s[n..][..g] + s[n..][g..];
  }

  /** Joining a word in front of the words of `v`. */
  lemma JoinAfterWord(u: string, v: string)
    requires v == [] || IsWordChar(v[0])
    ensures Join([u] + Words(v)) == if v == [] then u else u + "-" + Join(Words(v))
  {
    var ws := [u] + Words(v);
    assert ws[0] == u && ws[1..] == Words(v);
  }

  /** `toKebabCase(str)` is the words of the lowercased input joined with
      `-`. Every word is a non-empty run of `[a-z0-9]`, so there is no dash
      before the first word or after the last, and exactly one between two
      neighbouring words. */
  lemma KebabIsJoinedWords(str: string)
    ensures ToKebabCase(str) == Join(Words(Lower(str)))
    ensures forall k :: 0 <= k < |Words(Lower(str))| ==>
      Words(Lower(str))[k] != [] && AllWord(Words(Lower(str))[k])
  {
    HyphenateIsJoin(Lower(str));
    WordsAreWords(Lower(str));
  }
}
