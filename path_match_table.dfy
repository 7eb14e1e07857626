/** The table of `test_path_match` (example/path_matcher.py:76-110), one lemma per row:
    glob, path and whether `path_match` reports a match. */
module PathMatchTable {
  import opened Strings
  import opened Glob
  import opened PathMatcher

  /** `path_match(pattern, path)`: does a fresh `PathPattern` match the path? */
  function PathMatch(pattern: string, path: string): (b: bool)
    requires IsAbsolute(path)
    ensures '\n' !in path ==> (b <==> GlobMatches(pattern, path))
  {
    PatternMatches(NewPathPattern(pattern), path)
  }

  /** Segments of a literal glob and path given by their pieces; an absolute glob. */
  lemma Absolute(p: string, s: string, pss: seq<string>, ws: seq<string>)
    requires IsAbsolute(p)
    requires pss != [] && JoinWith(pss, '/') == p
    requires forall i :: 0 <= i < |pss| ==> '/' !in pss[i]
    requires ws != [] && JoinWith(ws, '/') == s
    requires forall i :: 0 <= i < |ws| ==> '/' !in ws[i]
    ensures GlobMatches(p, s) == GlobMatch(pss, ws)
  {
    SplitJoin(pss, '/');
    SplitJoin(ws, '/');
  }

  /** The same for a relative glob. */
  lemma Relative(p: string, s: string, pss: seq<string>, ws: seq<string>)
    requires !IsAbsolute(p)
    requires pss != [] && JoinWith(pss, '/') == p
    requires forall i :: 0 <= i < |pss| ==> '/' !in pss[i]
    requires ws != [] && JoinWith(ws, '/') == s
    requires forall i :: 0 <= i < |ws| ==> '/' !in ws[i]
    ensures GlobMatches(p, s) == SomeSuffix(pss, ws, 1)
  {
    SplitJoin(pss, '/');
    SplitJoin(ws, '/');
    SomeSuffixExists(pss, ws, 1);
  }

  /** `pss` matches the segments of `ws` from the `k`-th or a later one on. */
  predicate SomeSuffix(pss: seq<string>, ws: seq<string>, k: nat)
    decreases |ws| - k
  {
    k <= |ws| && (GlobMatch(pss, ws[k..]) || SomeSuffix(pss, ws, k + 1))
  }

  lemma {:induction false} SomeSuffixExists(pss: seq<string>, ws: seq<string>, k: nat)
    ensures SomeSuffix(pss, ws, k) <==> exists j :: k <= j <= |ws| && GlobMatch(pss, ws[j..])
    decreases |ws| - k
  {
    if k <= |ws| {
      SomeSuffixExists(pss, ws, k + 1);
      if exists j :: k <= j <= |ws| && GlobMatch(pss, ws[j..]) {
        var j :| k <= j <= |ws| && GlobMatch(pss, ws[j..]);
        if j > k {
          assert k + 1 <= j <= |ws| && GlobMatch(pss, ws[j..]);
        }
      }
    }
  }

  lemma Segments77()
    ensures !GlobMatch([""], ["", "a", "b"][1..])
    ensures !GlobMatch([""], ["", "a", "b"][2..])
    ensures !GlobMatch([""], ["", "a", "b"][3..])
  {
    assert ["", "a", "b"][1..] == ["a", "b"];
    assert !SegMatch("", "a");
    assert !GlobMatch([""], ["a", "b"]);
    assert ["", "a", "b"][2..] == ["b"];
    assert !SegMatch("", "b");
    assert !GlobMatch([""], ["b"]);
    assert ["", "a", "b"][3..] == [];
    assert !GlobMatch([""], []);
  }

  lemma Glob77()
    ensures !GlobMatches("", "/a/b")
  {
    Relative("", "/a/b", [""], ["", "a", "b"]);
    Segments77();
  }

  // Line 77: "" against "/a/b" is no match.
  lemma Row77()
    ensures !PathMatch("", "/a/b")
  {
    Glob77();
  }

  lemma Segments78()
    ensures !GlobMatch(["a"], ["", "a", "b"][1..])
    ensures !GlobMatch(["a"], ["", "a", "b"][2..])
    ensures !GlobMatch(["a"], ["", "a", "b"][3..])
  {
    assert ["", "a", "b"][1..] == ["a", "b"];
    assert SegMatch("a", "a");
    assert ["a", "b"][1..] == ["b"];
    assert !GlobMatch([], ["b"]);
    assert !GlobMatch(["a"], ["a", "b"]);
    assert ["", "a", "b"][2..] == ["b"];
    assert !SegMatch("a", "b");
    assert !GlobMatch(["a"], ["b"]);
    assert ["", "a", "b"][3..] == [];
    assert !GlobMatch(["a"], []);
  }

  lemma Glob78()
    ensures !GlobMatches("a", "/a/b")
  {
    Relative("a", "/a/b", ["a"], ["", "a", "b"]);
    Segments78();
  }

  // Line 78: "a" against "/a/b" is no match.
  lemma Row78()
    ensures !PathMatch("a", "/a/b")
  {
    Glob78();
  }

  lemma Segments79()
    ensures GlobMatch(["", "a"], ["", "a"])
  {
    assert SegMatch("", "");
    assert ["", "a"][1..] == ["a"];
    assert SegMatch("a", "a");
    assert ["a"][1..] == [];
    assert GlobMatch([], []);
    assert GlobMatch(["a"], ["a"]);
    assert GlobMatch(["", "a"], ["", "a"]);
  }

  lemma Glob79()
    ensures GlobMatches("/a", "/a")
  {
    Absolute("/a", "/a", ["", "a"], ["", "a"]);
    Segments79();
  }

  // Line 79: "/a" against "/a" is a match.
  lemma Row79()
    ensures PathMatch("/a", "/a")
  {
    Glob79();
  }

  lemma Segments80()
    ensures !GlobMatch(["", "a"], ["", "a", "b"])
  {
    assert SegMatch("", "");
    assert ["", "a", "b"][1..] == ["a", "b"];
    assert SegMatch("a", "a");
    assert ["a", "b"][1..] == ["b"];
    assert !GlobMatch([], ["b"]);
    assert !GlobMatch(["a"], ["a", "b"]);
    assert !GlobMatch(["", "a"], ["", "a", "b"]);
  }

  lemma Glob80()
    ensures !GlobMatches("/a", "/a/b")
  {
    Absolute("/a", "/a/b", ["", "a"], ["", "a", "b"]);
    Segments80();
  }

  // Line 80: "/a" against "/a/b" is no match.
  lemma Row80()
    ensures !PathMatch("/a", "/a/b")
  {
    Glob80();
  }

  lemma Segments81()
    ensures !GlobMatch(["", "b"], ["", "a", "b"])
  {
    assert SegMatch("", "");
    assert ["", "a", "b"][1..] == ["a", "b"];
    assert !SegMatch("b", "a");
    assert !GlobMatch(["b"], ["a", "b"]);
    assert !GlobMatch(["", "b"], ["", "a", "b"]);
  }

  lemma Glob81()
    ensures !GlobMatches("/b", "/a/b")
  {
    Absolute("/b", "/a/b", ["", "b"], ["", "a", "b"]);
    Segments81();
  }

  // Line 81: "/b" against "/a/b" is no match.
  lemma Row81()
    ensures !PathMatch("/b", "/a/b")
  {
    Glob81();
  }

  lemma Segments82()
    ensures GlobMatch(["*", "b"], ["", "a", "b"][1..])
  {
    assert ["", "a", "b"][1..] == ["a", "b"];
    assert SegMatch("*", "a");
    assert ["a", "b"][1..] == ["b"];
    assert SegMatch("b", "b");
    assert ["b"][1..] == [];
    assert GlobMatch([], []);
    assert GlobMatch(["b"], ["b"]);
    assert GlobMatch(["*", "b"], ["a", "b"]);
  }

  lemma Glob82()
    ensures GlobMatches("*/b", "/a/b")
  {
    Relative("*/b", "/a/b", ["*", "b"], ["", "a", "b"]);
    Segments82();
  }

  // Line 82: "*/b" against "/a/b" is a match.
  lemma Row82()
    ensures PathMatch("*/b", "/a/b")
  {
    Glob82();
  }

  lemma Segments83()
    ensures GlobMatch(["*", "c"], ["", "a", "b", "c"][2..])
  {
    assert ["", "a", "b", "c"][2..] == ["b", "c"];
    assert SegMatch("*", "b");
    assert ["b", "c"][1..] == ["c"];
    assert SegMatch("c", "c");
    assert ["c"][1..] == [];
    assert GlobMatch([], []);
    assert GlobMatch(["c"], ["c"]);
    assert GlobMatch(["*", "c"], ["b", "c"]);
  }

  lemma Glob83()
    ensures GlobMatches("*/c", "/a/b/c")
  {
    Relative("*/c", "/a/b/c", ["*", "c"], ["", "a", "b", "c"]);
    Segments83();
  }

  // Line 83: "*/c" against "/a/b/c" is a match.
  lemma Row83()
    ensures PathMatch("*/c", "/a/b/c")
  {
    Glob83();
  }

  lemma Segments84()
    ensures !GlobMatch(["", "*", "c"], ["", "a", "b", "c"])
  {
    assert SegMatch("", "");
    assert ["", "a", "b", "c"][1..] == ["a", "b", "c"];
    assert SegMatch("*", "a");
    assert ["a", "b", "c"][1..] == ["b", "c"];
    assert !SegMatch("c", "b");
    assert !GlobMatch(["c"], ["b", "c"]);
    assert !GlobMatch(["*", "c"], ["a", "b", "c"]);
    assert !GlobMatch(["", "*", "c"], ["", "a", "b", "c"]);
  }

  lemma Glob84()
    ensures !GlobMatches("/*/c", "/a/b/c")
  {
    Absolute("/*/c", "/a/b/c", ["", "*", "c"], ["", "a", "b", "c"]);
    Segments84();
  }

  // Line 84: "/*/c" against "/a/b/c" is no match.
  lemma Row84()
    ensures !PathMatch("/*/c", "/a/b/c")
  {
    Glob84();
  }

  lemma Segments85()
    ensures GlobMatch(["**", "b"], ["", "a", "b"][1..])
  {
    assert ["", "a", "b"][1..] == ["a", "b"];
    assert ["a", "b"][1..] == ["b"];
    assert SegMatch("b", "b");
    assert ["b"][1..] == [];
    assert GlobMatch([], []);
    assert GlobMatch(["b"], ["b"]);
    assert GlobMatch(["**", "b"], ["a", "b"]);
  }

  lemma Glob85()
    ensures GlobMatches("**/b", "/a/b")
  {
    Relative("**/b", "/a/b", ["**", "b"], ["", "a", "b"]);
    Segments85();
  }

  // Line 85: "**/b" against "/a/b" is a match.
  lemma Row85()
    ensures PathMatch("**/b", "/a/b")
  {
    Glob85();
  }

  lemma Segments86()
    ensures GlobMatch(["*"], ["", "a"][1..])
  {
    assert ["", "a"][1..] == ["a"];
    assert SegMatch("*", "a");
    assert ["a"][1..] == [];
    assert GlobMatch([], []);
    assert GlobMatch(["*"], ["a"]);
  }

  lemma Glob86()
    ensures GlobMatches("*", "/a")
  {
    Relative("*", "/a", ["*"], ["", "a"]);
    Segments86();
  }

  // Line 86: "*" against "/a" is a match.
  lemma Row86()
    ensures PathMatch("*", "/a")
  {
    Glob86();
  }

  lemma Segments87()
    ensures GlobMatch(["*"], ["", "a", "b"][2..])
  {
    assert ["", "a", "b"][2..] == ["b"];
    assert SegMatch("*", "b");
    assert ["b"][1..] == [];
    assert GlobMatch([], []);
    assert GlobMatch(["*"], ["b"]);
  }

  lemma Glob87()
    ensures GlobMatches("*", "/a/b")
  {
    Relative("*", "/a/b", ["*"], ["", "a", "b"]);
    Segments87();
  }

  // Line 87: "*" against "/a/b" is a match.
  lemma Row87()
    ensures PathMatch("*", "/a/b")
  {
    Glob87();
  }

  lemma Segments88()
    ensures !GlobMatch(["", "*"], ["", "a", "b"])
  {
    assert SegMatch("", "");
    assert ["", "a", "b"][1..] == ["a", "b"];
    assert SegMatch("*", "a");
    assert ["a", "b"][1..] == ["b"];
    assert !GlobMatch([], ["b"]);
    assert !GlobMatch(["*"], ["a", "b"]);
    assert !GlobMatch(["", "*"], ["", "a", "b"]);
  }

  lemma Glob88()
    ensures !GlobMatches("/*", "/a/b")
  {
    Absolute("/*", "/a/b", ["", "*"], ["", "a", "b"]);
    Segments88();
  }

  // Line 88: "/*" against "/a/b" is no match.
  lemma Row88()
    ensures !PathMatch("/*", "/a/b")
  {
    Glob88();
  }

  lemma Segments89()
    ensures GlobMatch(["**"], ["", "a", "b"][1..])
  {
    assert ["", "a", "b"][1..] == ["a", "b"];
    assert ["a", "b"][2..] == [];
    assert GlobMatch([], []);
    assert GlobMatch(["**"], ["a", "b"]);
  }

  lemma Glob89()
    ensures GlobMatches("**", "/a/b")
  {
    Relative("**", "/a/b", ["**"], ["", "a", "b"]);
    Segments89();
  }

  // Line 89: "**" against "/a/b" is a match.
  lemma Row89()
    ensures PathMatch("**", "/a/b")
  {
    Glob89();
  }

  lemma Segments90()
    ensures GlobMatch(["", "**"], ["", "a", "b"])
  {
    assert SegMatch("", "");
    assert ["", "a", "b"][1..] == ["a", "b"];
    assert ["a", "b"][2..] == [];
    assert GlobMatch([], []);
    assert GlobMatch(["**"], ["a", "b"]);
    assert GlobMatch(["", "**"], ["", "a", "b"]);
  }

  lemma Glob90()
    ensures GlobMatches("/**", "/a/b")
  {
    Absolute("/**", "/a/b", ["", "**"], ["", "a", "b"]);
    Segments90();
  }

  // Line 90: "/**" against "/a/b" is a match.
  lemma Row90()
    ensures PathMatch("/**", "/a/b")
  {
    Glob90();
  }

  lemma Segments91()
    ensures GlobMatch(["", "a", "**", "d"], ["", "a", "b", "c", "d"])
  {
    assert SegMatch("", "");
    assert ["", "a", "b", "c", "d"][1..] == ["a", "b", "c", "d"];
    assert SegMatch("a", "a");
    assert ["a", "b", "c", "d"][1..] == ["b", "c", "d"];
    assert ["b", "c", "d"][2..] == ["d"];
    assert SegMatch("d", "d");
    assert ["d"][1..] == [];
    assert GlobMatch([], []);
    assert GlobMatch(["d"], ["d"]);
    assert GlobMatch(["**", "d"], ["b", "c", "d"]);
    assert GlobMatch(["a", "**", "d"], ["a", "b", "c", "d"]);
    assert GlobMatch(["", "a", "**", "d"], ["", "a", "b", "c", "d"]);
  }

  lemma Glob91()
    ensures GlobMatches("/a/**/d", "/a/b/c/d")
  {
    Absolute("/a/**/d", "/a/b/c/d", ["", "a", "**", "d"], ["", "a", "b", "c", "d"]);
    Segments91();
  }

  // Line 91: "/a/**/d" against "/a/b/c/d" is a match.
  lemma Row91()
    ensures PathMatch("/a/**/d", "/a/b/c/d")
  {
    Glob91();
  }

  lemma Segments92()
    ensures !GlobMatch(["", "a", "**", "e"], ["", "a", "b", "c", "d"])
  {
    assert SegMatch("", "");
    assert ["", "a", "b", "c", "d"][1..] == ["a", "b", "c", "d"];
    assert SegMatch("a", "a");
    assert ["a", "b", "c", "d"][1..] == ["b", "c", "d"];
    assert ["b", "c", "d"][1..] == ["c", "d"];
    assert !SegMatch("e", "c");
    assert !GlobMatch(["e"], ["c", "d"]);
    assert ["b", "c", "d"][2..] == ["d"];
    assert !SegMatch("e", "d");
    assert !GlobMatch(["e"], ["d"]);
    assert ["b", "c", "d"][3..] == [];
    assert !GlobMatch(["e"], []);
    assert !GlobMatch(["**", "e"], ["b", "c", "d"]);
    assert !GlobMatch(["a", "**", "e"], ["a", "b", "c", "d"]);
    assert !GlobMatch(["", "a", "**", "e"], ["", "a", "b", "c", "d"]);
  }

  lemma Glob92()
    ensures !GlobMatches("/a/**/e", "/a/b/c/d")
  {
    Absolute("/a/**/e", "/a/b/c/d", ["", "a", "**", "e"], ["", "a", "b", "c", "d"]);
    Segments92();
  }

  // Line 92: "/a/**/e" against "/a/b/c/d" is no match.
  lemma Row92()
    ensures !PathMatch("/a/**/e", "/a/b/c/d")
  {
    Glob92();
  }

  lemma Segments93()
    ensures GlobMatch(["a", "b"], ["", "a", "b"][1..])
  {
    assert ["", "a", "b"][1..] == ["a", "b"];
    assert SegMatch("a", "a");
    assert ["a", "b"][1..] == ["b"];
    assert SegMatch("b", "b");
    assert ["b"][1..] == [];
    assert GlobMatch([], []);
    assert GlobMatch(["b"], ["b"]);
    assert GlobMatch(["a", "b"], ["a", "b"]);
  }

  lemma Glob93()
    ensures GlobMatches("a/b", "/a/b")
  {
    Relative("a/b", "/a/b", ["a", "b"], ["", "a", "b"]);
    Segments93();
  }

  // Line 93: "a/b" against "/a/b" is a match.
  lemma Row93()
    ensures PathMatch("a/b", "/a/b")
  {
    Glob93();
  }

  lemma Segments94()
    ensures GlobMatch(["", "a", "b"], ["", "a", "b"])
  {
    assert SegMatch("", "");
    assert ["", "a", "b"][1..] == ["a", "b"];
    assert SegMatch("a", "a");
    assert ["a", "b"][1..] == ["b"];
    assert SegMatch("b", "b");
    assert ["b"][1..] == [];
    assert GlobMatch([], []);
    assert GlobMatch(["b"], ["b"]);
    assert GlobMatch(["a", "b"], ["a", "b"]);
    assert GlobMatch(["", "a", "b"], ["", "a", "b"]);
  }

  lemma Glob94()
    ensures GlobMatches("/a/b", "/a/b")
  {
    Absolute("/a/b", "/a/b", ["", "a", "b"], ["", "a", "b"]);
    Segments94();
  }

  // Line 94: "/a/b" against "/a/b" is a match.
  lemma Row94()
    ensures PathMatch("/a/b", "/a/b")
  {
    Glob94();
  }

  lemma Segments95()
    ensures GlobMatch(["", "a", "*"], ["", "a", "b"])
  {
    assert SegMatch("", "");
    assert ["", "a", "b"][1..] == ["a", "b"];
    assert SegMatch("a", "a");
    assert ["a", "b"][1..] == ["b"];
    assert SegMatch("*", "b");
    assert ["b"][1..] == [];
    assert GlobMatch([], []);
    assert GlobMatch(["*"], ["b"]);
    assert GlobMatch(["a", "*"], ["a", "b"]);
    assert GlobMatch(["", "a", "*"], ["", "a", "b"]);
  }

  lemma Glob95()
    ensures GlobMatches("/a/*", "/a/b")
  {
    Absolute("/a/*", "/a/b", ["", "a", "*"], ["", "a", "b"]);
    Segments95();
  }

  // Line 95: "/a/*" against "/a/b" is a match.
  lemma Row95()
    ensures PathMatch("/a/*", "/a/b")
  {
    Glob95();
  }

  lemma Segments96()
    ensures !GlobMatch(["", "a", "*"], ["", "a", "b", "c"])
  {
    assert SegMatch("", "");
    assert ["", "a", "b", "c"][1..] == ["a", "b", "c"];
    assert SegMatch("a", "a");
    assert ["a", "b", "c"][1..] == ["b", "c"];
    assert SegMatch("*", "b");
    assert ["b", "c"][1..] == ["c"];
    assert !GlobMatch([], ["c"]);
    assert !GlobMatch(["*"], ["b", "c"]);
    assert !GlobMatch(["a", "*"], ["a", "b", "c"]);
    assert !GlobMatch(["", "a", "*"], ["", "a", "b", "c"]);
  }

  lemma Glob96()
    ensures !GlobMatches("/a/*", "/a/b/c")
  {
    Absolute("/a/*", "/a/b/c", ["", "a", "*"], ["", "a", "b", "c"]);
    Segments96();
  }

  // Line 96: "/a/*" against "/a/b/c" is no match.
  lemma Row96()
    ensures !PathMatch("/a/*", "/a/b/c")
  {
    Glob96();
  }

  lemma Segments97()
    ensures GlobMatch(["", "a", "**"], ["", "a", "b", "c"])
  {
    assert SegMatch("", "");
    assert ["", "a", "b", "c"][1..] == ["a", "b", "c"];
    assert SegMatch("a", "a");
    assert ["a", "b", "c"][1..] == ["b", "c"];
    assert ["b", "c"][2..] == [];
    assert GlobMatch([], []);
    assert GlobMatch(["**"], ["b", "c"]);
    assert GlobMatch(["a", "**"], ["a", "b", "c"]);
    assert GlobMatch(["", "a", "**"], ["", "a", "b", "c"]);
  }

  lemma Glob97()
    ensures GlobMatches("/a/**", "/a/b/c")
  {
    Absolute("/a/**", "/a/b/c", ["", "a", "**"], ["", "a", "b", "c"]);
    Segments97();
  }

  // Line 97: "/a/**" against "/a/b/c" is a match.
  lemma Row97()
    ensures PathMatch("/a/**", "/a/b/c")
  {
    Glob97();
  }

  lemma Segments98()
    ensures GlobMatch(["b", "**"], ["", "a", "b", "c"][2..])
  {
    assert ["", "a", "b", "c"][2..] == ["b", "c"];
    assert SegMatch("b", "b");
    assert ["b", "c"][1..] == ["c"];
    assert ["c"][1..] == [];
    assert GlobMatch([], []);
    assert GlobMatch(["**"], ["c"]);
    assert GlobMatch(["b", "**"], ["b", "c"]);
  }

  lemma Glob98()
    ensures GlobMatches("b/**", "/a/b/c")
  {
    Relative("b/**", "/a/b/c", ["b", "**"], ["", "a", "b", "c"]);
    Segments98();
  }

  // Line 98: "b/**" against "/a/b/c" is a match.
  lemma Row98()
    ensures PathMatch("b/**", "/a/b/c")
  {
    Glob98();
  }

  lemma Segments99()
    ensures !GlobMatch(["", "b", "**"], ["", "a", "b", "c"])
  {
    assert SegMatch("", "");
    assert ["", "a", "b", "c"][1..] == ["a", "b", "c"];
    assert !SegMatch("b", "a");
    assert !GlobMatch(["b", "**"], ["a", "b", "c"]);
    assert !GlobMatch(["", "b", "**"], ["", "a", "b", "c"]);
  }

  lemma Glob99()
    ensures !GlobMatches("/b/**", "/a/b/c")
  {
    Absolute("/b/**", "/a/b/c", ["", "b", "**"], ["", "a", "b", "c"]);
    Segments99();
  }

  // Line 99: "/b/**" against "/a/b/c" is no match.
  lemma Row99()
    ensures !PathMatch("/b/**", "/a/b/c")
  {
    Glob99();
  }

  lemma Segments100()
    ensures !GlobMatch(["a"], ["", "ab"][1..])
    ensures !GlobMatch(["a"], ["", "ab"][2..])
  {
    assert ["", "ab"][1..] == ["ab"];
    assert !SegMatch("a", "ab");
    assert !GlobMatch(["a"], ["ab"]);
    assert ["", "ab"][2..] == [];
    assert !GlobMatch(["a"], []);
  }

  lemma Glob100()
    ensures !GlobMatches("a", "/ab")
  {
    Relative("a", "/ab", ["a"], ["", "ab"]);
    Segments100();
  }

  // Line 100: "a" against "/ab" is no match.
  lemma Row100()
    ensures !PathMatch("a", "/ab")
  {
    Glob100();
  }

  lemma Segments101()
    ensures !GlobMatch(["b"], ["", "ab"][1..])
    ensures !GlobMatch(["b"], ["", "ab"][2..])
  {
    assert ["", "ab"][1..] == ["ab"];
    assert !SegMatch("b", "ab");
    assert !GlobMatch(["b"], ["ab"]);
    assert ["", "ab"][2..] == [];
    assert !GlobMatch(["b"], []);
  }

  lemma Glob101()
    ensures !GlobMatches("b", "/ab")
  {
    Relative("b", "/ab", ["b"], ["", "ab"]);
    Segments101();
  }

  // Line 101: "b" against "/ab" is no match.
  lemma Row101()
    ensures !PathMatch("b", "/ab")
  {
    Glob101();
  }

  lemma Segments102()
    ensures GlobMatch(["b", "c"], ["", "a", "b", "c"][2..])
  {
    assert ["", "a", "b", "c"][2..] == ["b", "c"];
    assert SegMatch("b", "b");
    assert ["b", "c"][1..] == ["c"];
    assert SegMatch("c", "c");
    assert ["c"][1..] == [];
    assert GlobMatch([], []);
    assert GlobMatch(["c"], ["c"]);
    assert GlobMatch(["b", "c"], ["b", "c"]);
  }

  lemma Glob102()
    ensures GlobMatches("b/c", "/a/b/c")
  {
    Relative("b/c", "/a/b/c", ["b", "c"], ["", "a", "b", "c"]);
    Segments102();
  }

  // Line 102: "b/c" against "/a/b/c" is a match.
  lemma Row102()
    ensures PathMatch("b/c", "/a/b/c")
  {
    Glob102();
  }

  lemma Segments103()
    ensures !GlobMatch(["b", "c"], ["", "ab", "c"][1..])
    ensures !GlobMatch(["b", "c"], ["", "ab", "c"][2..])
    ensures !GlobMatch(["b", "c"], ["", "ab", "c"][3..])
  {
    assert ["", "ab", "c"][1..] == ["ab", "c"];
    assert !SegMatch("b", "ab");
    assert !GlobMatch(["b", "c"], ["ab", "c"]);
    assert ["", "ab", "c"][2..] == ["c"];
    assert !SegMatch("b", "c");
    assert !GlobMatch(["b", "c"], ["c"]);
    assert ["", "ab", "c"][3..] == [];
    assert !GlobMatch(["b", "c"], []);
  }

  lemma Glob103()
    ensures !GlobMatches("b/c", "/ab/c")
  {
    Relative("b/c", "/ab/c", ["b", "c"], ["", "ab", "c"]);
    Segments103();
  }

  // Line 103: "b/c" against "/ab/c" is no match.
  lemma Row103()
    ensures !PathMatch("b/c", "/ab/c")
  {
    Glob103();
  }

  lemma Segments104()
    ensures !GlobMatch(["", "b", "c"], ["", "ab", "c"])
  {
    assert SegMatch("", "");
    assert ["", "ab", "c"][1..] == ["ab", "c"];
    assert !SegMatch("b", "ab");
    assert !GlobMatch(["b", "c"], ["ab", "c"]);
    assert !GlobMatch(["", "b", "c"], ["", "ab", "c"]);
  }

  lemma Glob104()
    ensures !GlobMatches("/b/c", "/ab/c")
  {
    Absolute("/b/c", "/ab/c", ["", "b", "c"], ["", "ab", "c"]);
    Segments104();
  }

  // Line 104: "/b/c" against "/ab/c" is no match.
  lemma Row104()
    ensures !PathMatch("/b/c", "/ab/c")
  {
    Glob104();
  }

  lemma Segments105()
    ensures GlobMatch(["b", "c", "*"], ["", "a", "b", "c", "d"][2..])
  {
    assert ["", "a", "b", "c", "d"][2..] == ["b", "c", "d"];
    assert SegMatch("b", "b");
    assert ["b", "c", "d"][1..] == ["c", "d"];
    assert SegMatch("c", "c");
    assert ["c", "d"][1..] == ["d"];
    assert SegMatch("*", "d");
    assert ["d"][1..] == [];
    assert GlobMatch([], []);
    assert GlobMatch(["*"], ["d"]);
    assert GlobMatch(["c", "*"], ["c", "d"]);
    assert GlobMatch(["b", "c", "*"], ["b", "c", "d"]);
  }

  lemma Glob105()
    ensures GlobMatches("b/c/*", "/a/b/c/d")
  {
    Relative("b/c/*", "/a/b/c/d", ["b", "c", "*"], ["", "a", "b", "c", "d"]);
    Segments105();
  }

  // Line 105: "b/c/*" against "/a/b/c/d" is a match.
  lemma Row105()
    ensures PathMatch("b/c/*", "/a/b/c/d")
  {
    Glob105();
  }

  lemma Segments106()
    ensures GlobMatch(["b", "**"], ["", "a", "b", "c", "d"][2..])
  {
    assert ["", "a", "b", "c", "d"][2..] == ["b", "c", "d"];
    assert SegMatch("b", "b");
    assert ["b", "c", "d"][1..] == ["c", "d"];
    assert ["c", "d"][2..] == [];
    assert GlobMatch([], []);
    assert GlobMatch(["**"], ["c", "d"]);
    assert GlobMatch(["b", "**"], ["b", "c", "d"]);
  }

  lemma Glob106()
    ensures GlobMatches("b/**", "/a/b/c/d")
  {
    Relative("b/**", "/a/b/c/d", ["b", "**"], ["", "a", "b", "c", "d"]);
    Segments106();
  }

  // Line 106: "b/**" against "/a/b/c/d" is a match.
  lemma Row106()
    ensures PathMatch("b/**", "/a/b/c/d")
  {
    Glob106();
  }

  lemma Segments107()
    ensures !GlobMatch(["", "b", "c", "*"], ["", "a", "b", "c", "d"])
  {
    assert SegMatch("", "");
    assert ["", "a", "b", "c", "d"][1..] == ["a", "b", "c", "d"];
    assert !SegMatch("b", "a");
    assert !GlobMatch(["b", "c", "*"], ["a", "b", "c", "d"]);
    assert !GlobMatch(["", "b", "c", "*"], ["", "a", "b", "c", "d"]);
  }

  lemma Glob107()
    ensures !GlobMatches("/b/c/*", "/a/b/c/d")
  {
    Absolute("/b/c/*", "/a/b/c/d", ["", "b", "c", "*"], ["", "a", "b", "c", "d"]);
    Segments107();
  }

  // Line 107: "/b/c/*" against "/a/b/c/d" is no match.
  lemma Row107()
    ensures !PathMatch("/b/c/*", "/a/b/c/d")
  {
    Glob107();
  }

  lemma Segments108()
    ensures !GlobMatch(["b", "c"], ["", "a", "b", "c", "d"][1..])
    ensures !GlobMatch(["b", "c"], ["", "a", "b", "c", "d"][2..])
    ensures !GlobMatch(["b", "c"], ["", "a", "b", "c", "d"][3..])
    ensures !GlobMatch(["b", "c"], ["", "a", "b", "c", "d"][4..])
    ensures !GlobMatch(["b", "c"], ["", "a", "b", "c", "d"][5..])
  {
    assert ["", "a", "b", "c", "d"][1..] == ["a", "b", "c", "d"];
    assert !SegMatch("b", "a");
    assert !GlobMatch(["b", "c"], ["a", "b", "c", "d"]);
    assert ["", "a", "b", "c", "d"][2..] == ["b", "c", "d"];
    assert SegMatch("b", "b");
    assert ["b", "c", "d"][1..] == ["c", "d"];
    assert SegMatch("c", "c");
    assert ["c", "d"][1..] == ["d"];
    assert !GlobMatch([], ["d"]);
    assert !GlobMatch(["c"], ["c", "d"]);
    assert !GlobMatch(["b", "c"], ["b", "c", "d"]);
    assert ["", "a", "b", "c", "d"][3..] == ["c", "d"];
    assert !SegMatch("b", "c");
    assert !GlobMatch(["b", "c"], ["c", "d"]);
    assert ["", "a", "b", "c", "d"][4..] == ["d"];
    assert !SegMatch("b", "d");
    assert !GlobMatch(["b", "c"], ["d"]);
    assert ["", "a", "b", "c", "d"][5..] == [];
    assert !GlobMatch(["b", "c"], []);
  }

  lemma Glob108()
    ensures !GlobMatches("b/c", "/a/b/c/d")
  {
    Relative("b/c", "/a/b/c/d", ["b", "c"], ["", "a", "b", "c", "d"]);
    Segments108();
  }

  // Line 108: "b/c" against "/a/b/c/d" is no match.
  lemma Row108()
    ensures !PathMatch("b/c", "/a/b/c/d")
  {
    Glob108();
  }

  lemma Segments109()
    ensures !GlobMatch(["b", "c", ""], ["", "a", "b", "c", "d"][1..])
    ensures !GlobMatch(["b", "c", ""], ["", "a", "b", "c", "d"][2..])
    ensures !GlobMatch(["b", "c", ""], ["", "a", "b", "c", "d"][3..])
    ensures !GlobMatch(["b", "c", ""], ["", "a", "b", "c", "d"][4..])
    ensures !GlobMatch(["b", "c", ""], ["", "a", "b", "c", "d"][5..])
  {
    assert ["", "a", "b", "c", "d"][1..] == ["a", "b", "c", "d"];
    assert !SegMatch("b", "a");
    assert !GlobMatch(["b", "c", ""], ["a", "b", "c", "d"]);
    assert ["", "a", "b", "c", "d"][2..] == ["b", "c", "d"];
    assert SegMatch("b", "b");
    assert ["b", "c", "d"][1..] == ["c", "d"];
    assert SegMatch("c", "c");
    assert ["c", "d"][1..] == ["d"];
    assert !SegMatch("", "d");
    assert !GlobMatch([""], ["d"]);
    assert !GlobMatch(["c", ""], ["c", "d"]);
    assert !GlobMatch(["b", "c", ""], ["b", "c", "d"]);
    assert ["", "a", "b", "c", "d"][3..] == ["c", "d"];
    assert !SegMatch("b", "c");
    assert !GlobMatch(["b", "c", ""], ["c", "d"]);
    assert ["", "a", "b", "c", "d"][4..] == ["d"];
    assert !SegMatch("b", "d");
    assert !GlobMatch(["b", "c", ""], ["d"]);
    assert ["", "a", "b", "c", "d"][5..] == [];
    assert !GlobMatch(["b", "c", ""], []);
  }

  lemma Glob109()
    ensures !GlobMatches("b/c/", "/a/b/c/d")
  {
    Relative("b/c/", "/a/b/c/d", ["b", "c", ""], ["", "a", "b", "c", "d"]);
    Segments109();
  }

  // Line 109: "b/c/" against "/a/b/c/d" is no match.
  lemma Row109()
    ensures !PathMatch("b/c/", "/a/b/c/d")
  {
    Glob109();
  }

  lemma Segments110()
    ensures !GlobMatch(["", "b", "c"], ["", "a", "b", "c", "d"])
  {
    assert SegMatch("", "");
    assert ["", "a", "b", "c", "d"][1..] == ["a", "b", "c", "d"];
    assert !SegMatch("b", "a");
    assert !GlobMatch(["b", "c"], ["a", "b", "c", "d"]);
    assert !GlobMatch(["", "b", "c"], ["", "a", "b", "c", "d"]);
  }

  lemma Glob110()
    ensures !GlobMatches("/b/c", "/a/b/c/d")
  {
    Absolute("/b/c", "/a/b/c/d", ["", "b", "c"], ["", "a", "b", "c", "d"]);
    Segments110();
  }

  // Line 110: "/b/c" against "/a/b/c/d" is no match.
  lemma Row110()
    ensures !PathMatch("/b/c", "/a/b/c/d")
  {
    Glob110();
  }
}
