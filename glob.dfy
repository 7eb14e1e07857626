/** What a path glob means, stated on `/`-separated segments rather than on the regular
    expression the compiler emits. A path such as `/a/b` has the segments `["", "a", "b"]`
    (the empty first segment stands for the root). */
module Glob {
  import opened Strings

  /** One glob segment against one path segment: a `*` matches any run of characters
      other than `/`, every other character matches itself. */
  predicate SegMatch(ps: string, w: string)
    decreases |ps|, |w|
  {
    if ps == [] then w == []
    else if ps[0] == '*' then SegMatch(ps[1..], w) || (w != [] && w[0] != '/' && SegMatch(ps, w[1..]))
    else w != [] && w[0] == ps[0] && SegMatch(ps[1..], w[1..])
  }

  /** Glob segments against path segments, all of them: a `**` segment stands for one or
      more whole path segments (their text may be empty), every other glob segment for
      exactly one. */
  predicate GlobMatch(pss: seq<string>, ws: seq<string>)
    decreases |pss|
  {
    if pss == [] then ws == []
    else if pss[0] == "**" then exists m :: 1 <= m <= |ws| && GlobMatch(pss[1..], ws[m..])
    else ws != [] && SegMatch(pss[0], ws[0]) && GlobMatch(pss[1..], ws[1..])
  }

  predicate IsAbsolute(p: string)
  {
    |p| > 0 && p[0] == '/'
  }

  /** The meaning of glob `p` on path `s`: an absolute glob accounts for every segment of the
      path; any other glob accounts for the segments from some segment boundary to the end. */
  predicate GlobMatches(p: string, s: string)
  {
    var pss := Split(p, '/');
    var ws := Split(s, '/');
    if IsAbsolute(p) then GlobMatch(pss, ws)
    else exists k :: 1 <= k <= |ws| && GlobMatch(pss, ws[k..])
  }

  /** A glob segment without `/` matches only text without `/`: a `*` never crosses a segment
      boundary. */
  lemma {:induction false} SegMatchStaysInSegment(ps: string, w: string)
    requires '/' !in ps && SegMatch(ps, w)
    ensures '/' !in w
    decreases |ps|, |w|
  {
    if ps != [] {
      assert ps[0] in ps;
      if ps[0] == '*' {
        if SegMatch(ps[1..], w) {
          assert forall c :: c in ps[1..] ==> c in ps;
          SegMatchStaysInSegment(ps[1..], w);
        } else {
          SegMatchStaysInSegment(ps, w[1..]);
          assert w == [w[0]] + w[1..];
        }
      } else {
        assert forall c :: c in ps[1..] ==> c in ps;
        SegMatchStaysInSegment(ps[1..], w[1..]);
        assert w == [w[0]] + w[1..];
      }
    }
  }

  /** Some glob segments never match an empty list of path segments. */
  lemma NothingMatchesNoSegments(pss: seq<string>)
    requires pss != []
    ensures !GlobMatch(pss, [])
  {
  }

  /** Without `**`, a glob matches exactly as many path segments as it has. */
  lemma {:induction false} NoGlobStarCountsSegments(pss: seq<string>, ws: seq<string>)
    requires forall i :: 0 <= i < |pss| ==> pss[i] != "**"
    requires GlobMatch(pss, ws)
    ensures |ws| == |pss|
    decreases |pss|
  {
    if pss != [] {
      NoGlobStarCountsSegments(pss[1..], ws[1..]);
    }
  }

  /** A lone `**` matches any non-empty list of segments. */
  lemma GlobStarMatchesAnything(ws: seq<string>)
    ensures GlobMatch(["**"], ws) <==> ws != []
  {
    if ws != [] {
      assert ws[|ws|..] == [];
      assert GlobMatch(["**"][1..], ws[|ws|..]);
    }
  }
}
