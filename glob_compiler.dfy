/** `fn_to_re` (example/path_matcher.py): the compiler from a `/`-separated path glob to the
    regular expression that `PathPattern` searches with. */
module GlobCompiler {
  import opened Strings
  import opened Regex
  import opened Glob

  /** `re.escape(segment).replace('\\*', '[^\n/]*')`: each `*` becomes a segment-local star,
      each other character an escaped literal. */
  function SegmentAtoms(seg: string): seq<Atom>
    decreases |seg|
  {
    if seg == [] then []
    else [if seg[0] == '*' then SegStar else Lit(seg[0])] + SegmentAtoms(seg[1..])
  }

  /** The regular expression for one segment of the glob. */
  function SubRe(seg: string): seq<Atom>
  {
    if seg == "**" then [AnyStar] else SegmentAtoms(seg)
  }

  /** `'/'.join(parts)` on compiled segments. */
  function JoinAtoms(parts: seq<seq<Atom>>): seq<Atom>
    decreases |parts|
  {
    if parts == [] then []
    else if |parts| == 1 then parts[0]
    else parts[0] + [Lit('/')] + JoinAtoms(parts[1..])
  }

  /** The compiled segments of a glob, one per piece of its split on `/`. */
  function Translate(segs: seq<string>): seq<seq<Atom>>
  {
    seq(|segs|, i requires 0 <= i < |segs| => SubRe(segs[i]))
  }

  /** What `fn_to_re(pattern)` returns: `^` body `$$` for a glob starting with `/`,
      `/` body `$` for a glob without `/`, and `.*` `/` body `$` otherwise. */
  function Compiled(pattern: string): Regex
  {
    var body := JoinAtoms(Translate(Split(pattern, '/')));
    if IsAbsolute(pattern) then Regex(true, body, 2)
    else if '/' !in pattern then Regex(false, [Lit('/')] + body, 1)
    else Regex(false, [AnyStar, Lit('/')] + body, 1)
  }

  /** fn_to_re: translate each segment in turn, join them with `/`, then anchor. */
  method FnToRe(pattern: string) returns (r: Regex)
    ensures r == Compiled(pattern)
  {
    var subPatterns := Split(pattern, '/');
    var rePattern: seq<seq<Atom>> := [];
    for n := 0 to |subPatterns|
      invariant |rePattern| == n
      invariant forall j :: 0 <= j < n ==> rePattern[j] == SubRe(subPatterns[j])
    {
      var subPattern := subPatterns[n];
      if subPattern == "**" {
        // A `**` segment becomes `.*`, which crosses segment boundaries.
        rePattern := rePattern + [[AnyStar]];
      } else {
        rePattern := rePattern + [SegmentAtoms(subPattern)];
      }
    }
    assert rePattern == Translate(subPatterns);
    var fullPattern := JoinAtoms(rePattern);
    var startAnchor := false;
    var endAnchors := 0;
    if |pattern| > 0 && pattern[0] == '/' {
      startAnchor := true;
      endAnchors := endAnchors + 1;
    } else if '/' !in pattern {
      // The glob must match the last segment.
      fullPattern := [Lit('/')] + fullPattern;
    } else {
      // The glob starts at the beginning of some segment.
      fullPattern := [AnyStar, Lit('/')] + fullPattern;
    }
    endAnchors := endAnchors + 1;
    r := Regex(startAnchor, fullPattern, endAnchors);
  }

  /** The compiled form of a glob segment matches what the glob segment means. */
  lemma {:induction false} SegmentAtomsMatch(seg: string, w: string)
    requires '\n' !in w
    ensures Exact(SegmentAtoms(seg), w) <==> SegMatch(seg, w)
    decreases |seg|, |w|
  {
    if seg != [] {
      var a := SegmentAtoms(seg);
      assert a[1..] == SegmentAtoms(seg[1..]);
      if w != [] {
        assert w[0] in w;
        assert forall c :: c in w[1..] ==> c in w;
        SegmentAtomsMatch(seg, w[1..]);
        SegmentAtomsMatch(seg[1..], w[1..]);
      }
      SegmentAtomsMatch(seg[1..], w);
    }
  }

  /** A compiled segment other than `**` matches only text without `/`. */
  lemma SegmentAtomsStayInSegment(seg: string, w: string)
    requires '/' !in seg && '\n' !in w && Exact(SegmentAtoms(seg), w)
    ensures '/' !in w
  {
    SegmentAtomsMatch(seg, w);
    SegMatchStaysInSegment(seg, w);
  }

  lemma TranslateTail(segs: seq<string>)
    requires segs != []
    ensures Translate(segs)[0] == SubRe(segs[0])
    ensures Translate(segs)[1..] == Translate(segs[1..])
  {
  }

  /** The joined body of the compiled glob matches a newline-free text exactly when the
      glob segments match the text's segments. */
  lemma {:induction false} BodyMatch(segs: seq<string>, w: string)
    requires segs != []
    requires forall i :: 0 <= i < |segs| ==> '/' !in segs[i]
    requires '\n' !in w
    ensures Exact(JoinAtoms(Translate(segs)), w) <==> GlobMatch(segs, Split(w, '/'))
    decreases |segs|, 0
  {
    var ws := Split(w, '/');
    var head := segs[0];
    TranslateTail(segs);
    if |segs| == 1 {
      assert segs[1..] == [];
      if head == "**" {
        AnyStarExact(w);
        GlobStarMatchesAnything(ws);
        assert segs == ["**"];
      } else {
        SegmentAtomsMatch(head, w);
        SplitSingleIff(w, '/');
        if Exact(SegmentAtoms(head), w) {
          SegMatchStaysInSegment(head, w);
        }
      }
    } else {
      var rest := segs[1..];
      assert forall i :: 0 <= i < |rest| ==> rest[i] == segs[i + 1];
      var body := JoinAtoms(Translate(rest));
      assert JoinAtoms(Translate(segs)) == SubRe(head) + [Lit('/')] + body;
      ExactAroundSlash(SubRe(head), body, w);
      if head == "**" {
        StarBodyMatch(rest, w);
      } else {
        SegBodyMatch(head, rest, w);
      }
    }
  }

  /** `BodyMatch` when the first glob segment is `**`. */
  lemma {:induction false} StarBodyMatch(rest: seq<string>, w: string)
    requires rest != []
    requires forall i :: 0 <= i < |rest| ==> '/' !in rest[i]
    requires '\n' !in w
    ensures (exists k :: 0 <= k < |w| && w[k] == '/' && Exact([AnyStar], w[..k]) && Exact(JoinAtoms(Translate(rest)), w[k + 1..]))
            <==> GlobMatch(["**"] + rest, Split(w, '/'))
    decreases |rest|, 2
  {
    var ws := Split(w, '/');
    var body := JoinAtoms(Translate(rest));
    if exists k :: 0 <= k < |w| && w[k] == '/' && Exact([AnyStar], w[..k]) && Exact(body, w[k + 1..]) {
      var k :| 0 <= k < |w| && w[k] == '/' && Exact([AnyStar], w[..k]) && Exact(body, w[k + 1..]);
      StarBodyAt(rest, w, k);
    }
    if GlobMatch(["**"] + rest, ws) {
      assert (["**"] + rest)[1..] == rest;
      var m :| 1 <= m <= |ws| && GlobMatch(rest, ws[m..]);
      var k := SlashBeforeStarRest(rest, w, m);
    }
  }

  /** The forward half of `StarBodyMatch`, for one slash. */
  lemma {:induction false} StarBodyAt(rest: seq<string>, w: string, k: nat)
    requires rest != []
    requires forall i :: 0 <= i < |rest| ==> '/' !in rest[i]
    requires '\n' !in w
    requires k < |w| && w[k] == '/' && Exact(JoinAtoms(Translate(rest)), w[k + 1..])
    ensures GlobMatch(["**"] + rest, Split(w, '/'))
    decreases |rest|, 1
  {
    var ws := Split(w, '/');
    assert (["**"] + rest)[1..] == rest;
    assert forall c :: c in w[k + 1..] ==> c in w;
    BodyMatch(rest, w[k + 1..]);
    var m := SplitAfterSep(w, '/', k);
    assert GlobMatch(rest, ws[m..]);
  }

  /** The backward half of `StarBodyMatch`, for one suffix of the segments. */
  lemma {:induction false} SlashBeforeStarRest(rest: seq<string>, w: string, m: nat) returns (k: nat)
    requires rest != []
    requires forall i :: 0 <= i < |rest| ==> '/' !in rest[i]
    requires '\n' !in w
    requires 1 <= m <= |Split(w, '/')| && GlobMatch(rest, Split(w, '/')[m..])
    ensures k < |w| && w[k] == '/' && Exact([AnyStar], w[..k]) && Exact(JoinAtoms(Translate(rest)), w[k + 1..])
    decreases |rest|, 1
  {
    k := SepBeforeSuffix(w, '/', m);
    assert forall c :: c in w[k + 1..] ==> c in w;
    assert forall c :: c in w[..k] ==> c in w;
    BodyMatch(rest, w[k + 1..]);
    AnyStarExact(w[..k]);
  }

  /** `BodyMatch` when the first glob segment is not `**`. */
  lemma {:induction false} SegBodyMatch(head: string, rest: seq<string>, w: string)
    requires head != "**" && '/' !in head
    requires rest != []
    requires forall i :: 0 <= i < |rest| ==> '/' !in rest[i]
    requires '\n' !in w
    ensures (exists k :: 0 <= k < |w| && w[k] == '/' && Exact(SegmentAtoms(head), w[..k]) && Exact(JoinAtoms(Translate(rest)), w[k + 1..]))
            <==> GlobMatch([head] + rest, Split(w, '/'))
    decreases |rest|, 2
  {
    var ws := Split(w, '/');
    var body := JoinAtoms(Translate(rest));
    assert ([head] + rest)[1..] == rest && ([head] + rest)[0] == head;
    if exists k :: 0 <= k < |w| && w[k] == '/' && Exact(SegmentAtoms(head), w[..k]) && Exact(body, w[k + 1..]) {
      var k :| 0 <= k < |w| && w[k] == '/' && Exact(SegmentAtoms(head), w[..k]) && Exact(body, w[k + 1..]);
      SegBodyAt(head, rest, w, k);
    }
    if GlobMatch([head] + rest, ws) {
      assert ws != [] && SegMatch(head, ws[0]) && GlobMatch(rest, ws[1..]);
      if '/' !in w {
        SplitSingleIff(w, '/');
        assert ws[1..] == [];
        NothingMatchesNoSegments(rest);
      }
      var k := FirstSep(w, '/');
      SegBodyAt(head, rest, w, k);
    }
  }

  /** The segment case of `BodyMatch` at one candidate slash `k`: a compiled segment can
      only end at the first slash, where the split of the text agrees with the glob. */
  lemma {:induction false} SegBodyAt(head: string, rest: seq<string>, w: string, k: nat)
    requires head != "**" && '/' !in head
    requires rest != []
    requires forall i :: 0 <= i < |rest| ==> '/' !in rest[i]
    requires '\n' !in w
    requires k < |w| && w[k] == '/'
    ensures Exact(SegmentAtoms(head), w[..k]) && Exact(JoinAtoms(Translate(rest)), w[k + 1..])
            ==> GlobMatch([head] + rest, Split(w, '/'))
    ensures '/' !in w[..k] && GlobMatch([head] + rest, Split(w, '/'))
            ==> Exact(SegmentAtoms(head), w[..k]) && Exact(JoinAtoms(Translate(rest)), w[k + 1..])
    decreases |rest|, 1
  {
    var ws := Split(w, '/');
    assert ([head] + rest)[1..] == rest && ([head] + rest)[0] == head;
    assert forall c :: c in w[k + 1..] ==> c in w;
    assert forall c :: c in w[..k] ==> c in w;
    SegmentAtomsMatch(head, w[..k]);
    BodyMatch(rest, w[k + 1..]);
    if Exact(SegmentAtoms(head), w[..k]) {
      SegmentAtomsStayInSegment(head, w[..k]);
    }
    if '/' !in w[..k] {
      SplitAtFirst(w, '/', k);
    }
  }

  /** The compiled glob, searched in a newline-free path, finds a match exactly when the glob
      means the path: the three anchoring rules of `fn_to_re` are the two cases of
      `GlobMatches` (absolute, or starting at any segment boundary after the root). */
  lemma CompiledMeansGlob(p: string, s: string)
    requires IsAbsolute(s) && '\n' !in s
    ensures Search(Compiled(p), s) <==> GlobMatches(p, s)
  {
    var segs := Split(p, '/');
    SplitPiecesHaveNoSep(p, '/');
    var body := JoinAtoms(Translate(segs));
    var r := Compiled(p);
    assert s[0..] == s;
    if IsAbsolute(p) {
      AnchoredWithoutNewline(body, s);
      BodyMatch(segs, s);
    } else {
      NewlineFreeSuffixes(s);
      if '/' !in p {
        forall i | 0 <= i <= |s|
          ensures MatchHere(r.atoms, s[i..], true) <==> i < |s| && s[i] == '/' && Exact(body, s[i + 1..])
        {
          AnchoredWithoutNewline(r.atoms, s[i..]);
          assert r.atoms[0] == Lit('/') && r.atoms[1..] == body;
          if i < |s| {
            assert s[i..][1..] == s[i + 1..];
          }
        }
      } else {
        forall i | 0 <= i <= |s|
          ensures MatchHere(r.atoms, s[i..], true) ==> exists k :: 0 <= k < |s| && s[k] == '/' && Exact(body, s[k + 1..])
          ensures i == 0 ==> (MatchHere(r.atoms, s[i..], true) <== exists k :: 0 <= k < |s| && s[k] == '/' && Exact(body, s[k + 1..]))
        {
          AnchoredWithoutNewline(r.atoms, s[i..]);
          assert r.atoms == [AnyStar] + [Lit('/')] + body;
          ExactAroundSlash([AnyStar], body, s[i..]);
          if Exact(r.atoms, s[i..]) {
            var k :| 0 <= k < |s[i..]| && s[i..][k] == '/' && Exact([AnyStar], s[i..][..k]) && Exact(body, s[i..][k + 1..]);
            assert s[i..][k + 1..] == s[i + k + 1..];
          }
          if i == 0 && exists k :: 0 <= k < |s| && s[k] == '/' && Exact(body, s[k + 1..]) {
            var k :| 0 <= k < |s| && s[k] == '/' && Exact(body, s[k + 1..]);
            AnyStarExact(s[..k]);
            assert forall c :: c in s[..k] ==> c in s;
          }
        }
      }
      SlashThenBody(segs, s);
    }
  }

  lemma NewlineFreeSuffixes(s: string)
    requires '\n' !in s
    ensures forall i :: 0 <= i <= |s| ==> '\n' !in s[i..]
  {
    forall i | 0 <= i <= |s| ensures '\n' !in s[i..] {
      assert forall c :: c in s[i..] ==> c in s;
    }
  }

  /** A non-absolute compiled glob starts right after some slash of the path: the text after
      a slash is matched by the body exactly when the glob matches a suffix of the path's
      segments that leaves out at least the root segment. */
  lemma SlashThenBody(segs: seq<string>, s: string)
    requires segs != []
    requires forall i :: 0 <= i < |segs| ==> '/' !in segs[i]
    requires '\n' !in s
    ensures (exists k :: 0 <= k < |s| && s[k] == '/' && Exact(JoinAtoms(Translate(segs)), s[k + 1..]))
            <==> exists m :: 1 <= m <= |Split(s, '/')| && GlobMatch(segs, Split(s, '/')[m..])
  {
    var ws := Split(s, '/');
    var body := JoinAtoms(Translate(segs));
    if exists k :: 0 <= k < |s| && s[k] == '/' && Exact(body, s[k + 1..]) {
      var k :| 0 <= k < |s| && s[k] == '/' && Exact(body, s[k + 1..]);
      var m := SegmentsAfterSlash(segs, s, k);
    }
    if exists m :: 1 <= m <= |ws| && GlobMatch(segs, ws[m..]) {
      var m :| 1 <= m <= |ws| && GlobMatch(segs, ws[m..]);
      var k := SlashBeforeSegments(segs, s, m);
    }
  }

  /** The forward half of `SlashThenBody`, for one slash. */
  lemma SegmentsAfterSlash(segs: seq<string>, s: string, k: nat) returns (m: nat)
    requires segs != []
    requires forall i :: 0 <= i < |segs| ==> '/' !in segs[i]
    requires '\n' !in s
    requires k < |s| && s[k] == '/' && Exact(JoinAtoms(Translate(segs)), s[k + 1..])
    ensures 1 <= m <= |Split(s, '/')| && GlobMatch(segs, Split(s, '/')[m..])
  {
    assert forall c :: c in s[k + 1..] ==> c in s;
    BodyMatch(segs, s[k + 1..]);
    m := SplitAfterSep(s, '/', k);
  }

  /** The backward half of `SlashThenBody`, for one suffix of the segments. */
  lemma SlashBeforeSegments(segs: seq<string>, s: string, m: nat) returns (k: nat)
    requires segs != []
    requires forall i :: 0 <= i < |segs| ==> '/' !in segs[i]
    requires '\n' !in s
    requires 1 <= m <= |Split(s, '/')| && GlobMatch(segs, Split(s, '/')[m..])
    ensures k < |s| && s[k] == '/' && Exact(JoinAtoms(Translate(segs)), s[k + 1..])
  {
    k := SepBeforeSuffix(s, '/', m);
    assert forall c :: c in s[k + 1..] ==> c in s;
    BodyMatch(segs, s[k + 1..]);
  }
}
