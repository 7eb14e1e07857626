/** The tiny regular-expression language that the path-glob compiler emits, with Python
    `re` semantics for the constructs it uses: `.` and `[^\n/]` never match a newline,
    `^` holds only at the start of the string, and `$` (without MULTILINE) holds at the end
    of the string or just before a newline that ends it. */
module Regex {

  /** One position of a compiled pattern. */
  datatype Atom =
    | Lit(c: char)   // an escaped literal character
    | AnyStar        // `.*`
    | SegStar        // `[^\n/]*`

  /** `^`? atoms `$`*: the start anchor is optional and `$` may be written several times. */
  datatype Regex = Regex(startAnchor: bool, atoms: seq<Atom>, endAnchors: nat)

  /** Does `a` match all of `w`? */
  predicate Exact(a: seq<Atom>, w: string)
    decreases |a|, |w|
  {
    if a == [] then w == []
    else match a[0]
      case Lit(c) => w != [] && w[0] == c && Exact(a[1..], w[1..])
      case AnyStar => Exact(a[1..], w) || (w != [] && w[0] != '\n' && Exact(a, w[1..]))
      case SegStar => Exact(a[1..], w) || (w != [] && w[0] != '\n' && w[0] != '/' && Exact(a, w[1..]))
  }

  /** Does `a` match a prefix of `w` that, when `anchored`, is all of `w` or all of it but a
      final newline (Python's `$`)? */
  predicate MatchHere(a: seq<Atom>, w: string, anchored: bool)
  {
    if anchored then
      Exact(a, w) || (w != [] && w[|w| - 1] == '\n' && Exact(a, w[..|w| - 1]))
    else
      exists k :: 0 <= k <= |w| && Exact(a, w[..k])
  }

  /** `re.search(r, s) is not None`: some start index lets the pattern match. */
  predicate Search(r: Regex, s: string)
  {
    exists i :: 0 <= i <= |s| && (!r.startAnchor || i == 0) && MatchHere(r.atoms, s[i..], r.endAnchors > 0)
  }

  /** Writing `$` twice matches exactly what writing it once does. */
  lemma RepeatedEndAnchor(a: seq<Atom>, startAnchor: bool, n: nat, s: string)
    requires n >= 1
    ensures Search(Regex(startAnchor, a, n), s) == Search(Regex(startAnchor, a, 1), s)
  {
  }

  /** On text without newlines the end anchor means "match all of the rest". */
  lemma AnchoredWithoutNewline(a: seq<Atom>, w: string)
    requires '\n' !in w
    ensures MatchHere(a, w, true) == Exact(a, w)
  {
    if w != [] {
      assert w[|w| - 1] in w;
    }
  }

  /** `.*` matches exactly the newline-free strings. */
  lemma {:induction false} AnyStarExact(w: string)
    ensures Exact([AnyStar], w) <==> '\n' !in w
    decreases |w|
  {
    assert [AnyStar][1..] == [];
    if w != [] {
      AnyStarExact(w[1..]);
      assert w == [w[0]] + w[1..];
    }
  }

  /** Matching a concatenation means matching its two halves against a split of the text. */
  lemma {:induction false} ExactConcat(a: seq<Atom>, b: seq<Atom>, w: string)
    ensures Exact(a + b, w) <==> exists k :: 0 <= k <= |w| && Exact(a, w[..k]) && Exact(b, w[k..])
    decreases |a|, |w|
  {
    if a == [] {
      assert a + b == b;
      assert w[..0] == [] && w[0..] == w;
    } else {
      assert (a + b)[0] == a[0];
      assert (a + b)[1..] == a[1..] + b;
      match a[0]
      case Lit(c) =>
        if w != [] {
          ExactConcat(a[1..], b, w[1..]);
          if Exact(a + b, w) {
            var k' :| 0 <= k' <= |w[1..]| && Exact(a[1..], w[1..][..k']) && Exact(b, w[1..][k'..]);
            assert w[..k' + 1][1..] == w[1..][..k'] && w[k' + 1..] == w[1..][k'..];
          }
          if exists k :: 0 <= k <= |w| && Exact(a, w[..k]) && Exact(b, w[k..]) {
            var k :| 0 <= k <= |w| && Exact(a, w[..k]) && Exact(b, w[k..]);
            assert k >= 1;
            assert w[..k][1..] == w[1..][..k - 1] && w[k..] == w[1..][k - 1..];
          }
        } else {
          assert forall k :: 0 <= k <= |w| ==> k == 0 && w[..k] == [];
        }
      case AnyStar =>
        ExactConcat(a[1..], b, w);
        if w != [] {
          ExactConcat(a, b, w[1..]);
        }
        ConcatStarStep(a, b, w);
      case SegStar =>
        ExactConcat(a[1..], b, w);
        if w != [] {
          ExactConcat(a, b, w[1..]);
        }
        ConcatStarStep(a, b, w);
    }
  }

  /** A star atom may consume the next character of the text. */
  predicate StarTakes(x: Atom, c: char)
  {
    c != '\n' && (x == AnyStar || (x == SegStar && c != '/'))
  }

  /** How a leading star unfolds, one step. */
  lemma StarUnfold(a: seq<Atom>, w: string)
    requires a != [] && (a[0] == AnyStar || a[0] == SegStar)
    ensures Exact(a, w) <==> Exact(a[1..], w) || (w != [] && StarTakes(a[0], w[0]) && Exact(a, w[1..]))
  {
  }

  /** The star case of `ExactConcat`, given the two induction hypotheses. */
  lemma ConcatStarStep(a: seq<Atom>, b: seq<Atom>, w: string)
    requires a != [] && (a[0] == AnyStar || a[0] == SegStar)
    requires Exact(a[1..] + b, w) <==> exists k :: 0 <= k <= |w| && Exact(a[1..], w[..k]) && Exact(b, w[k..])
    requires w != [] ==>
      (Exact(a + b, w[1..]) <==> exists k :: 0 <= k <= |w[1..]| && Exact(a, w[1..][..k]) && Exact(b, w[1..][k..]))
    ensures Exact(a + b, w) <==> exists k :: 0 <= k <= |w| && Exact(a, w[..k]) && Exact(b, w[k..])
  {
    assert (a + b)[0] == a[0];
    assert (a + b)[1..] == a[1..] + b;
    StarUnfold(a + b, w);
    if Exact(a + b, w) {
      ConcatStarForward(a, b, w);
    }
    if exists k :: 0 <= k <= |w| && Exact(a, w[..k]) && Exact(b, w[k..]) {
      var k :| 0 <= k <= |w| && Exact(a, w[..k]) && Exact(b, w[k..]);
      ConcatStarBackward(a, b, w, k);
    }
  }

  /** The backward half of `ConcatStarStep`, for one split of the text. */
  lemma ConcatStarBackward(a: seq<Atom>, b: seq<Atom>, w: string, k: nat)
    requires a != [] && (a[0] == AnyStar || a[0] == SegStar)
    requires (exists k :: 0 <= k <= |w| && Exact(a[1..], w[..k]) && Exact(b, w[k..])) ==> Exact(a[1..] + b, w)
    requires w != [] ==>
      ((exists k :: 0 <= k <= |w[1..]| && Exact(a, w[1..][..k]) && Exact(b, w[1..][k..])) ==> Exact(a + b, w[1..]))
    requires Exact(a + b, w) <==> Exact(a[1..] + b, w) || (w != [] && StarTakes(a[0], w[0]) && Exact(a + b, w[1..]))
    requires k <= |w| && Exact(a, w[..k]) && Exact(b, w[k..])
    ensures Exact(a + b, w)
  {
    StarUnfold(a, w[..k]);
    if !Exact(a[1..], w[..k]) {
      assert w[..k][1..] == w[1..][..k - 1] && w[k..] == w[1..][k - 1..];
    }
  }

  lemma ConcatStarForward(a: seq<Atom>, b: seq<Atom>, w: string)
    requires a != [] && (a[0] == AnyStar || a[0] == SegStar)
    requires Exact(a[1..] + b, w) ==> exists k :: 0 <= k <= |w| && Exact(a[1..], w[..k]) && Exact(b, w[k..])
    requires w != [] ==>
      (Exact(a + b, w[1..]) ==> exists k :: 0 <= k <= |w[1..]| && Exact(a, w[1..][..k]) && Exact(b, w[1..][k..]))
    requires Exact(a[1..] + b, w) || (w != [] && StarTakes(a[0], w[0]) && Exact(a + b, w[1..]))
    ensures exists k :: 0 <= k <= |w| && Exact(a, w[..k]) && Exact(b, w[k..])
  {
    if Exact(a[1..] + b, w) {
      var k :| 0 <= k <= |w| && Exact(a[1..], w[..k]) && Exact(b, w[k..]);
      StarUnfold(a, w[..k]);
    } else {
      var k :| 0 <= k <= |w[1..]| && Exact(a, w[1..][..k]) && Exact(b, w[1..][k..]);
      assert w[..k + 1][1..] == w[1..][..k] && w[k + 1..] == w[1..][k..];
      StarUnfold(a, w[..k + 1]);
    }
  }

  /** Matching `a`, a literal `/`, then `b` means splitting the text at one of its slashes. */
  lemma ExactAroundSlash(a: seq<Atom>, b: seq<Atom>, w: string)
    ensures Exact(a + [Lit('/')] + b, w) <==>
      exists k :: 0 <= k < |w| && w[k] == '/' && Exact(a, w[..k]) && Exact(b, w[k + 1..])
  {
    var sb := [Lit('/')] + b;
    assert a + [Lit('/')] + b == a + sb;
    assert sb[0] == Lit('/') && sb[1..] == b;
    ExactConcat(a, sb, w);
    if Exact(a + sb, w) {
      var k :| 0 <= k <= |w| && Exact(a, w[..k]) && Exact(sb, w[k..]);
      assert w[k..][1..] == w[k + 1..];
    }
    if exists k :: 0 <= k < |w| && w[k] == '/' && Exact(a, w[..k]) && Exact(b, w[k + 1..]) {
      var k :| 0 <= k < |w| && w[k] == '/' && Exact(a, w[..k]) && Exact(b, w[k + 1..]);
      assert w[k..][1..] == w[k + 1..];
      assert Exact(sb, w[k..]);
    }
  }
}
