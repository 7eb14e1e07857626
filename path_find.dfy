/** The glob queries of `_PathBase` (example/construct_uml.py): `find_in`, `find_one_in`
    and the four `find_*` helpers built on them. A node is judged by its path relative to
    the node the query is made on. */
module PathFind {
  import opened Wrappers
  import opened Glob
  import opened PathMatcher
  import opened PathTree
  import opened PathWalk

  /** Node `x`'s path relative to `self` passes matcher `m`. Every path starts with `/`, as
      `matches` demands. */
  predicate Hit(t: Tree, self: nat, m: Matcher, x: nat)
    requires Rooted(t) && x < |t|
  {
    PathStartsWithSlash(t, x, Some(self));
    MatcherMatches(m, Path(t, x, Some(self)))
  }

  /** `r` is `s` with some elements left out, the rest in their order. */
  predicate Subsequence(r: seq<nat>, s: seq<nat>)
    decreases |s|
  {
    if r == [] then true
    else if s == [] then false
    else (r[0] == s[0] && Subsequence(r[1..], s[1..])) || Subsequence(r, s[1..])
  }

  predicate AllNodes(t: Tree, nodes: seq<nat>)
  {
    forall k :: 0 <= k < |nodes| ==> nodes[k] < |t|
  }

  /** The loop of `find_in`: the nodes whose path passes, in the order given. */
  function Filter(t: Tree, self: nat, m: Matcher, nodes: seq<nat>): (r: seq<nat>)
    requires Rooted(t) && AllNodes(t, nodes)
    ensures Subsequence(r, nodes)
    ensures forall k :: 0 <= k < |r| ==> r[k] in nodes && r[k] < |t| && Hit(t, self, m, r[k])
    ensures forall k :: 0 <= k < |nodes| && Hit(t, self, m, nodes[k]) ==> nodes[k] in r
    decreases |nodes|
  {
    if nodes == [] then []
    else
      var rest := Filter(t, self, m, nodes[1..]);
      if Hit(t, self, m, nodes[0]) then [nodes[0]] + rest else rest
  }

  /** How many positions of the list hold a node that passes; a node listed twice counts
      twice, as the list `find_one_in` collects holds it twice. */
  function HitCount(t: Tree, self: nat, m: Matcher, nodes: seq<nat>): (c: nat)
    requires Rooted(t) && AllNodes(t, nodes)
    ensures c <= |nodes|
    decreases |nodes|
  {
    if nodes == [] then 0
    else (if Hit(t, self, m, nodes[0]) then 1 else 0) + HitCount(t, self, m, nodes[1..])
  }

  /** `find_in` yields one match per listed occurrence of a passing node. */
  lemma {:induction false} FilterCount(t: Tree, self: nat, m: Matcher, nodes: seq<nat>)
    requires Rooted(t) && AllNodes(t, nodes)
    ensures |Filter(t, self, m, nodes)| == HitCount(t, self, m, nodes)
    decreases |nodes|
  {
    if nodes != [] {
      FilterCount(t, self, m, nodes[1..]);
    }
  }

  /** `find_in` yields every listed occurrence of a passing node and nothing else: each
      passing node as often as it is listed. */
  lemma FilterOccurrences(t: Tree, self: nat, m: Matcher, nodes: seq<nat>)
    requires Rooted(t) && AllNodes(t, nodes)
    ensures forall x: nat ::
      multiset(Filter(t, self, m, nodes))[x] == (if x < |t| && Hit(t, self, m, x) then multiset(nodes)[x] else 0)
  {
    forall x: nat
      ensures multiset(Filter(t, self, m, nodes))[x] == (if x < |t| && Hit(t, self, m, x) then multiset(nodes)[x] else 0)
    {
      FilterOccurrencesOf(t, self, m, nodes, x);
    }
  }

  lemma {:induction false} FilterOccurrencesOf(t: Tree, self: nat, m: Matcher, nodes: seq<nat>, x: nat)
    requires Rooted(t) && AllNodes(t, nodes)
    ensures multiset(Filter(t, self, m, nodes))[x] == (if x < |t| && Hit(t, self, m, x) then multiset(nodes)[x] else 0)
    decreases |nodes|
  {
    if nodes != [] {
      var head := nodes[0];
      var tail := nodes[1..];
      var rest := Filter(t, self, m, tail);
      FilterOccurrencesOf(t, self, m, tail, x);
      assert nodes == [head] + tail;
      assert multiset(nodes) == multiset([head]) + multiset(tail);
      if Hit(t, self, m, head) {
        assert Filter(t, self, m, nodes) == [head] + rest;
        assert multiset([head] + rest) == multiset([head]) + multiset(rest);
      } else {
        assert Filter(t, self, m, nodes) == rest;
      }
    }
  }

  /** `find_in(nodes, pattern)`: the pattern is turned into a matcher first (failing as
      `create_from` fails), then the nodes whose path relative to `self` it matches are
      yielded in order. */
  function FindIn(t: Tree, self: nat, nodes: seq<nat>, pattern: Value): (r: Result<seq<nat>, PatternError>)
    requires Rooted(t) && AllNodes(t, nodes)
    ensures r.Ok? <==> CreateFrom(pattern).Ok?
    ensures r.Err? ==> r.error == CreateFrom(pattern).error
    ensures r.Ok? ==> Subsequence(r.value, nodes)
    ensures r.Ok? ==> forall k :: 0 <= k < |r.value| ==>
      r.value[k] in nodes && r.value[k] < |t| && Hit(t, self, CreateFrom(pattern).value, r.value[k])
    ensures r.Ok? ==> forall k :: 0 <= k < |nodes| && Hit(t, self, CreateFrom(pattern).value, nodes[k]) ==>
      nodes[k] in r.value
    ensures r.Ok? ==> forall x: nat ::
      multiset(r.value)[x] == (if x < |t| && Hit(t, self, CreateFrom(pattern).value, x) then multiset(nodes)[x] else 0)
  {
    match CreateFrom(pattern)
    case Err(e) => Err(e)
    case Ok(m) =>
      FilterOccurrences(t, self, m, nodes);
      Ok(Filter(t, self, m, nodes))
  }

  /** Two different nodes of the list pass the matcher. */
  predicate TwoHits(t: Tree, self: nat, m: Matcher, nodes: seq<nat>)
    requires Rooted(t) && AllNodes(t, nodes)
  {
    exists a, b :: 0 <= a < b < |nodes| && nodes[a] != nodes[b] && Hit(t, self, m, nodes[a]) && Hit(t, self, m, nodes[b])
  }

  /** Why `find_one_in` raised. */
  datatype FindError =
    | BadPattern(cause: PatternError)  // raised by `create_from`
    | NotFound                         // "Pattern ... not found"
    | FoundMany(count: nat)            // "Pattern ... found <count> times, expecting only one."

  /** A subsequence of a list without repeats has no repeats. */
  lemma {:induction false} SubsequenceDistinct(r: seq<nat>, s: seq<nat>)
    requires Subsequence(r, s) && Distinct(s)
    ensures Distinct(r)
    decreases |s|
  {
    if r != [] {
      assert Distinct(s[1..]) by {
        forall a, b | 0 <= a < b < |s[1..]| ensures s[1..][a] != s[1..][b] {
          assert s[1..][a] == s[a + 1] && s[1..][b] == s[b + 1];
        }
      }
      if r[0] == s[0] && Subsequence(r[1..], s[1..]) {
        SubsequenceDistinct(r[1..], s[1..]);
        SubsequenceMembers(r[1..], s[1..]);
        forall a, b | 0 <= a < b < |r| ensures r[a] != r[b] {
          if a == 0 {
            assert r[b] == r[1..][b - 1];
            assert r[b] in s[1..];
          } else {
            assert r[a] == r[1..][a - 1] && r[b] == r[1..][b - 1];
          }
        }
      } else {
        SubsequenceDistinct(r, s[1..]);
      }
    }
  }

  /** Every element of a subsequence is an element of the list. */
  lemma {:induction false} SubsequenceMembers(r: seq<nat>, s: seq<nat>)
    requires Subsequence(r, s)
    ensures forall x :: x in r ==> x in s
    decreases |s|
  {
    if r != [] {
      if r[0] == s[0] && Subsequence(r[1..], s[1..]) {
        SubsequenceMembers(r[1..], s[1..]);
        assert forall x :: x in r ==> x == r[0] || x in r[1..];
        assert forall x :: x in s[1..] ==> x in s;
      } else {
        SubsequenceMembers(r, s[1..]);
        assert forall x :: x in s[1..] ==> x in s;
      }
    }
  }

  /** Two passing nodes found in a list without repeats are two different hits. */
  lemma ManyHits(t: Tree, self: nat, m: Matcher, nodes: seq<nat>, found: seq<nat>)
    requires Rooted(t) && AllNodes(t, nodes) && Distinct(nodes)
    requires Subsequence(found, nodes) && |found| > 1
    requires forall k :: 0 <= k < |found| ==> found[k] in nodes && found[k] < |t| && Hit(t, self, m, found[k])
    ensures TwoHits(t, self, m, nodes)
  {
    SubsequenceDistinct(found, nodes);
    assert found[0] != found[1];
    var a :| 0 <= a < |nodes| && nodes[a] == found[0];
    var b :| 0 <= b < |nodes| && nodes[b] == found[1];
    if b < a {
      a, b := b, a;
    }
    assert 0 <= a < b < |nodes| && nodes[a] != nodes[b] && Hit(t, self, m, nodes[a]) && Hit(t, self, m, nodes[b]);
  }

  /** The checks `find_one_in` makes on the list of matches: none is an error, more than
      one is an error that reports how many, and otherwise the one match is the answer. */
  function OneMatch(t: Tree, self: nat, m: Matcher, nodes: seq<nat>): (r: Result<nat, FindError>)
    requires Rooted(t) && AllNodes(t, nodes)
    ensures r == Err(NotFound) <==> forall k :: 0 <= k < |nodes| ==> !Hit(t, self, m, nodes[k])
    ensures r == Err(NotFound) <==> HitCount(t, self, m, nodes) == 0
    ensures r.Ok? <==> HitCount(t, self, m, nodes) == 1
    ensures r.Err? && r.error.FoundMany? ==> r.error.count == HitCount(t, self, m, nodes)
    ensures r.Ok? ==> r.value in nodes && r.value < |t| && Hit(t, self, m, r.value)
    ensures r.Ok? ==> forall k :: 0 <= k < |nodes| && Hit(t, self, m, nodes[k]) ==> nodes[k] == r.value
    ensures r.Err? ==> r.error.NotFound? || r.error.FoundMany?
    ensures r.Err? && r.error.FoundMany? ==> r.error.count >= 2
    ensures r.Err? && r.error.FoundMany? && Distinct(nodes) ==> TwoHits(t, self, m, nodes)
  {
    var matches := Filter(t, self, m, nodes);
    FilterEmpty(t, self, m, nodes);
    FilterCount(t, self, m, nodes);
    if |matches| == 0 then
      Err(NotFound)
    else if |matches| > 1 then
      assert Distinct(nodes) ==> TwoHits(t, self, m, nodes) by {
        if Distinct(nodes) {
          ManyHits(t, self, m, nodes, matches);
        }
      }
      Err(FoundMany(|matches|))
    else
      FilterSingle(t, self, m, nodes);
      Ok(matches[0])
  }

  /** Nothing passes exactly when no listed node does. */
  lemma {:induction false} FilterEmpty(t: Tree, self: nat, m: Matcher, nodes: seq<nat>)
    requires Rooted(t) && AllNodes(t, nodes)
    ensures |Filter(t, self, m, nodes)| == 0 <==> forall k :: 0 <= k < |nodes| ==> !Hit(t, self, m, nodes[k])
    decreases |nodes|
  {
    if nodes != [] {
      FilterEmpty(t, self, m, nodes[1..]);
      assert forall k :: 0 < k < |nodes| ==> nodes[k] == nodes[1..][k - 1];
    }
  }

  /** When one node passes, every listed node that passes is that one. */
  lemma {:induction false} FilterSingle(t: Tree, self: nat, m: Matcher, nodes: seq<nat>)
    requires Rooted(t) && AllNodes(t, nodes) && |Filter(t, self, m, nodes)| == 1
    ensures forall k :: 0 <= k < |nodes| && Hit(t, self, m, nodes[k]) ==> nodes[k] == Filter(t, self, m, nodes)[0]
    decreases |nodes|
  {
    var tail := nodes[1..];
    assert forall k :: 0 < k < |nodes| ==> nodes[k] == tail[k - 1];
    if Hit(t, self, m, nodes[0]) {
      FilterEmpty(t, self, m, tail);
    } else {
      FilterSingle(t, self, m, tail);
    }
  }

  /** A passing node listed twice is found twice, so `find_one_in` reports two matches. */
  lemma RepeatedMatchCounted(t: Tree, self: nat, m: Matcher, a: nat)
    requires Rooted(t) && a < |t| && Hit(t, self, m, a)
    ensures OneMatch(t, self, m, [a, a]) == Err(FoundMany(2))
  {
    assert [a, a][1..] == [a] && [a][1..] == [];
  }

  /** The first match is one of the listed nodes, and it passes. */
  lemma FirstFound(t: Tree, self: nat, m: Matcher, nodes: seq<nat>, found: seq<nat>)
    requires Rooted(t) && AllNodes(t, nodes) && |found| > 0
    requires forall k :: 0 <= k < |found| ==> found[k] in nodes && found[k] < |t| && Hit(t, self, m, found[k])
    ensures exists k :: 0 <= k < |nodes| && Hit(t, self, m, nodes[k])
  {
    assert found[0] in nodes && Hit(t, self, m, found[0]);
    var k :| 0 <= k < |nodes| && nodes[k] == found[0];
    assert Hit(t, self, m, nodes[k]);
  }

  /** `find_one_in(nodes, pattern)`: all the matches `find_in` yields are collected, then
      checked as `OneMatch` says; a pattern `create_from` refuses is the error. */
  function FindOneIn(t: Tree, self: nat, nodes: seq<nat>, pattern: Value): (r: Result<nat, FindError>)
    requires Rooted(t) && AllNodes(t, nodes)
    ensures CreateFrom(pattern).Err? ==> r == Err(BadPattern(CreateFrom(pattern).error))
    ensures CreateFrom(pattern).Ok? ==> r == OneMatch(t, self, CreateFrom(pattern).value, nodes)
  {
    match FindIn(t, self, nodes, pattern)
    case Err(e) => Err(BadPattern(e))
    case Ok(_) => OneMatch(t, self, CreateFrom(pattern).value, nodes)
  }

  /** `find_children(pattern)`: `find_in` over the node's own children, whose paths relative
      to it are `/` + their type name. */
  function FindChildren(t: Tree, self: nat, pattern: Value): (r: Result<seq<nat>, PatternError>)
    requires Valid(t) && self < |t|
    ensures r.Ok? <==> CreateFrom(pattern).Ok?
    ensures r.Err? ==> r.error == CreateFrom(pattern).error
    ensures AllNodes(t, t[self].children)
    ensures r.Ok? ==> Subsequence(r.value, t[self].children)
    ensures r.Ok? ==> forall k :: 0 <= k < |t[self].children| ==>
      var c := t[self].children[k];
      (c in r.value <==> MatcherMatches(CreateFrom(pattern).value, "/" + Label(t, c)))
  {
    var r := FindIn(t, self, t[self].children, pattern);
    assert r.Ok? ==> forall k :: 0 <= k < |t[self].children| ==>
      var c := t[self].children[k];
      (c in r.value <==> MatcherMatches(CreateFrom(pattern).value, "/" + Label(t, c))) by {
      if r.Ok? {
        forall k | 0 <= k < |t[self].children|
          ensures var c := t[self].children[k];
            c in r.value <==> MatcherMatches(CreateFrom(pattern).value, "/" + Label(t, c))
        {
          var c := t[self].children[k];
          assert Path(t, c, Some(self)) == "/" + Label(t, c);
          if c in r.value {
            var j :| 0 <= j < |r.value| && r.value[j] == c;
          }
        }
      }
    }
    r
  }

  /** The children of a node are nodes of the tree, each listed once. */
  lemma ChildrenDistinct(t: Tree, self: nat)
    requires Valid(t) && self < |t|
    ensures AllNodes(t, t[self].children) && Distinct(t[self].children)
  {
  }

  /** The children of a node are distinct, and relative to it each has the path `/` + its
      type name. */
  lemma ChildPaths(t: Tree, self: nat, m: Matcher)
    requires Valid(t) && self < |t|
    ensures AllNodes(t, t[self].children) && Distinct(t[self].children)
    ensures forall k :: 0 <= k < |t[self].children| ==>
      (Hit(t, self, m, t[self].children[k]) <==> MatcherMatches(m, "/" + Label(t, t[self].children[k])))
  {
    var ch := t[self].children;
    forall k | 0 <= k < |ch|
      ensures Path(t, ch[k], Some(self)) == "/" + Label(t, ch[k])
    {
      assert t[ch[k]].parent == Some(self);
    }
  }

  /** `find_one_in` over the children of a node: each child is judged on `/` + its type
      name, so exactly one child passing gives that child, none gives `NotFound`, and more
      give `FoundMany` with the number of passing children, two of them different. */
  lemma OneChild(t: Tree, self: nat, m: Matcher)
    requires Valid(t) && self < |t|
    ensures AllNodes(t, t[self].children) && Distinct(t[self].children)
    ensures var ch := t[self].children; var r := OneMatch(t, self, m, ch);
      (r == Err(NotFound) <==> forall k :: 0 <= k < |ch| ==> !MatcherMatches(m, "/" + Label(t, ch[k]))) &&
      (r.Ok? ==> r.value in ch && t[r.value].parent == Some(self) && MatcherMatches(m, "/" + Label(t, r.value))) &&
      (r.Ok? ==> forall k :: 0 <= k < |ch| && MatcherMatches(m, "/" + Label(t, ch[k])) ==> ch[k] == r.value) &&
      (r.Err? && r.error.FoundMany? ==> TwoHits(t, self, m, ch))
  {
    var ch := t[self].children;
    ChildPaths(t, self, m);
    var r := OneMatch(t, self, m, ch);
    if r.Ok? {
      var j :| 0 <= j < |ch| && ch[j] == r.value;
    }
  }

  /** `find_child(pattern)`: `find_one_in` over the node's own children. */
  function FindChild(t: Tree, self: nat, pattern: Value): (r: Result<nat, FindError>)
    requires Valid(t) && self < |t|
    ensures AllNodes(t, t[self].children) && Distinct(t[self].children)
    ensures CreateFrom(pattern).Err? ==> r == Err(BadPattern(CreateFrom(pattern).error))
    ensures CreateFrom(pattern).Ok? ==> r == OneMatch(t, self, CreateFrom(pattern).value, t[self].children)
  {
    ChildrenDistinct(t, self);
    FindOneIn(t, self, t[self].children, pattern)
  }

  /** The walk from a node lists each node under it once, and nothing else. */
  lemma WalkNodes(t: Tree, self: nat)
    requires Valid(t) && self < |t|
    ensures AllNodes(t, Descendants(t, self, {})) && Distinct(Descendants(t, self, {}))
    ensures forall x: nat :: x in Descendants(t, self, {}) <==> x < |t| && self in Ancestors(t, x)
  {
    var walk := Descendants(t, self, {});
    forall x: nat
      ensures x in walk <==> x < |t| && self in Ancestors(t, x)
    {
      DescendantsAreUnder(t, self, x);
    }
    forall k | 0 <= k < |walk|
      ensures walk[k] < |t|
    {
      DescendantsAreUnder(t, self, walk[k]);
    }
    DescendantsDistinct(t, self, {});
  }

  /** What `find_in` yields, read as membership: the listed nodes that pass. */
  lemma FoundMembers(t: Tree, self: nat, m: Matcher, nodes: seq<nat>, found: seq<nat>)
    requires Rooted(t) && AllNodes(t, nodes)
    requires forall k :: 0 <= k < |found| ==> found[k] in nodes && found[k] < |t| && Hit(t, self, m, found[k])
    requires forall k :: 0 <= k < |nodes| && Hit(t, self, m, nodes[k]) ==> nodes[k] in found
    ensures forall x: nat :: x in found <==> x in nodes && x < |t| && Hit(t, self, m, x)
  {
    forall x: nat
      ensures x in found <==> x in nodes && x < |t| && Hit(t, self, m, x)
    {
      if x in found {
        var j :| 0 <= j < |found| && found[j] == x;
      }
      if x in nodes {
        var j :| 0 <= j < |nodes| && nodes[j] == x;
      }
    }
  }

  /** `find_decendants(pattern)`: `find_in` over the walk of every strict descendant, without
      pruning, so each matching descendant once and in preorder. */
  function FindDecendants(t: Tree, self: nat, pattern: Value): (r: Result<seq<nat>, PatternError>)
    requires Valid(t) && self < |t|
    ensures r.Ok? <==> CreateFrom(pattern).Ok?
    ensures r.Err? ==> r.error == CreateFrom(pattern).error
    ensures r.Ok? ==> Distinct(r.value) && Subsequence(r.value, Descendants(t, self, {}))
    ensures r.Ok? ==> forall x: nat :: x in r.value <==>
      x < |t| && self in Ancestors(t, x) && Hit(t, self, CreateFrom(pattern).value, x)
  {
    WalkNodes(t, self);
    var walk := Descendants(t, self, {});
    var r := FindIn(t, self, walk, pattern);
    if r.Ok? then
      SubsequenceDistinct(r.value, walk);
      FoundMembers(t, self, CreateFrom(pattern).value, walk, r.value);
      r
    else r
  }

  /** `find_one_in` over the walk: exactly one passing node under `self` gives that node,
      none gives `NotFound`, and more give `FoundMany` with their number, two of them
      different. */
  lemma OneDescendant(t: Tree, self: nat, m: Matcher)
    requires Valid(t) && self < |t|
    ensures AllNodes(t, Descendants(t, self, {})) && Distinct(Descendants(t, self, {}))
    ensures var r := OneMatch(t, self, m, Descendants(t, self, {}));
      (r == Err(NotFound) <==> forall x: nat :: x < |t| && self in Ancestors(t, x) ==> !Hit(t, self, m, x)) &&
      (r.Ok? ==> r.value < |t| && self in Ancestors(t, r.value) && Hit(t, self, m, r.value)) &&
      (r.Ok? ==> forall x: nat :: x < |t| && self in Ancestors(t, x) && Hit(t, self, m, x) ==> x == r.value) &&
      (r.Err? && r.error.FoundMany? ==> TwoHits(t, self, m, Descendants(t, self, {})))
  {
    WalkNodes(t, self);
    var walk := Descendants(t, self, {});
    var r := OneMatch(t, self, m, walk);
    forall x: nat | x < |t| && self in Ancestors(t, x)
      ensures exists j :: 0 <= j < |walk| && walk[j] == x
    {
      assert x in walk;
    }
    if r.Ok? {
      var j :| 0 <= j < |walk| && walk[j] == r.value;
    }
  }

  /** `find_decendant(pattern)`: `find_one_in` over the same walk. */
  function FindDecendant(t: Tree, self: nat, pattern: Value): (r: Result<nat, FindError>)
    requires Valid(t) && self < |t|
    ensures AllNodes(t, Descendants(t, self, {})) && Distinct(Descendants(t, self, {}))
    ensures CreateFrom(pattern).Err? ==> r == Err(BadPattern(CreateFrom(pattern).error))
    ensures CreateFrom(pattern).Ok? ==> r == OneMatch(t, self, CreateFrom(pattern).value, Descendants(t, self, {}))
  {
    WalkNodes(t, self);
    FindOneIn(t, self, Descendants(t, self, {}), pattern)
  }
}
