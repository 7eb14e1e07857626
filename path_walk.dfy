/** `_PathBase.decendants` (example/construct_uml.py): the preorder walk over the strict
    descendants of a node, where the caller may send a prune signal right after a direct
    child is yielded to skip that child's subtree. */
module PathWalk {
  import opened PathTree

  /** The nodes the generator yields from node `i`, when `prune` is the set of direct
      children after which the caller sent a truthy value: each child, then (unless it is
      pruned) its own descendants. The nested walks are plain `for` loops that never see a
      signal, so they prune nothing. */
  function Descendants(t: Tree, i: nat, prune: set<nat>): seq<nat>
    requires ChildrenLater(t) && i < |t|
    decreases |t| - i, 1
  {
    DescendantsFrom(t, i, prune, 0)
  }

  /** What the loop over `self.children` yields from the `k`-th child on. */
  function DescendantsFrom(t: Tree, i: nat, prune: set<nat>, k: nat): seq<nat>
    requires ChildrenLater(t) && i < |t| && k <= |t[i].children|
    decreases |t| - i, 0, |t[i].children| - k
  {
    if k == |t[i].children| then [] else Piece(t, i, prune, k) + DescendantsFrom(t, i, prune, k + 1)
  }

  /** What the loop yields for the `k`-th child: the child and, unless it is pruned, the
      child's own walk. */
  function Piece(t: Tree, i: nat, prune: set<nat>, k: nat): seq<nat>
    requires ChildrenLater(t) && i < |t| && k < |t[i].children|
    decreases |t| - i, 0, 0
  {
    var child := t[i].children[k];
    [child] + (if child in prune then [] else Descendants(t, child, {}))
  }

  /** `decendants()` run to the end by a caller that sends `prune` signals: the loop over
      the children, yielding each child and then, unless told to prune, everything the
      child's own walk yields. */
  method Decendants(t: Tree, i: nat, prune: set<nat>) returns (walk: seq<nat>)
    requires ChildrenLater(t) && i < |t|
    ensures walk == Descendants(t, i, prune)
    decreases |t| - i
  {
    walk := [];
    var children := t[i].children;
    for k := 0 to |children|
      invariant walk + DescendantsFrom(t, i, prune, k) == Descendants(t, i, prune)
    {
      var child := children[k];
      ghost var before := walk;
      walk := walk + [child];
      if child !in prune {
        var sub := Decendants(t, child, {});
        walk := walk + sub;
      }
      assert walk == before + Piece(t, i, prune, k);
      Regroup(before, Piece(t, i, prune, k), DescendantsFrom(t, i, prune, k + 1));
    }
  }

  /** Moving one piece from the rest of the walk to what has been yielded. */
  lemma Regroup(before: seq<nat>, piece: seq<nat>, rest: seq<nat>)
    ensures before + (piece + rest) == (before + piece) + rest
  {
  }

  /** The walk from `i` looks only at the children lists of `i` and the nodes after it, so
      a tree that agrees on those, and perhaps has more nodes, yields the same walk. */
  lemma {:induction false} DescendantsFrame(t: Tree, r: Tree, i: nat, prune: set<nat>)
    requires ChildrenLater(t) && ChildrenLater(r) && i < |t| <= |r|
    requires forall x :: i <= x < |t| ==> r[x].children == t[x].children
    ensures Descendants(r, i, prune) == Descendants(t, i, prune)
    decreases |t| - i, 1
  {
    DescendantsFromFrame(t, r, i, prune, 0);
  }

  lemma {:induction false} DescendantsFromFrame(t: Tree, r: Tree, i: nat, prune: set<nat>, k: nat)
    requires ChildrenLater(t) && ChildrenLater(r) && i < |t| <= |r|
    requires forall x :: i <= x < |t| ==> r[x].children == t[x].children
    requires k <= |t[i].children|
    ensures DescendantsFrom(r, i, prune, k) == DescendantsFrom(t, i, prune, k)
    decreases |t| - i, 0, |t[i].children| - k
  {
    if k < |t[i].children| {
      var child := t[i].children[k];
      if child !in prune {
        DescendantsFrame(t, r, child, {});
      }
      DescendantsFromFrame(t, r, i, prune, k + 1);
    }
  }

  /** `c` is `x` or one of its ancestors. */
  predicate OnChain(t: Tree, c: nat, x: nat)
    requires Rooted(t) && x < |t|
  {
    c == x || c in Ancestors(t, x)
  }

  /** Whatever the loop yields from the `k`-th child on comes from the piece of one of those
      children. */
  lemma {:induction false} PieceOf(t: Tree, i: nat, prune: set<nat>, k: nat, x: nat) returns (j: nat)
    requires ChildrenLater(t) && i < |t| && k <= |t[i].children|
    requires x in DescendantsFrom(t, i, prune, k)
    ensures k <= j < |t[i].children| && x in Piece(t, i, prune, j)
    decreases |t[i].children| - k
  {
    if x in Piece(t, i, prune, k) {
      j := k;
    } else {
      j := PieceOf(t, i, prune, k + 1, x);
    }
  }

  /** The loop from the `k`-th child on yields the pieces of all those children. */
  lemma {:induction false} PieceIn(t: Tree, i: nat, prune: set<nat>, k: nat, j: nat, x: nat)
    requires ChildrenLater(t) && i < |t| && k <= j < |t[i].children|
    requires x in Piece(t, i, prune, j)
    ensures x in DescendantsFrom(t, i, prune, k)
    decreases j - k
  {
    if k < j {
      PieceIn(t, i, prune, k + 1, j, x);
    }
  }

  /** Any ancestor of a node lies at or below the node's parent. */
  lemma AncestorsAtMostParent(t: Tree, x: nat, a: nat)
    requires Rooted(t) && x < |t| && a in Ancestors(t, x)
    ensures x != 0 && a <= t[x].parent.value
  {
    var p := t[x].parent.value;
    AncestorsChain(t, p);
  }

  /** If `i` is an ancestor of `x`, one of `i`'s children is `x` or an ancestor of `x`. */
  lemma {:induction false} ChildOnChain(t: Tree, i: nat, x: nat) returns (j: nat)
    requires Valid(t) && i < |t| && x < |t| && i in Ancestors(t, x)
    ensures j < |t[i].children| && OnChain(t, t[i].children[j], x)
    decreases x
  {
    var p := t[x].parent.value;
    AncestorsOfParent(t, x);
    if i == p {
      assert x in t[i].children;
      j :| 0 <= j < |t[i].children| && t[i].children[j] == x;
    } else {
      j := ChildOnChain(t, i, p);
    }
  }

  /** Conversely, a node whose chain passes through a child of `i` has `i` as an ancestor. */
  lemma {:induction false} ChainChildIsUnder(t: Tree, i: nat, j: nat, x: nat)
    requires Valid(t) && i < |t| && x < |t| && j < |t[i].children|
    requires OnChain(t, t[i].children[j], x)
    ensures i in Ancestors(t, x)
    decreases x
  {
    var c := t[i].children[j];
    AncestorsChain(t, x);
    if c != x {
      var p := t[x].parent.value;
      AncestorsOfParent(t, x);
      if c == p {
        AncestorsChain(t, p);
      } else {
        ChainChildIsUnder(t, i, j, p);
      }
    }
  }

  /** Without pruning, the walk from `i` yields exactly the nodes `i` is an ancestor of. */
  lemma {:induction false} DescendantsAreUnder(t: Tree, i: nat, x: nat)
    requires Valid(t) && i < |t|
    ensures x in Descendants(t, i, {}) <==> x < |t| && i in Ancestors(t, x)
    decreases |t| - i
  {
    var ch := t[i].children;
    if x in Descendants(t, i, {}) {
      var j := PieceOf(t, i, {}, 0, x);
      if x != ch[j] {
        DescendantsAreUnder(t, ch[j], x);
      }
      ChainChildIsUnder(t, i, j, x);
    }
    if x < |t| && i in Ancestors(t, x) {
      var j := ChildOnChain(t, i, x);
      if x != ch[j] {
        DescendantsAreUnder(t, ch[j], x);
      }
      PieceIn(t, i, {}, 0, j, x);
    }
  }

  /** Two nodes on the same chain: the smaller is an ancestor of the larger. */
  lemma {:induction false} ChainOrdered(t: Tree, x: nat, a: nat, b: nat)
    requires Rooted(t) && x < |t| && b < |t| && OnChain(t, a, x) && OnChain(t, b, x) && a < b
    ensures a in Ancestors(t, b)
    decreases x
  {
    AncestorsChain(t, x);
    if b != x {
      var p := t[x].parent.value;
      AncestorsOfParent(t, x);
      ChainOrdered(t, p, a, b);
    }
  }

  /** No node lies under two different children of the same node. */
  lemma SiblingsDisjoint(t: Tree, i: nat, j1: nat, j2: nat, x: nat)
    requires Valid(t) && i < |t| && x < |t|
    requires j1 < |t[i].children| && j2 < |t[i].children| && j1 != j2
    requires OnChain(t, t[i].children[j1], x)
    ensures !OnChain(t, t[i].children[j2], x)
  {
    var c1 := t[i].children[j1];
    var c2 := t[i].children[j2];
    if OnChain(t, c2, x) {
      if c1 < c2 {
        ChainOrdered(t, x, c1, c2);
        AncestorsAtMostParent(t, c2, c1);
      } else {
        ChainOrdered(t, x, c2, c1);
        AncestorsAtMostParent(t, c1, c2);
      }
    }
  }

  /** A piece lies on the chain of its child. */
  lemma PieceOnChain(t: Tree, i: nat, prune: set<nat>, j: nat, x: nat)
    requires Valid(t) && i < |t| && j < |t[i].children| && x in Piece(t, i, prune, j)
    ensures x < |t| && OnChain(t, t[i].children[j], x)
  {
    var child := t[i].children[j];
    if x != child {
      DescendantsAreUnder(t, child, x);
    }
  }

  /** Pruning skips exactly the nodes strictly under a pruned direct child: the walk still
      yields the pruned child itself and all later siblings with their subtrees. */
  lemma PrunedMembers(t: Tree, i: nat, prune: set<nat>, x: nat)
    requires Valid(t) && i < |t|
    ensures x in Descendants(t, i, prune) <==>
      x < |t| && i in Ancestors(t, x) &&
      forall j :: 0 <= j < |t[i].children| && t[i].children[j] in prune ==>
        t[i].children[j] !in Ancestors(t, x)
  {
    var ch := t[i].children;
    if x in Descendants(t, i, prune) {
      var j := PieceOf(t, i, prune, 0, x);
      PieceOnChain(t, i, prune, j, x);
      ChainChildIsUnder(t, i, j, x);
      AncestorsChain(t, x);
      forall j' | 0 <= j' < |ch| && ch[j'] in prune
        ensures ch[j'] !in Ancestors(t, x)
      {
        if j' != j {
          SiblingsDisjoint(t, i, j, j', x);
        }
      }
    }
    if x < |t| && i in Ancestors(t, x) &&
       forall j :: 0 <= j < |ch| && ch[j] in prune ==> ch[j] !in Ancestors(t, x)
    {
      var j := ChildOnChain(t, i, x);
      if ch[j] != x {
        DescendantsAreUnder(t, ch[j], x);
      }
      assert x in Piece(t, i, prune, j);
      PieceIn(t, i, prune, 0, j, x);
    }
  }

  /** No repeated element. */
  predicate Distinct(s: seq<nat>)
  {
    forall a, b :: 0 <= a < b < |s| ==> s[a] != s[b]
  }

  lemma DistinctConcat(u: seq<nat>, v: seq<nat>)
    requires Distinct(u) && Distinct(v)
    requires forall x :: x in u ==> x !in v
    ensures Distinct(u + v)
  {
    forall a, b | 0 <= a < b < |u + v|
      ensures (u + v)[a] != (u + v)[b]
    {
      if a < |u| && b >= |u| {
        assert (u + v)[a] in u && (u + v)[b] == v[b - |u|];
      }
    }
  }

  /** The walk yields every node at most once, pruned or not. */
  lemma {:induction false} DescendantsDistinct(t: Tree, i: nat, prune: set<nat>)
    requires Valid(t) && i < |t|
    ensures Distinct(Descendants(t, i, prune))
    decreases |t| - i, 1
  {
    DescendantsFromDistinct(t, i, prune, 0);
  }

  lemma {:induction false} DescendantsFromDistinct(t: Tree, i: nat, prune: set<nat>, k: nat)
    requires Valid(t) && i < |t| && k <= |t[i].children|
    ensures Distinct(DescendantsFrom(t, i, prune, k))
    decreases |t| - i, 0, |t[i].children| - k
  {
    var ch := t[i].children;
    if k < |ch| {
      var child := ch[k];
      var sub := if child in prune then [] else Descendants(t, child, {});
      var rest := DescendantsFrom(t, i, prune, k + 1);
      if child !in prune {
        DescendantsDistinct(t, child, {});
        forall x | x in sub
          ensures x != child
        {
          DescendantsAreUnder(t, child, x);
          AncestorsChain(t, x);
        }
      }
      DistinctConcat([child], sub);
      DescendantsFromDistinct(t, i, prune, k + 1);
      forall x | x in Piece(t, i, prune, k)
        ensures x !in rest
      {
        PieceOnChain(t, i, prune, k, x);
        if x in rest {
          var j := PieceOf(t, i, prune, k + 1, x);
          SiblingsDisjoint(t, i, k, j, x);
          PieceOnChain(t, i, prune, j, x);
        }
      }
      DistinctConcat(Piece(t, i, prune, k), rest);
    }
  }

  /** From the `PathRoot`, the walk yields every other node exactly once. */
  lemma RootDescendants(t: Tree, x: nat)
    requires Valid(t)
    ensures x in Descendants(t, 0, {}) <==> 0 < x < |t|
    ensures Distinct(Descendants(t, 0, {}))
  {
    DescendantsAreUnder(t, 0, x);
    DescendantsDistinct(t, 0, {});
    if x < |t| {
      AncestorsChain(t, x);
    }
  }
}
