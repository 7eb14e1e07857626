/** `PathBuilder` (example/construct_uml.py): the visitor that mirrors a source tree as a
    path tree, one `PathRoot` for the first node it visits and one `PathNode` for every
    other, each appended to its parent's `children` as the walk reaches it. */
module PathBuild {
  import opened Wrappers
  import opened SourceTree
  import opened PathTree
  import opened PathWalk

  /** The first half of `PathBuilder.visit_object`: make the mirror of `n` as the next node,
      a `PathRoot` when there is no parent and otherwise a `PathNode` appended to the
      parent's children. */
  function Attach(t: Tree, n: SourceNode, parent: Option<nat>): (r: Tree)
    requires parent.Some? ==> parent.value < |t|
  {
    var entry := PathEntry(n, parent, []);
    match parent
    case None => t + [entry]
    case Some(p) => (t + [entry])[p := t[p].(children := t[p].children + [|t|])]
  }

  /** The tree after `visit_object(n, parent=parent)` returns: `n` is attached, then each of
      its children is visited in turn with `n`'s mirror as the parent. */
  function Mirror(t: Tree, n: SourceNode, parent: Option<nat>): (r: Tree)
    requires parent.Some? ==> parent.value < |t|
    ensures |r| == |t| + Size(n)
    decreases n, 1
  {
    MirrorFrom(Attach(t, n, parent), n, |t|, 0)
  }

  /** The loop of `Visitor.visit_object` over the children of `n` from the `k`-th on, the
      mirror of `n` being node `self`. */
  function MirrorFrom(t: Tree, n: SourceNode, self: nat, k: nat): (r: Tree)
    requires self < |t| && k <= |Walk(n)|
    ensures |r| == |t| + SizeFrom(n, k)
    decreases n, 0, |Walk(n)| - k
  {
    if k == |Walk(n)| then t
    else MirrorFrom(Mirror(t, Walk(n)[k], Some(self)), n, self, k + 1)
  }

  /** `PathBuilder(program)`: the whole tree, built from an empty one. */
  function Build(program: SourceNode): Tree
  {
    Mirror([], program, None)
  }

  /** The visitor itself: the nodes made so far and, once the first node is visited, the
      `PathRoot`. */
  class PathBuilder {
    var nodes: Tree
    var root: Option<nat>

    /** `PathBuilder(program)`: `Visitor.__init__` visits the program with no parent. */
    constructor (program: SourceNode)
      ensures nodes == Build(program) && root == Some(0)
    {
      nodes := [];
      root := None;
      new;
      VisitObject(program, None);
    }

    /** `PathBuilder.visit_object(node, parent=...)`: attach the mirror of `node`, then let
        the generic `visit_object` visit each child with the new node as `parent`. */
    method VisitObject(node: SourceNode, parent: Option<nat>)
      requires parent.Some? ==> parent.value < |nodes|
      modifies this
      ensures nodes == Mirror(old(nodes), node, parent)
      ensures root == if parent.None? then Some(|old(nodes)|) else old(root)
      decreases node
    {
      var result := |nodes|;
      if parent.None? {
        nodes := nodes + [PathEntry(node, None, [])];
        root := Some(result);
      } else {
        var p := parent.value;
        nodes := nodes + [PathEntry(node, parent, [])];
        nodes := nodes[p := nodes[p].(children := nodes[p].children + [result])];
      }
      var kids := Walk(node);
      for k := 0 to |kids|
        invariant result < |nodes|
        invariant MirrorFrom(nodes, node, result, k) == Mirror(old(nodes), node, parent)
        invariant root == if parent.None? then Some(result) else old(root)
      {
        VisitObject(kids[k], Some(result));
      }
    }
  }

  /** What a visit leaves alone: every node made before keeps its source and parent, and
      only the parent's children change, by one new child at the end, the new node, which
      mirrors `n`. */
  lemma {:induction false} MirrorFrame(t: Tree, n: SourceNode, q: nat)
    requires q < |t|
    ensures var r := Mirror(t, n, Some(q));
      (forall i :: 0 <= i < |t| ==> r[i].source == t[i].source && r[i].parent == t[i].parent) &&
      (forall i :: 0 <= i < |t| && i != q ==> r[i].children == t[i].children) &&
      r[q].children == t[q].children + [|t|] &&
      r[|t|].source == n && r[|t|].parent == Some(q)
    decreases n, 1
  {
    MirrorFromFrame(Attach(t, n, Some(q)), n, |t|, 0);
  }

  /** The loop changes only the children of `self` among the nodes made before it. */
  lemma {:induction false} MirrorFromFrame(t: Tree, n: SourceNode, self: nat, k: nat)
    requires self < |t| && k <= |Walk(n)|
    ensures var r := MirrorFrom(t, n, self, k);
      (forall i :: 0 <= i < |t| ==> r[i].source == t[i].source && r[i].parent == t[i].parent) &&
      (forall i :: 0 <= i < |t| && i != self ==> r[i].children == t[i].children)
    decreases n, 0, |Walk(n)| - k
  {
    if k < |Walk(n)| {
      MirrorFrame(t, Walk(n)[k], self);
      MirrorFromFrame(Mirror(t, Walk(n)[k], Some(self)), n, self, k + 1);
    }
  }

  /** Attaching a new child to a node of a well-formed tree keeps it well-formed: the new
      node comes last, its parent lists it last, and nothing else changes. */
  lemma AttachValid(t: Tree, n: SourceNode, q: nat)
    requires Valid(t) && q < |t|
    ensures Valid(Attach(t, n, Some(q)))
  {
    var r := Attach(t, n, Some(q));
    AttachFrame(t, n, q);
    AttachRooted(t, r, q);
    AttachLater(t, r, q);
    AttachLinked(t, r, q);
    AttachListed(t, r, q);
    AttachOrdered(t, r, q);
  }

  /** What attaching changes: one more node, which mirrors `n`, has parent `q` and no
      children, and is the new last child of `q`. */
  lemma AttachFrame(t: Tree, n: SourceNode, q: nat)
    requires q < |t|
    ensures var r := Attach(t, n, Some(q));
      |r| == |t| + 1 &&
      (forall i :: 0 <= i < |t| ==> r[i].source == t[i].source && r[i].parent == t[i].parent) &&
      (forall i :: 0 <= i < |t| && i != q ==> r[i].children == t[i].children) &&
      r[q].children == t[q].children + [|t|] &&
      r[|t|] == PathEntry(n, Some(q), [])
  {
  }

  lemma AttachRooted(t: Tree, r: Tree, q: nat)
    requires Rooted(t) && q < |t| && |r| == |t| + 1
    requires forall i :: 0 <= i < |t| ==> r[i].parent == t[i].parent
    requires r[|t|].parent == Some(q)
    ensures Rooted(r)
  {
  }

  lemma AttachLater(t: Tree, r: Tree, q: nat)
    requires ChildrenLater(t) && q < |t| && |r| == |t| + 1
    requires forall i :: 0 <= i < |t| && i != q ==> r[i].children == t[i].children
    requires r[q].children == t[q].children + [|t|] && r[|t|].children == []
    ensures ChildrenLater(r)
  {
    forall i, j | 0 <= i < |r| && 0 <= j < |r[i].children|
      ensures i < r[i].children[j] < |r|
    {
      if i == q && j < |t[q].children| {
        assert r[i].children[j] == t[q].children[j];
      }
    }
  }

  lemma AttachLinked(t: Tree, r: Tree, q: nat)
    requires Valid(t) && q < |t| && |r| == |t| + 1
    requires forall i :: 0 <= i < |t| ==> r[i].parent == t[i].parent
    requires forall i :: 0 <= i < |t| && i != q ==> r[i].children == t[i].children
    requires r[q].children == t[q].children + [|t|] && r[|t|].children == []
    requires r[|t|].parent == Some(q)
    requires ChildrenLater(r)
    ensures ChildrenLinked(r)
  {
    forall i, j | 0 <= i < |r| && 0 <= j < |r[i].children|
      ensures r[r[i].children[j]].parent == Some(i)
    {
      if i == q && j < |t[q].children| {
        assert r[i].children[j] == t[q].children[j];
      }
    }
  }

  lemma AttachListed(t: Tree, r: Tree, q: nat)
    requires Valid(t) && q < |t| && |r| == |t| + 1
    requires forall i :: 0 <= i < |t| ==> r[i].parent == t[i].parent
    requires forall i :: 0 <= i < |t| && i != q ==> r[i].children == t[i].children
    requires r[q].children == t[q].children + [|t|]
    requires r[|t|].parent == Some(q)
    ensures ChildrenListed(r)
  {
    forall p, i | 0 <= p < |r| && 0 < i < |r| && r[i].parent == Some(p)
      ensures i in r[p].children
    {
      if i < |t| {
        assert i in t[p].children;
        if p == q {
          assert t[q].children <= r[q].children;
        }
      }
    }
  }

  lemma AttachOrdered(t: Tree, r: Tree, q: nat)
    requires Valid(t) && q < |t| && |r| == |t| + 1
    requires forall i :: 0 <= i < |t| && i != q ==> r[i].children == t[i].children
    requires r[q].children == t[q].children + [|t|] && r[|t|].children == []
    ensures ChildrenOrdered(r)
  {
    forall i, j, k | 0 <= i < |r| && 0 <= j < k < |r[i].children|
      ensures r[i].children[j] < r[i].children[k]
    {
      if i == q {
        assert r[i].children[j] == t[q].children[j];
        if k < |t[q].children| {
          assert r[i].children[k] == t[q].children[k];
        }
      }
    }
  }

  /** A visit below a node of a well-formed tree keeps it well-formed. */
  lemma {:induction false} MirrorValid(t: Tree, n: SourceNode, q: nat)
    requires Valid(t) && q < |t|
    ensures Valid(Mirror(t, n, Some(q)))
    decreases n, 1
  {
    AttachValid(t, n, q);
    MirrorFromValid(Attach(t, n, Some(q)), n, |t|, 0);
  }

  lemma {:induction false} MirrorFromValid(t: Tree, n: SourceNode, self: nat, k: nat)
    requires Valid(t) && self < |t| && k <= |Walk(n)|
    ensures Valid(MirrorFrom(t, n, self, k))
    decreases n, 0, |Walk(n)| - k
  {
    if k < |Walk(n)| {
      MirrorValid(t, Walk(n)[k], self);
      MirrorFromValid(Mirror(t, Walk(n)[k], Some(self)), n, self, k + 1);
    }
  }

  /** The nodes a visit makes mirror the source nodes in the order the walk reaches them. */
  lemma {:induction false} MirrorSources(t: Tree, n: SourceNode, parent: Option<nat>)
    requires parent.Some? ==> parent.value < |t|
    ensures forall j :: 0 <= j < Size(n) ==> Mirror(t, n, parent)[|t| + j].source == Preorder(n)[j]
    decreases n, 1
  {
    var t' := Attach(t, n, parent);
    var r := Mirror(t, n, parent);
    assert r == MirrorFrom(t', n, |t|, 0);
    assert t'[|t|].source == n;
    MirrorFromSources(t', n, |t|, 0);
    MirrorFromFrame(t', n, |t|, 0);
    SourcesAdd(t, t', r, [n], PreorderFrom(n, 0));
  }

  lemma {:induction false} MirrorFromSources(t: Tree, n: SourceNode, self: nat, k: nat)
    requires self < |t| && k <= |Walk(n)|
    ensures forall j :: 0 <= j < SizeFrom(n, k) ==>
      MirrorFrom(t, n, self, k)[|t| + j].source == PreorderFrom(n, k)[j]
    decreases n, 0, |Walk(n)| - k
  {
    if k < |Walk(n)| {
      var kid := Walk(n)[k];
      var t1 := Mirror(t, kid, Some(self));
      var r := MirrorFrom(t, n, self, k);
      assert r == MirrorFrom(t1, n, self, k + 1);
      MirrorSources(t, kid, Some(self));
      MirrorFromSources(t1, n, self, k + 1);
      MirrorFromFrame(t1, n, self, k + 1);
      SourcesAdd(t, t1, r, Preorder(kid), PreorderFrom(n, k + 1));
    }
  }

  /** The nodes made in two stretches mirror the two stretches of source nodes, one after the
      other. */
  lemma SourcesAdd(t: Tree, t1: Tree, r: Tree, p1: seq<SourceNode>, p2: seq<SourceNode>)
    requires |t1| == |t| + |p1| && |r| == |t1| + |p2|
    requires forall j :: 0 <= j < |p1| ==> t1[|t| + j].source == p1[j]
    requires forall j :: 0 <= j < |p2| ==> r[|t1| + j].source == p2[j]
    requires forall c :: 0 <= c < |t1| ==> r[c].source == t1[c].source
    ensures forall j :: 0 <= j < |p1 + p2| ==> r[|t| + j].source == (p1 + p2)[j]
  {
    forall j | 0 <= j < |p1 + p2|
      ensures r[|t| + j].source == (p1 + p2)[j]
    {
      if j >= |p1| {
        assert r[|t1| + (j - |p1|)].source == p2[j - |p1|];
      }
    }
  }

  /** The source nodes that the children of node `i` mirror, in order. */
  function ChildSources(t: Tree, i: nat): seq<SourceNode>
    requires ChildrenLater(t) && i < |t|
  {
    seq(|t[i].children|, j requires 0 <= j < |t[i].children| => t[t[i].children[j]].source)
  }

  /** The children of node `j` mirror the children of its source node, in order. */
  predicate Complete(t: Tree, j: nat)
    requires ChildrenLater(t) && j < |t|
  {
    ChildSources(t, j) == Walk(t[j].source)
  }

  /** A node whose children list and whose children's sources are unchanged keeps its
      child sources. */
  lemma SameChildSources(t: Tree, r: Tree, i: nat)
    requires ChildrenLater(t) && ChildrenLater(r) && i < |t| <= |r|
    requires r[i].children == t[i].children
    requires forall c :: 0 <= c < |t| ==> r[c].source == t[c].source
    ensures ChildSources(r, i) == ChildSources(t, i)
  {
  }

  /** Attaching a new child keeps every child later than its parent. */
  lemma AttachKeepsLater(t: Tree, n: SourceNode, q: nat)
    requires ChildrenLater(t) && q < |t|
    ensures ChildrenLater(Attach(t, n, Some(q)))
  {
    AttachFrame(t, n, q);
    AttachLater(t, Attach(t, n, Some(q)), q);
  }

  /** A visit keeps every child later than its parent. */
  lemma {:induction false} MirrorKeepsLater(t: Tree, n: SourceNode, q: nat)
    requires ChildrenLater(t) && q < |t|
    ensures ChildrenLater(Mirror(t, n, Some(q)))
    decreases n, 1
  {
    AttachKeepsLater(t, n, q);
    MirrorFromKeepsLater(Attach(t, n, Some(q)), n, |t|, 0);
  }

  lemma {:induction false} MirrorFromKeepsLater(t: Tree, n: SourceNode, self: nat, k: nat)
    requires ChildrenLater(t) && self < |t| && k <= |Walk(n)|
    ensures ChildrenLater(MirrorFrom(t, n, self, k))
    decreases n, 0, |Walk(n)| - k
  {
    if k < |Walk(n)| {
      MirrorKeepsLater(t, Walk(n)[k], self);
      MirrorFromKeepsLater(Mirror(t, Walk(n)[k], Some(self)), n, self, k + 1);
    }
  }

  /** A visit below node `q` gives `q` one more child, which mirrors `n`; the other nodes
      made before keep their children; and every node the visit makes has children that
      mirror its source node's children, in order. */
  lemma {:induction false} MirrorChildren(t: Tree, n: SourceNode, q: nat)
    requires ChildrenLater(t) && q < |t|
    ensures var r := Mirror(t, n, Some(q));
      ChildrenLater(r) &&
      ChildSources(r, q) == ChildSources(t, q) + [n] &&
      (forall i :: 0 <= i < |t| && i != q ==> ChildSources(r, i) == ChildSources(t, i)) &&
      (forall j :: |t| <= j < |r| ==> Complete(r, j))
    decreases n, 1
  {
    var t' := Attach(t, n, Some(q));
    var r := Mirror(t, n, Some(q));
    assert r == MirrorFrom(t', n, |t|, 0);
    AttachKeepsLater(t, n, q);
    MirrorFromChildren(t', n, |t|, 0);
    MirrorFromFrame(t', n, |t|, 0);
    AttachStep(t, t', r, n, q);
  }

  /** The attaching half of a visit below `q` (`t` to `t'`) and its loop (`t'` to `r`) add up. */
  lemma AttachStep(t: Tree, t': Tree, r: Tree, n: SourceNode, q: nat)
    requires ChildrenLater(t) && ChildrenLater(t') && ChildrenLater(r)
    requires q < |t| && |t'| == |t| + 1 && |t'| <= |r|
    requires t' == Attach(t, n, Some(q))
    requires ChildSources(r, |t|) == ChildSources(t', |t|) + Walk(n)[0..]
    requires forall i :: 0 <= i < |t'| && i != |t| ==> ChildSources(r, i) == ChildSources(t', i)
    requires forall j :: |t'| <= j < |r| ==> Complete(r, j)
    requires forall c :: 0 <= c < |t'| ==> r[c].source == t'[c].source
    ensures ChildSources(r, q) == ChildSources(t, q) + [n]
    ensures forall i :: 0 <= i < |t| && i != q ==> ChildSources(r, i) == ChildSources(t, i)
    ensures forall j :: |t| <= j < |r| ==> Complete(r, j)
  {
    forall i | 0 <= i < |t| && i != q
      ensures ChildSources(r, i) == ChildSources(t, i)
    {
      SameChildSources(t, t', i);
    }
    assert ChildSources(t', q) == ChildSources(t, q) + [n];
    assert ChildSources(t', |t|) == [];
    assert Walk(n)[0..] == Walk(n);
  }

  /** The loop gives `self` the mirrors of the children from the `k`-th on, leaves the other
      nodes made before alone, and completes every node it makes. */
  lemma {:induction false} MirrorFromChildren(t: Tree, n: SourceNode, self: nat, k: nat)
    requires ChildrenLater(t) && self < |t| && k <= |Walk(n)|
    ensures var r := MirrorFrom(t, n, self, k);
      ChildrenLater(r) &&
      ChildSources(r, self) == ChildSources(t, self) + Walk(n)[k..] &&
      (forall i :: 0 <= i < |t| && i != self ==> ChildSources(r, i) == ChildSources(t, i)) &&
      (forall j :: |t| <= j < |r| ==> Complete(r, j))
    decreases n, 0, |Walk(n)| - k
  {
    if k == |Walk(n)| {
      assert Walk(n)[k..] == [];
    } else {
      var kid := Walk(n)[k];
      var t1 := Mirror(t, kid, Some(self));
      var r := MirrorFrom(t1, n, self, k + 1);
      assert MirrorFrom(t, n, self, k) == r;
      var rest := Walk(n)[k + 1..];
      assert Walk(n)[k..] == [kid] + rest;
      MirrorChildren(t, kid, self);
      MirrorFromChildren(t1, n, self, k + 1);
      MirrorFromFrame(t1, n, self, k + 1);
      ChildrenStep(t, t1, r, self, kid, rest);
    }
  }

  /** One turn of the loop: the child sources after a visit below `self` (`t` to `t1`) and
      after the rest of the loop (`t1` to `r`) add up. */
  lemma ChildrenStep(t: Tree, t1: Tree, r: Tree, self: nat, kid: SourceNode, rest: seq<SourceNode>)
    requires ChildrenLater(t) && ChildrenLater(t1) && ChildrenLater(r)
    requires self < |t| <= |t1| <= |r|
    requires ChildSources(t1, self) == ChildSources(t, self) + [kid]
    requires forall i :: 0 <= i < |t| && i != self ==> ChildSources(t1, i) == ChildSources(t, i)
    requires forall j :: |t| <= j < |t1| ==> Complete(t1, j)
    requires ChildSources(r, self) == ChildSources(t1, self) + rest
    requires forall i :: 0 <= i < |t1| && i != self ==> ChildSources(r, i) == ChildSources(t1, i)
    requires forall j :: |t1| <= j < |r| ==> Complete(r, j)
    requires forall c :: 0 <= c < |t1| ==> r[c].source == t1[c].source
    ensures ChildSources(r, self) == ChildSources(t, self) + ([kid] + rest)
    ensures forall i :: 0 <= i < |t| && i != self ==> ChildSources(r, i) == ChildSources(t, i)
    ensures forall j :: |t| <= j < |r| ==> Complete(r, j)
  {
    assert ChildSources(t, self) + [kid] + rest == ChildSources(t, self) + ([kid] + rest);
    forall j | |t| <= j < |r|
      ensures Complete(r, j)
    {
      if j < |t1| {
        assert Complete(t1, j);
        assert ChildSources(r, j) == ChildSources(t1, j);
      }
    }
  }

  /** `PathBuilder(program)` makes a well-formed tree with one node per source node, in the
      order the walk visits them, and the first one is the `PathRoot`. */
  lemma BuildShape(program: SourceNode)
    ensures Valid(Build(program))
    ensures |Build(program)| == Size(program)
    ensures forall j :: 0 <= j < |Build(program)| ==> Build(program)[j].source == Preorder(program)[j]
  {
    var t' := Attach([], program, None);
    assert Valid(t');
    MirrorFromValid(t', program, 0, 0);
    MirrorSources([], program, None);
  }

  /** In the tree `PathBuilder(program)` makes, the children of every node mirror the
      children of its source node, in the walk's order. */
  lemma BuildChildren(program: SourceNode)
    ensures ChildrenLater(Build(program))
    ensures forall i :: 0 <= i < |Build(program)| ==> Complete(Build(program), i)
  {
    var t' := Attach([], program, None);
    var r := Build(program);
    assert r == MirrorFrom(t', program, 0, 0);
    assert ChildrenLater(t') && ChildSources(t', 0) == [];
    MirrorFromChildren(t', program, 0, 0);
    MirrorFromFrame(t', program, 0, 0);
    assert Walk(program)[0..] == Walk(program);
  }

  /** The indices from `lo` up to but not including `hi`, in order. */
  function Range(lo: nat, hi: nat): (r: seq<nat>)
    requires lo <= hi
    ensures |r| == hi - lo && forall k :: 0 <= k < |r| ==> r[k] == lo + k
  {
    seq(hi - lo, k requires 0 <= k < hi - lo => lo + k)
  }

  /** Consecutive ranges join up. */
  lemma RangeSplit(lo: nat, mid: nat, hi: nat)
    requires lo <= mid <= hi
    ensures Range(lo, mid) + Range(mid, hi) == Range(lo, hi)
  {
  }

  lemma RangeOne(lo: nat)
    ensures Range(lo, lo + 1) == [lo]
  {
  }

  /** A child whose walk yields the nodes just after it yields, with itself in front, a
      range that starts at the child. */
  lemma NewChildPiece(r: Tree, self: nat, c: nat, lo: nat, hi: nat)
    requires ChildrenLater(r) && self < |r| && c < |r[self].children|
    requires r[self].children[c] == lo && lo < hi
    requires Descendants(r, lo, {}) == Range(lo + 1, hi)
    ensures Piece(r, self, {}, c) == Range(lo, hi)
  {
    assert Piece(r, self, {}, c) == [lo] + Range(lo + 1, hi);
    RangeSplit(lo, lo + 1, hi);
    RangeOne(lo);
  }

  /** After a visit below `q`, the new node is the last child of `q`, and the walk from the
      new node yields the other nodes the visit made, in the order they were made. */
  lemma {:induction false} MirrorWalk(t: Tree, n: SourceNode, q: nat)
    requires ChildrenLater(t) && q < |t|
    ensures var r := Mirror(t, n, Some(q));
      ChildrenLater(r) &&
      r[q].children == t[q].children + [|t|] &&
      Descendants(r, |t|, {}) == Range(|t| + 1, |r|)
    decreases n, 1
  {
    var t' := Attach(t, n, Some(q));
    var r := Mirror(t, n, Some(q));
    assert r == MirrorFrom(t', n, |t|, 0);
    AttachKeepsLater(t, n, q);
    MirrorFrame(t, n, q);
    MirrorFromWalk(t', n, |t|, 0);
    assert t'[|t|].children == [];
  }

  /** The loop over the children of `n` from the `k`-th on appends children to `self`, and
      the walk over those new children yields every node the loop made, in the order they
      were made. */
  lemma {:induction false} MirrorFromWalk(t: Tree, n: SourceNode, self: nat, k: nat)
    requires ChildrenLater(t) && self < |t| && k <= |Walk(n)|
    ensures var r := MirrorFrom(t, n, self, k);
      ChildrenLater(r) &&
      |t[self].children| <= |r[self].children| &&
      r[self].children[..|t[self].children|] == t[self].children &&
      DescendantsFrom(r, self, {}, |t[self].children|) == Range(|t|, |r|)
    decreases n, 0, |Walk(n)| - k
  {
    MirrorFromKeepsLater(t, n, self, k);
    var r := MirrorFrom(t, n, self, k);
    var c := |t[self].children|;
    if k == |Walk(n)| {
      assert t[self].children[..c] == t[self].children;
    } else {
      var kid := Walk(n)[k];
      var t1 := Mirror(t, kid, Some(self));
      assert r == MirrorFrom(t1, n, self, k + 1);
      MirrorWalk(t, kid, self);
      MirrorFromWalk(t1, n, self, k + 1);
      MirrorFromFrame(t1, n, self, k + 1);
      WalkStep(t, t1, r, self);
    }
  }

  /** One turn of the loop: the walk over the children appended by a visit below `self` (`t`
      to `t1`) and by the rest of the loop (`t1` to `r`) add up. */
  lemma WalkStep(t: Tree, t1: Tree, r: Tree, self: nat)
    requires ChildrenLater(t1) && ChildrenLater(r)
    requires self < |t| < |t1| <= |r|
    requires t1[self].children == t[self].children + [|t|]
    requires Descendants(t1, |t|, {}) == Range(|t| + 1, |t1|)
    requires |t1[self].children| <= |r[self].children|
    requires r[self].children[..|t1[self].children|] == t1[self].children
    requires DescendantsFrom(r, self, {}, |t1[self].children|) == Range(|t1|, |r|)
    requires forall x :: |t| <= x < |t1| ==> r[x].children == t1[x].children
    ensures |t[self].children| <= |r[self].children|
    ensures r[self].children[..|t[self].children|] == t[self].children
    ensures DescendantsFrom(r, self, {}, |t[self].children|) == Range(|t|, |r|)
  {
    var c := |t[self].children|;
    PrefixStep(t[self].children, t1[self].children, r[self].children, |t|);
    DescendantsFrame(t1, r, |t|, {});
    NewChildPiece(r, self, c, |t|, |t1|);
    assert DescendantsFrom(r, self, {}, c) == Range(|t|, |t1|) + Range(|t1|, |r|);
    RangeSplit(|t|, |t1|, |r|);
  }

  /** A list that extends `tc + [x]` extends `tc`, with `x` next. */
  lemma PrefixStep(tc: seq<nat>, tc1: seq<nat>, rc: seq<nat>, x: nat)
    requires tc1 == tc + [x] && |tc1| <= |rc| && rc[..|tc1|] == tc1
    ensures |tc| < |rc| && rc[..|tc|] == tc && rc[|tc|] == x
  {
    assert rc[..|tc|] == rc[..|tc1|][..|tc|];
    assert rc[|tc|] == rc[..|tc1|][|tc|];
  }

  /** Run to the end without prune signals, the walk from the `PathRoot` of the tree
      `PathBuilder(program)` makes yields every other node in the order it was made, which
      mirrors the order in which the visitor reached the source nodes. */
  lemma BuildWalk(program: SourceNode)
    ensures ChildrenLater(Build(program))
    ensures Descendants(Build(program), 0, {}) == Range(1, |Build(program)|)
    ensures forall k :: 0 <= k < |Build(program)| - 1 ==>
      Build(program)[Descendants(Build(program), 0, {})[k]].source == Preorder(program)[k + 1]
  {
    var t' := Attach([], program, None);
    var r := Build(program);
    assert r == MirrorFrom(t', program, 0, 0);
    assert ChildrenLater(t');
    MirrorSources([], program, None);
    MirrorFromWalk(t', program, 0, 0);
  }
}
