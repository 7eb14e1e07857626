/** The mirrored path tree of `construct_uml.py` (`_PathBase`, `PathNode`, `PathRoot`) as an
    arena: node `i` of a tree `t` is `t[i]`, and parents and children are indices into `t`.
    The `PathRoot` is the node without a parent. */
module PathTree {
  import opened Wrappers
  import opened SourceTree

  /** One mirrored node: the source node it stands for, its parent (`None` for the
      `PathRoot`) and the list of its children, in the order they were appended. */
  datatype PathEntry = PathEntry(source: SourceNode, parent: Option<nat>, children: seq<nat>)

  type Tree = seq<PathEntry>

  /** The root comes first and is the only node without a parent. */
  predicate RootFirst(t: Tree)
  {
    |t| > 0 && t[0].parent.None?
  }

  /** Every other node has a parent that was made before it. */
  predicate ParentsBefore(t: Tree)
  {
    forall i :: 0 < i < |t| ==> t[i].parent.Some? && t[i].parent.value < i
  }

  /** Every child is a later node. */
  predicate ChildrenLater(t: Tree)
  {
    forall i, j :: 0 <= i < |t| && 0 <= j < |t[i].children| ==> i < t[i].children[j] < |t|
  }

  /** Every child's parent is the node listing it. */
  predicate ChildrenLinked(t: Tree)
    requires ChildrenLater(t)
  {
    forall i, j :: 0 <= i < |t| && 0 <= j < |t[i].children| ==> t[t[i].children[j]].parent == Some(i)
  }

  /** Every node but the root is listed among its parent's children. */
  predicate ChildrenListed(t: Tree)
  {
    forall p, i :: 0 <= p < |t| && 0 < i < |t| && t[i].parent == Some(p) ==> i in t[p].children
  }

  /** Children are listed in the order they were made, each once. */
  predicate ChildrenOrdered(t: Tree)
  {
    forall i, j, k :: 0 <= i < |t| && 0 <= j < k < |t[i].children| ==>
      t[i].children[j] < t[i].children[k]
  }

  /** Enough shape for parent chains: they all end at the root. */
  predicate Rooted(t: Tree)
  {
    RootFirst(t) && ParentsBefore(t)
  }

  /** The shape every tree that `PathBuilder` makes has. */
  predicate Valid(t: Tree)
  {
    Rooted(t) && ChildrenLater(t) && ChildrenLinked(t) && ChildrenListed(t) && ChildrenOrdered(t)
  }

  /** `typename`: the type name of the mirrored source node. */
  function Label(t: Tree, i: nat): string
    requires i < |t|
  {
    t[i].source.typeName
  }

  /** `_PathBase.path(root)`: `/` followed by the node's type name, which is left out
      when the node is `root` itself. The `PathRoot` uses this as its whole path. */
  function BasePath(t: Tree, i: nat, root: Option<nat>): (r: string)
    requires i < |t|
    ensures r == (if root == Some(i) then "/" else "/" + Label(t, i))
  {
    var path := "/";
    if root != Some(i) then path + Label(t, i) else path
  }

  /** `path(root)` of any node: a `PathNode` puts its parent's path (relative to the same
      `root`) in front of its own part, unless the parent is `root`. */
  function Path(t: Tree, i: nat, root: Option<nat>): string
    requires Rooted(t) && i < |t|
    decreases i
  {
    var path := BasePath(t, i, root);
    match t[i].parent
    case None => path
    case Some(p) => if root == Some(p) then path else Path(t, p, root) + path
  }

  /** `ancestors()`: the parent, then (unless the parent is the `PathRoot`) the parent's
      ancestors; the `PathRoot` has none. */
  function Ancestors(t: Tree, i: nat): (r: seq<nat>)
    requires Rooted(t) && i < |t|
    ensures forall k :: 0 <= k < |r| ==> r[k] < i
    decreases i
  {
    match t[i].parent
    case None => []
    case Some(p) => [p] + (if t[p].parent.None? then [] else Ancestors(t, p))
  }

  /** The root is the one node without a parent. */
  lemma OnlyRootIsParentless(t: Tree, i: nat)
    requires Rooted(t) && i < |t|
    ensures t[i].parent.None? <==> i == 0
  {
  }

  /** The ancestors run from the parent, each the parent of the one before, up to and
      including the root, and all come before the node. */
  lemma {:induction false} AncestorsChain(t: Tree, i: nat)
    requires Rooted(t) && i < |t|
    ensures |Ancestors(t, i)| == 0 <==> i == 0
    ensures i != 0 ==> Ancestors(t, i)[0] == t[i].parent.value
    ensures i != 0 ==> Ancestors(t, i)[|Ancestors(t, i)| - 1] == 0
    ensures forall k :: 0 <= k < |Ancestors(t, i)| ==> Ancestors(t, i)[k] < i
    ensures forall k :: 0 < k < |Ancestors(t, i)| ==>
      t[Ancestors(t, i)[k - 1]].parent == Some(Ancestors(t, i)[k])
    decreases i
  {
    if i != 0 {
      var p := t[i].parent.value;
      if p != 0 {
        AncestorsChain(t, p);
        assert Ancestors(t, i) == [p] + Ancestors(t, p);
      }
    }
  }

  /** An ancestor's own ancestors are ancestors too: the parent's ancestors are the rest of
      the list. */
  lemma AncestorsOfParent(t: Tree, i: nat)
    requires Rooted(t) && 0 < i < |t|
    ensures Ancestors(t, i) == [t[i].parent.value] + Ancestors(t, t[i].parent.value)
  {
  }

  /** The path built top-down from a node and its ancestors, nearest first: `/T_last ...
      /T_1/T_0` for `xs == [x_0, x_1, ..., x_last]`. */
  function Joined(t: Tree, xs: seq<nat>): string
    requires forall k :: 0 <= k < |xs| ==> xs[k] < |t|
    decreases |xs|
  {
    if xs == [] then "" else Joined(t, xs[1..]) + ("/" + Label(t, xs[0]))
  }

  /** Every path starts with `/`. */
  lemma {:induction false} PathStartsWithSlash(t: Tree, i: nat, root: Option<nat>)
    requires Rooted(t) && i < |t|
    ensures |Path(t, i, root)| > 0 && Path(t, i, root)[0] == '/'
    decreases i
  {
    match t[i].parent
    case None =>
    case Some(p) =>
      if root != Some(p) {
        PathStartsWithSlash(t, p, root);
      }
  }

  /** With no `root`, or a `root` that is neither the node nor one of its ancestors, a path
      names the node and every ancestor down from the `PathRoot`, which makes it the
      absolute path. */
  lemma {:induction false} PathFromRoot(t: Tree, i: nat, root: Option<nat>)
    requires Rooted(t) && i < |t|
    requires root.None? || root.value !in [i] + Ancestors(t, i)
    ensures Path(t, i, root) == Joined(t, [i] + Ancestors(t, i))
    decreases i
  {
    var xs := [i] + Ancestors(t, i);
    if i == 0 {
      assert xs[1..] == [];
    } else {
      var p := t[i].parent.value;
      var a := Ancestors(t, i);
      AncestorsOfParent(t, i);
      assert a[0] == p;
      PathFromRoot(t, p, root);
      assert xs[1..] == a;
      assert Joined(t, xs) == Joined(t, a) + ("/" + Label(t, i));
    }
  }

  /** Relative to one of its ancestors, a path names only the nodes below that ancestor: a
      child of `root` has the path `/` + its type name, and every node further down adds
      `/` + its type name to its parent's path. */
  lemma {:induction false} PathBelowAncestor(t: Tree, i: nat, k: nat)
    requires Rooted(t) && i < |t| && k < |Ancestors(t, i)|
    ensures Path(t, i, Some(Ancestors(t, i)[k])) == Joined(t, [i] + Ancestors(t, i)[..k])
    decreases i
  {
    var a := Ancestors(t, i);
    var p := t[i].parent.value;
    AncestorsOfParent(t, i);
    if k == 0 {
      assert [i] + a[..0] == [i];
      JoinedFirst(t, [i]);
    } else {
      var ap := Ancestors(t, p);
      assert a == [p] + ap && a[k] == ap[k - 1];
      PathBelowAncestor(t, p, k - 1);
      BelowStep(t, i, p, a, ap, k);
    }
  }

  /** The inductive step of `PathBelowAncestor`, for the `k`-th ancestor `a[k]` of `i`. */
  lemma BelowStep(t: Tree, i: nat, p: nat, a: seq<nat>, ap: seq<nat>, k: nat)
    requires Rooted(t) && 0 < i < |t| && p == t[i].parent.value
    requires forall j :: 0 <= j < |ap| ==> ap[j] < p
    requires a == [p] + ap && 0 < k < |a| && a[k] < p
    requires Path(t, p, Some(a[k])) == Joined(t, [p] + ap[..k - 1])
    ensures Path(t, i, Some(a[k])) == Joined(t, [i] + a[..k])
  {
    var xs := [i] + a[..k];
    assert xs[1..] == a[..k];
    assert a[..k] == [p] + ap[..k - 1];
    JoinedFirst(t, xs);
    PathUnderParent(t, i, a[k]);
  }

  /** Below its relative root, a node adds `/` + its type name to its parent's path. */
  lemma PathUnderParent(t: Tree, i: nat, root: nat)
    requires Rooted(t) && 0 < i < |t| && root < t[i].parent.value
    ensures Path(t, i, Some(root)) == Path(t, t[i].parent.value, Some(root)) + ("/" + Label(t, i))
  {
  }

  lemma JoinedFirst(t: Tree, xs: seq<nat>)
    requires xs != [] && forall k :: 0 <= k < |xs| ==> xs[k] < |t|
    ensures Joined(t, xs) == Joined(t, xs[1..]) + ("/" + Label(t, xs[0]))
  {
  }

  /** A path relative to the node itself: `/` for the `PathRoot`, and for any other node its
      parent's absolute path followed by `/`. */
  lemma PathOfItself(t: Tree, i: nat)
    requires Rooted(t) && i < |t|
    ensures i == 0 ==> Path(t, i, Some(i)) == "/"
    ensures i != 0 ==> Path(t, i, Some(i)) == Path(t, t[i].parent.value, None) + "/"
    ensures i != 0 ==> Path(t, i, Some(i)) == Joined(t, Ancestors(t, i)) + "/"
  {
    if i != 0 {
      var p := t[i].parent.value;
      AncestorsOfParent(t, i);
      PathFromRoot(t, p, Some(i));
      PathFromRoot(t, p, None);
    }
  }
}
