/** The parse tree that `construct_uml.py` walks, as far as the walk can see it: every
    node has a type name and may carry a `content` and an `items` attribute, each either
    absent (or `None`) or a list of child nodes. */
module SourceTree {

  /** An attribute read with `getattr(node, name, None)`: missing and `None` look the same. */
  datatype Field = Absent | Nodes(list: seq<SourceNode>)

  /** A source node; `typeName` stands for `type(node).__name__`. Leaves such as strings
      or `None` inside `items` are nodes with neither attribute. */
  datatype SourceNode = SourceNode(typeName: string, content: Field, items: Field)

  /** `children(node)`: the `content` attribute unless it is absent, else `items`. */
  function Children(n: SourceNode): (r: Field)
    ensures n.content.Nodes? ==> r == n.content
    ensures n.content.Absent? ==> r == n.items
  {
    if n.content.Nodes? then n.content else n.items
  }

  /** `children(node) or []`: what `visit_object` iterates over. Every child is a proper
      part of the node, which is what makes the walk terminate. */
  function Walk(n: SourceNode): (r: seq<SourceNode>)
    ensures forall i :: 0 <= i < |r| ==> r[i] < n
    ensures n.content.Nodes? ==> r == n.content.list
    ensures n.content.Absent? && n.items.Nodes? ==> r == n.items.list
    ensures n.content.Absent? && n.items.Absent? ==> r == []
  {
    match Children(n)
    case Absent => []
    case Nodes(list) => list
  }

  /** The number of nodes the walk visits from `n`, `n` included. */
  function Size(n: SourceNode): (r: nat)
    ensures r >= 1
    decreases n, 1
  {
    1 + SizeFrom(n, 0)
  }

  /** The number of nodes under the children of `n` from the `k`-th on. */
  function SizeFrom(n: SourceNode, k: nat): nat
    requires k <= |Walk(n)|
    decreases n, 0, |Walk(n)| - k
  {
    if k == |Walk(n)| then 0 else Size(Walk(n)[k]) + SizeFrom(n, k + 1)
  }

  /** The order in which `visit_object` reaches the nodes: a node, then the walk of each
      child in turn. */
  function Preorder(n: SourceNode): (r: seq<SourceNode>)
    ensures |r| == Size(n) && r[0] == n
    decreases n, 1
  {
    [n] + PreorderFrom(n, 0)
  }

  /** The walks of the children of `n` from the `k`-th on, one after the other. */
  function PreorderFrom(n: SourceNode, k: nat): (r: seq<SourceNode>)
    requires k <= |Walk(n)|
    ensures |r| == SizeFrom(n, k)
    decreases n, 0, |Walk(n)| - k
  {
    if k == |Walk(n)| then [] else Preorder(Walk(n)[k]) + PreorderFrom(n, k + 1)
  }
}
