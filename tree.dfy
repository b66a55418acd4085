/**
 * The parsed expression tree. A node owns its ordered children, carries one
 * condition (a logic operator on a branch, an equality on a leaf) and the two
 * nested-set bounds, which are 0 until the indexer numbers the tree.
 * The Go struct's `Parent` back-pointer is not modelled: nothing reads it.
 */
module Tree {
  import opened Conditions

  datatype TreeNode = TreeNode(children: seq<TreeNode>, node: Condition, left: int, right: int)

  /** A fresh leaf as the parser builds it: no children, bounds at their zero value. */
  function Leaf(c: Condition): TreeNode {
    TreeNode([], c, 0, 0)
  }

  /** Number of nodes in the tree. */
  function Size(t: TreeNode): nat
    decreases t
  {
    1 + SizeAll(t.children)
  }

  function SizeAll(ts: seq<TreeNode>): nat
    decreases ts
  {
    if ts == [] then 0 else Size(ts[0]) + SizeAll(ts[1..])
  }

  lemma {:induction false} SizeAllAppend(ts: seq<TreeNode>, t: TreeNode)
    ensures SizeAll(ts + [t]) == SizeAll(ts) + Size(t)
  {
    if ts != [] {
      SizeAllAppend(ts[1..], t);
      assert (ts + [t])[1..] == ts[1..] + [t];
    }
  }

  /** The tree with every nested-set bound reset to 0: its conditions and shape only. */
  function Unnumbered(t: TreeNode): (u: TreeNode)
    decreases t
  {
    TreeNode(UnnumberedAll(t.children), t.node, 0, 0)
  }

  function UnnumberedAll(ts: seq<TreeNode>): (us: seq<TreeNode>)
    ensures |us| == |ts|
    ensures forall i :: 0 <= i < |ts| ==> us[i] == Unnumbered(ts[i])
    decreases ts
  {
    if ts == [] then [] else [Unnumbered(ts[0])] + UnnumberedAll(ts[1..])
  }

  /**
   * The shape the serializer and parser agree on: leaves are equalities,
   * branches are logic operators with at least two operands.
   */
  predicate WellShaped(t: TreeNode)
    decreases t
  {
    && (|t.children| == 0 ==> t.node.kind == EqualityKind)
    && (|t.children| > 0 ==> t.node.kind == LogicKind && |t.children| >= 2)
    && forall i :: 0 <= i < |t.children| ==> WellShaped(t.children[i])
  }

  /** The conditions held directly by the children of `t`, in order. */
  function GetChildrenConditions(t: TreeNode): (cs: seq<Condition>)
    ensures |cs| == |t.children|
    ensures forall i :: 0 <= i < |cs| ==> cs[i] == t.children[i].node
  {
    ChildConditions(t.children)
  }

  function ChildConditions(ts: seq<TreeNode>): (cs: seq<Condition>)
    ensures |cs| == |ts|
    ensures forall i :: 0 <= i < |cs| ==> cs[i] == ts[i].node
  {
    if ts == [] then [] else [ts[0].node] + ChildConditions(ts[1..])
  }

  /** Clearing the bounds keeps the conditions of the children. */
  lemma UnnumberedChildConditions(t: TreeNode)
    ensures GetChildrenConditions(Unnumbered(t)) == GetChildrenConditions(t)
  {
    var a, b := GetChildrenConditions(Unnumbered(t)), GetChildrenConditions(t);
    assert |a| == |b|;
    forall i | 0 <= i < |a|
      ensures a[i] == b[i]
    {
      assert Unnumbered(t).children[i] == Unnumbered(t.children[i]);
    }
  }
}
