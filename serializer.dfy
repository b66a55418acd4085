/**
 * Writing a tree back out as a flat, parenthesised token list: the inverse
 * of the parser. Each node's type is checked on the way down, and a bad node
 * anywhere aborts the whole serialization with no partial output.
 */
module Serializer {
  import opened Conditions
  import opened Tree

  /** The two failures of serializeTree, named after their messages. */
  datatype ShapeError =
    | LogicAsLeaf       // a node without children whose type is not "equality"
    | EqualityAsBranch  // a node with children whose type is not "logic"

  /** Every childless node is an equality and every node with children is a logic operator. */
  predicate WellTyped(t: TreeNode)
    decreases t
  {
    && (|t.children| == 0 ==> t.node.kind == EqualityKind)
    && (|t.children| > 0 ==> t.node.kind == LogicKind)
    && forall i :: 0 <= i < |t.children| ==> WellTyped(t.children[i])
  }

  predicate AllWellTyped(ts: seq<TreeNode>) {
    forall i :: 0 <= i < |ts| ==> WellTyped(ts[i])
  }

  /**
   * A leaf becomes its own condition; a branch becomes "(", its children
   * separated by the branch's logic condition, then ")".
   * It fails exactly when some node has the wrong type, and a tree of n nodes
   * serializes to 2n - 1 tokens: every branch adds its two scope markers and
   * one separator fewer than it has children.
   */
  function SerializeTree(t: TreeNode): (r: Result<seq<Condition>, ShapeError>)
    ensures r.Ok? <==> WellTyped(t)
    ensures r.Ok? ==> |r.value| == 2 * Size(t) - 1
    ensures r.Ok? && |t.children| > 0 ==> r.value[0] == OpenScope && r.value[|r.value| - 1] == CloseScope
    decreases t
  {
    if |t.children| == 0 then
      if t.node.kind != EqualityKind then Err(LogicAsLeaf) else Ok([t.node])
    else if t.node.kind != LogicKind then Err(EqualityAsBranch)
    else
      match SerializeChildren(t.children, t.node, true)
      case Err(e) => Err(e)
      case Ok(body) => Ok([OpenScope] + body + [CloseScope])
  }

  /** The separator written before a child: none before the first child of a branch. */
  function Separator(sep: Condition, first: bool): (s: seq<Condition>)
    ensures |s| == if first then 0 else 1
  {
    if first then [] else [sep]
  }

  /**
   * The children from `ts` on, each one but the very first of the branch
   * (`first`) preceded by the separator `sep`; the first child that fails
   * decides the error.
   */
  function SerializeChildren(ts: seq<TreeNode>, sep: Condition, first: bool): (r: Result<seq<Condition>, ShapeError>)
    ensures r.Ok? <==> AllWellTyped(ts)
    ensures r.Ok? ==> |r.value| == 2 * SizeAll(ts) - (if first && |ts| > 0 then 1 else 0)
    decreases ts
  {
    if ts == [] then Ok([])
    else
      match SerializeTree(ts[0])
      case Err(e) => Err(e)
      case Ok(head) =>
        match SerializeChildren(ts[1..], sep, false)
        case Err(e) => Err(e)
        case Ok(tail) => Ok(Separator(sep, first) + head + tail)
  }

  /** The bounds play no part in serialization. */
  lemma {:induction false} SerializeUnnumbered(t: TreeNode)
    ensures SerializeTree(Unnumbered(t)) == SerializeTree(t)
    decreases t, 1
  {
    SerializeChildrenUnnumbered(t.children, t.node, true);
  }

  lemma {:induction false} SerializeChildrenUnnumbered(ts: seq<TreeNode>, sep: Condition, first: bool)
    ensures SerializeChildren(UnnumberedAll(ts), sep, first) == SerializeChildren(ts, sep, first)
    decreases ts, 0
  {
    if ts != [] {
      SerializeUnnumbered(ts[0]);
      SerializeChildrenUnnumbered(ts[1..], sep, false);
      assert UnnumberedAll(ts)[1..] == UnnumberedAll(ts[1..]);
    }
  }
}
