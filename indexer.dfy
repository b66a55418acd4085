/**
 * Nested-set numbering. One counter, shared by reference through a
 * depth-first walk, is incremented before it is written into a node's `left`
 * on entry and again before it is written into its `right` on exit.
 */
module Indexer {
  import opened Conditions
  import opened Tree

  /** The `*int` that attachLeftsAndRights threads through the recursion. */
  class Counter {
    var value: int

    constructor (start: int)
      ensures value == start
    {
      value := start;
    }
  }

  /**
   * Specification of the walk: the numbered tree and the counter's final
   * value when the walk of `t` starts with the counter at `index`.
   */
  function Attach(t: TreeNode, index: int): (TreeNode, int)
    decreases t
  {
    var left := index + 1;
    var (children, last) := AttachAll(t.children, left);
    (TreeNode(children, t.node, left, last + 1), last + 1)
  }

  function AttachAll(ts: seq<TreeNode>, index: int): (r: (seq<TreeNode>, int))
    ensures |r.0| == |ts|
    decreases ts
  {
    if ts == [] then ([], index)
    else
      var (head, mid) := Attach(ts[0], index);
      var (tail, last) := AttachAll(ts[1..], mid);
      ([head] + tail, last)
  }

  lemma {:induction false} AttachAllAppend(ts: seq<TreeNode>, t: TreeNode, index: int)
    ensures AttachAll(ts + [t], index)
         == (AttachAll(ts, index).0 + [Attach(t, AttachAll(ts, index).1).0],
             Attach(t, AttachAll(ts, index).1).1)
    decreases ts
  {
    var (done, mid) := AttachAll(ts, index);
    var (last, after) := Attach(t, mid);
    if ts != [] {
      var (head, next) := Attach(ts[0], index);
      assert (ts + [t])[0] == ts[0] && (ts + [t])[1..] == ts[1..] + [t];
      AttachAllAppend(ts[1..], t, next);
      var (rest, _) := AttachAll(ts[1..], next);
      assert done == [head] + rest;
      assert AttachAll(ts + [t], index).0 == [head] + (rest + [last]);
      assert [head] + (rest + [last]) == done + [last];
    } else {
      assert ts + [t] == [t] && [t][0] == t && [t][1..] == [];
      assert AttachAll([t][1..], after) == ([], after);
      assert AttachAll([t], index) == ([last] + [], after);
      assert [last] + [] == done + [last];
    }
  }

  /** attachLeftsAndRightsRecursively: numbers `t` in place, advancing the shared counter. */
  method AttachLeftsAndRightsRecursively(t: TreeNode, index: Counter) returns (numbered: TreeNode)
    modifies index
    ensures (numbered, index.value) == Attach(t, old(index.value))
    decreases t
  {
    index.value := index.value + 1;
    var left := index.value;
    var children: seq<TreeNode> := [];
    for k := 0 to |t.children|
      invariant AttachAll(t.children[..k], left) == (children, index.value)
    {
      var child := AttachLeftsAndRightsRecursively(t.children[k], index);
      AttachAllAppend(t.children[..k], t.children[k], left);
      assert t.children[..k + 1] == t.children[..k] + [t.children[k]];
      children := children + [child];
    }
    assert t.children[..|t.children|] == t.children;
    index.value := index.value + 1;
    numbered := TreeNode(children, t.node, left, index.value);
  }

  /**
   * attachLeftsAndRights: numbers the whole tree from a fresh counter at 0.
   * The root spans [1, 2n] for a tree of n nodes, the tree keeps its shape and
   * conditions, and every node satisfies the nested-set laws.
   */
  method AttachLeftsAndRights(t: TreeNode) returns (numbered: TreeNode)
    ensures numbered == Attach(t, 0).0
    ensures numbered.left == 1 && numbered.right == 2 * Size(t)
    ensures Unnumbered(numbered) == Unnumbered(t)
    ensures NestedSet(numbered)
  {
    var index := new Counter(0);
    numbered := AttachLeftsAndRightsRecursively(t, index);
    AttachSpan(t, 0);
    AttachKeepsShape(t, 0);
    AttachNestedSet(t, 0);
  }

  /**
   * The local nested-set laws: a node's interval is non-empty, a leaf's has
   * width one, the first child starts right after its parent's left, each
   * next sibling starts right after the previous one's right, and the last
   * child ends right before its parent's right.
   */
  predicate NestedSet(t: TreeNode)
    decreases t
  {
    && t.left < t.right
    && (|t.children| == 0 ==> t.right == t.left + 1)
    && (|t.children| > 0 ==>
          t.children[0].left == t.left + 1 && t.children[|t.children| - 1].right + 1 == t.right)
    && (forall j :: 0 <= j < |t.children| - 1 ==> t.children[j + 1].left == t.children[j].right + 1)
    && forall j :: 0 <= j < |t.children| ==> NestedSet(t.children[j])
  }

  /** The walk of a tree of n nodes advances the counter by 2n and numbers the root [index+1, index+2n]. */
  lemma {:induction false} AttachSpan(t: TreeNode, index: int)
    ensures Attach(t, index).1 == index + 2 * Size(t)
    ensures Attach(t, index).0.left == index + 1
    ensures Attach(t, index).0.right == index + 2 * Size(t)
    decreases t
  {
    AttachAllSpan(t.children, index + 1);
  }

  lemma {:induction false} AttachAllSpan(ts: seq<TreeNode>, index: int)
    ensures AttachAll(ts, index).1 == index + 2 * SizeAll(ts)
    ensures |AttachAll(ts, index).0| == |ts|
    ensures forall j :: 0 <= j < |ts| ==> AttachAll(ts, index).0[j] == Attach(ts[j], index + 2 * SizeAll(ts[..j])).0
    decreases ts
  {
    if ts != [] {
      AttachSpan(ts[0], index);
      var mid := Attach(ts[0], index).1;
      AttachAllSpan(ts[1..], mid);
      forall j | 1 <= j < |ts|
        ensures SizeAll(ts[..j]) == Size(ts[0]) + SizeAll(ts[1..][..j - 1])
      {
        SizeAllPrefix(ts, j);
      }
      assert ts[..0] == [];
    }
  }

  lemma SizeAllPrefix(ts: seq<TreeNode>, j: int)
    requires 1 <= j <= |ts|
    ensures SizeAll(ts[..j]) == Size(ts[0]) + SizeAll(ts[1..][..j - 1])
  {
    assert ts[..j][0] == ts[0];
    assert ts[..j][1..] == ts[1..][..j - 1];
  }

  /** Numbering changes no condition and no child list, only bounds. */
  lemma {:induction false} AttachKeepsShape(t: TreeNode, index: int)
    ensures Unnumbered(Attach(t, index).0) == Unnumbered(t)
    decreases t
  {
    AttachAllKeepsShape(t.children, index + 1);
  }

  lemma {:induction false} AttachAllKeepsShape(ts: seq<TreeNode>, index: int)
    ensures UnnumberedAll(AttachAll(ts, index).0) == UnnumberedAll(ts)
    decreases ts
  {
    if ts != [] {
      AttachKeepsShape(ts[0], index);
      AttachAllKeepsShape(ts[1..], Attach(ts[0], index).1);
    }
  }

  /** Every node of a numbered tree satisfies the nested-set laws. */
  lemma {:induction false} AttachNestedSet(t: TreeNode, index: int)
    ensures NestedSet(Attach(t, index).0)
    decreases t, 2
  {
    AttachSpan(t, index);
    AttachAllNestedSet(t.children, index + 1);
    var n := |t.children|;
    if n > 0 {
      assert t.children[..0] == [];
      assert t.children[..n] == t.children;
    }
  }

  lemma {:induction false} AttachAllNestedSet(ts: seq<TreeNode>, index: int)
    ensures forall j :: 0 <= j < |ts| ==> NestedSet(AttachAll(ts, index).0[j])
    ensures forall j :: 0 <= j < |ts| ==> AttachAll(ts, index).0[j].left == index + 2 * SizeAll(ts[..j]) + 1
    ensures forall j :: 0 <= j < |ts| ==> AttachAll(ts, index).0[j].right == index + 2 * SizeAll(ts[..j + 1])
    ensures forall j :: 0 <= j < |ts| - 1 ==>
      AttachAll(ts, index).0[j + 1].left == AttachAll(ts, index).0[j].right + 1
    decreases ts, 1
  {
    AttachAllSpan(ts, index);
    forall j | 0 <= j < |ts|
      ensures NestedSet(AttachAll(ts, index).0[j])
      ensures AttachAll(ts, index).0[j].left == index + 2 * SizeAll(ts[..j]) + 1
      ensures AttachAll(ts, index).0[j].right == index + 2 * SizeAll(ts[..j + 1])
    {
      AttachNthChild(ts, index, j);
    }
  }

  /** The j-th tree of a run is numbered from just after the 2 * (nodes before it) units its predecessors use. */
  lemma {:induction false} AttachNthChild(ts: seq<TreeNode>, index: int, j: int)
    requires 0 <= j < |ts|
    ensures NestedSet(Attach(ts[j], index + 2 * SizeAll(ts[..j])).0)
    ensures Attach(ts[j], index + 2 * SizeAll(ts[..j])).0.left == index + 2 * SizeAll(ts[..j]) + 1
    ensures Attach(ts[j], index + 2 * SizeAll(ts[..j])).0.right == index + 2 * SizeAll(ts[..j + 1])
    decreases ts[j], 3
  {
    var start := index + 2 * SizeAll(ts[..j]);
    AttachNestedSet(ts[j], start);
    AttachSpan(ts[j], start);
    SizeAllAppend(ts[..j], ts[j]);
    assert ts[..j] + [ts[j]] == ts[..j + 1];
  }

  /** Every child's interval lies strictly inside its parent's. */
  lemma {:induction false} ChildInsideParent(t: TreeNode, j: int)
    requires NestedSet(t)
    requires 0 <= j < |t.children|
    ensures t.left < t.children[j].left && t.children[j].right < t.right
  {
    SiblingsOrdered(t, 0, j);
    SiblingsOrdered(t, j, |t.children| - 1);
  }

  /** Earlier siblings lie wholly to the left of later ones. */
  lemma {:induction false} SiblingsOrdered(t: TreeNode, i: int, j: int)
    requires NestedSet(t)
    requires 0 <= i <= j < |t.children|
    ensures t.children[i].left <= t.children[j].left
    ensures t.children[i].right <= t.children[j].right
    ensures i < j ==> t.children[i].right < t.children[j].left
    decreases j - i
  {
    assert NestedSet(t.children[i]) && NestedSet(t.children[j]);
    if i < j {
      SiblingsOrdered(t, i + 1, j);
      assert NestedSet(t.children[i + 1]);
    }
  }

  /** Numbering keeps the conditions of the children. */
  lemma AttachChildConditions(t: TreeNode, index: int)
    ensures GetChildrenConditions(Attach(t, index).0) == GetChildrenConditions(t)
  {
    AttachKeepsShape(t, index);
    UnnumberedChildConditions(Attach(t, index).0);
    UnnumberedChildConditions(t);
  }
}
