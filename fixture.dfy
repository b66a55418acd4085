/**
 * The numbering of the tree used by the attachLeftsAndRights test, derived
 * from the specification function for any choice of the conditions at its
 * nodes: the root spans [1, 24], the two OR branches [2, 17] and [18, 23].
 */
module Fixture {
  import opened Conditions
  import opened Tree
  import opened Indexer

  /** A run of leaves is numbered one unit interval after another. */
  lemma {:induction false} AttachLeaves(ls: seq<TreeNode>, index: int)
    requires forall i :: 0 <= i < |ls| ==> ls[i].children == []
    ensures AttachAll(ls, index).1 == index + 2 * |ls|
    ensures forall i :: 0 <= i < |ls| ==>
      AttachAll(ls, index).0[i] == TreeNode([], ls[i].node, index + 2 * i + 1, index + 2 * i + 2)
  {
    if ls != [] {
      var t := ls[0];
      assert AttachAll(t.children, index + 1) == ([], index + 1);
      assert Attach(t, index) == (TreeNode([], t.node, index + 1, index + 2), index + 2);
      AttachLeaves(ls[1..], index + 2);
      forall i | 1 <= i < |ls|
        ensures AttachAll(ls, index).0[i] == TreeNode([], ls[i].node, index + 2 * i + 1, index + 2 * i + 2)
      {
        assert ls[1..][i - 1] == ls[i];
      }
    }
  }

  lemma AttachPair(a: TreeNode, b: TreeNode, index: int)
    ensures AttachAll([a, b], index)
         == ([Attach(a, index).0, Attach(b, Attach(a, index).1).0], Attach(b, Attach(a, index).1).1)
  {
    var (x, mid) := Attach(a, index);
    var (y, last) := Attach(b, mid);
    assert [a, b][0] == a && [a, b][1..] == [b];
    assert [b][0] == b && [b][1..] == [];
    assert AttachAll([b][1..], last) == ([], last);
    assert AttachAll([b], mid) == ([y] + [], last);
    assert [y] + [] == [y];
    assert AttachAll([a, b][1..], mid) == ([y], last);
    assert AttachAll([a, b], index) == ([x] + [y], last);
    assert [x] + [y] == [x, y];
  }

  lemma InnerAnd(and: Condition, e4: Condition, e5: Condition, e6: Condition, e7: Condition, e8: Condition)
    ensures Attach(TreeNode([Leaf(e4), Leaf(e5), Leaf(e6), Leaf(e7), Leaf(e8)], and, 0, 0), 2)
         == (TreeNode([TreeNode([], e4, 4, 5), TreeNode([], e5, 6, 7), TreeNode([], e6, 8, 9),
                       TreeNode([], e7, 10, 11), TreeNode([], e8, 12, 13)], and, 3, 14), 14)
  {
    var l := [Leaf(e4), Leaf(e5), Leaf(e6), Leaf(e7), Leaf(e8)];
    var n := [TreeNode([], e4, 4, 5), TreeNode([], e5, 6, 7), TreeNode([], e6, 8, 9),
              TreeNode([], e7, 10, 11), TreeNode([], e8, 12, 13)];
    assert forall i :: 0 <= i < |l| ==> l[i].children == [];
    AttachLeaves(l, 3);
    assert AttachAll(l, 3).0 == n by {
      forall i | 0 <= i < 5
        ensures AttachAll(l, 3).0[i] == n[i]
      {
      }
    }
  }

  function Inner(and: Condition, e4: Condition, e5: Condition, e6: Condition, e7: Condition, e8: Condition): TreeNode {
    TreeNode([Leaf(e4), Leaf(e5), Leaf(e6), Leaf(e7), Leaf(e8)], and, 0, 0)
  }

  lemma FirstOr(and: Condition, or: Condition, e1: Condition, e4: Condition, e5: Condition, e6: Condition,
                e7: Condition, e8: Condition)
    ensures Attach(TreeNode([Inner(and, e4, e5, e6, e7, e8), Leaf(e1)], or, 0, 0), 1)
         == (TreeNode([TreeNode([TreeNode([], e4, 4, 5), TreeNode([], e5, 6, 7), TreeNode([], e6, 8, 9),
                                 TreeNode([], e7, 10, 11), TreeNode([], e8, 12, 13)], and, 3, 14),
                       TreeNode([], e1, 15, 16)], or, 2, 17), 17)
  {
    InnerAnd(and, e4, e5, e6, e7, e8);
    AttachLeaves([Leaf(e1)], 14);
    AttachPair(Inner(and, e4, e5, e6, e7, e8), Leaf(e1), 2);
  }

  lemma SecondOr(or: Condition, e2: Condition, e3: Condition)
    ensures Attach(TreeNode([Leaf(e2), Leaf(e3)], or, 0, 0), 17)
         == (TreeNode([TreeNode([], e2, 19, 20), TreeNode([], e3, 21, 22)], or, 18, 23), 23)
  {
    AttachPair(Leaf(e2), Leaf(e3), 18);
    AttachLeaves([Leaf(e2)], 18);
    AttachLeaves([Leaf(e3)], 20);
  }

  /** The tree of the attachLeftsAndRights test: AND over (OR over (AND over five leaves) and a leaf) and (OR over two leaves). */
  function Sample(and: Condition, or: Condition, e1: Condition, e2: Condition, e3: Condition, e4: Condition,
                  e5: Condition, e6: Condition, e7: Condition, e8: Condition): TreeNode {
    TreeNode([TreeNode([Inner(and, e4, e5, e6, e7, e8), Leaf(e1)], or, 0, 0),
              TreeNode([Leaf(e2), Leaf(e3)], or, 0, 0)], and, 0, 0)
  }

  lemma SampleNumbering(and: Condition, or: Condition, e1: Condition, e2: Condition, e3: Condition, e4: Condition,
                        e5: Condition, e6: Condition, e7: Condition, e8: Condition)
    ensures Attach(Sample(and, or, e1, e2, e3, e4, e5, e6, e7, e8), 0).0
         == TreeNode([
              TreeNode([
                TreeNode([TreeNode([], e4, 4, 5), TreeNode([], e5, 6, 7), TreeNode([], e6, 8, 9),
                          TreeNode([], e7, 10, 11), TreeNode([], e8, 12, 13)], and, 3, 14),
                TreeNode([], e1, 15, 16)], or, 2, 17),
              TreeNode([TreeNode([], e2, 19, 20), TreeNode([], e3, 21, 22)], or, 18, 23)], and, 1, 24)
  {
    var t := Sample(and, or, e1, e2, e3, e4, e5, e6, e7, e8);
    FirstOr(and, or, e1, e4, e5, e6, e7, e8);
    SecondOr(or, e2, e3);
    AttachPair(t.children[0], t.children[1], 1);
    assert t.children == [t.children[0], t.children[1]];
  }
}
