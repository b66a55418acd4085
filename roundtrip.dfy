/**
 * Serializing a tree and parsing the tokens back. The parser unwraps a scope
 * that holds one operand and no logic token, so a branch with a single child
 * comes back as that child; apart from that, and from the bounds (which
 * the parser leaves at 0), the tree comes back as it was.
 */
module RoundTrip {
  import opened Conditions
  import opened Tree
  import opened Serializer
  import opened Parser

  /** What the parser rebuilds from a serialized tree: single-child branches unwrapped, bounds at 0. */
  function Normalize(t: TreeNode): TreeNode
    decreases t
  {
    if |t.children| == 1 then Normalize(t.children[0])
    else TreeNode(NormalizeAll(t.children), t.node, 0, 0)
  }

  function NormalizeAll(ts: seq<TreeNode>): (us: seq<TreeNode>)
    ensures |us| == |ts|
    decreases ts
  {
    if ts == [] then [] else [Normalize(ts[0])] + NormalizeAll(ts[1..])
  }

  /** `s` occurs in `input` at position `q`. */
  predicate At(input: seq<Condition>, q: nat, s: seq<Condition>) {
    q + |s| <= |input| && input[q..q + |s|] == s
  }

  lemma AtSplit(input: seq<Condition>, q: nat, a: seq<Condition>, b: seq<Condition>)
    requires At(input, q, a + b)
    ensures At(input, q, a) && At(input, q + |a|, b)
  {
    assert input[q..q + |a|] == (a + b)[..|a|];
    assert input[q + |a|..q + |a| + |b|] == (a + b)[|a|..];
  }

  /** The scope's node once a run of children has been read: the separator if one was read. */
  function NodeAfter(count: nat, first: bool, sep: Condition, node: Condition): Condition {
    if count >= 2 || (!first && count >= 1) then sep else node
  }

  /** Reading one serialized child appends the rebuilt child to the scope. */
  lemma {:induction false} ChildRoundTrip(input: seq<Condition>, q: nat, remaining: nat, acc: seq<TreeNode>,
                                          node: Condition, c: TreeNode, head: seq<Condition>)
    requires SerializeTree(c) == Ok(head)
    requires At(input, q, head)
    requires |head| <= remaining <= |input|
    ensures ParseScope(input, q, remaining, acc, node)
         == ParseScope(input, q + |head|, remaining - 1, acc + [Normalize(c)], node)
    decreases Size(c), 1
  {
    assert input[q] == input[q..q + |head|][0] == head[0];
    if |c.children| == 0 {
      assert Leaf(c.node) == Normalize(c);
      StepEquality(input, q, remaining, acc, node);
    } else {
      BranchRoundTrip(input, q, remaining - 1, c, head);
      StepOpen(input, q, remaining, acc, node, Normalize(c), q + |head|);
    }
  }

  /**
   * Reading the serialized children of a branch, then its ")", adds the
   * rebuilt children to the scope, in order, and closes it.
   */
  lemma {:induction false} ChildrenRoundTrip(input: seq<Condition>, q: nat, remaining: nat, acc: seq<TreeNode>,
                                             node: Condition, ts: seq<TreeNode>, sep: Condition, first: bool,
                                             body: seq<Condition>)
    requires remaining <= |input|
    requires SerializeChildren(ts, sep, first) == Ok(body)
    requires sep.kind == LogicKind
    requires At(input, q, body + [CloseScope])
    requires remaining >= |body| + 1
    ensures ParseScope(input, q, remaining, acc, node)
         == ScopeClosed(acc + NormalizeAll(ts), NodeAfter(|ts|, first, sep, node), q + |body| + 1)
    decreases SizeAll(ts), 6
  {
    if ts == [] {
      assert input[q] == input[q..q + 1][0] == CloseScope;
      StepClose(input, q, remaining, acc, node);
      assert acc + NormalizeAll(ts) == acc;
    } else {
      ChildrenRoundTripCons(input, q, remaining, acc, node, ts, sep, first, body);
    }
  }

  /** A nonempty run of children serializes as the separator, the first child, then the rest. */
  lemma ChildrenCons(ts: seq<TreeNode>, sep: Condition, first: bool, body: seq<Condition>)
    requires ts != []
    requires SerializeChildren(ts, sep, first) == Ok(body)
    ensures SerializeTree(ts[0]).Ok? && SerializeChildren(ts[1..], sep, false).Ok?
    ensures body == Separator(sep, first) + SerializeTree(ts[0]).value + SerializeChildren(ts[1..], sep, false).value
  {
  }

  /** Where the three pieces of a token run followed by ")" lie in the input. */
  lemma Layout(input: seq<Condition>, q: nat, pre: seq<Condition>, head: seq<Condition>, tail: seq<Condition>)
    requires At(input, q, pre + head + tail + [CloseScope])
    ensures At(input, q, pre)
    ensures At(input, q + |pre|, head)
    ensures At(input, q + |pre| + |head|, tail + [CloseScope])
  {
    assert pre + head + tail + [CloseScope] == pre + (head + (tail + [CloseScope]));
    AtSplit(input, q, pre, head + (tail + [CloseScope]));
    AtSplit(input, q + |pre|, head, tail + [CloseScope]);
  }

  lemma {:induction false} ChildrenRoundTripCons(input: seq<Condition>, q: nat, remaining: nat, acc: seq<TreeNode>,
                                                 node: Condition, ts: seq<TreeNode>, sep: Condition, first: bool,
                                                 body: seq<Condition>)
    requires remaining <= |input|
    requires ts != []
    requires SerializeChildren(ts, sep, first) == Ok(body)
    requires sep.kind == LogicKind
    requires At(input, q, body + [CloseScope])
    requires remaining >= |body| + 1
    ensures ParseScope(input, q, remaining, acc, node)
         == ScopeClosed(acc + NormalizeAll(ts), NodeAfter(|ts|, first, sep, node), q + |body| + 1)
    decreases SizeAll(ts), 5
  {
    var node1 := if first then node else sep;
    ChildrenSteps(input, q, remaining, acc, node, node1, ts, sep, first, body);
    assert NormalizeAll(ts) == [Normalize(ts[0])] + NormalizeAll(ts[1..]);
    assert NodeAfter(|ts[1..]|, false, sep, node1) == NodeAfter(|ts|, first, sep, node);
  }

  /** The separator, the first child, then the rest of the run and ")". */
  lemma {:induction false} ChildrenSteps(input: seq<Condition>, q: nat, remaining: nat, acc: seq<TreeNode>,
                                         node: Condition, node1: Condition, ts: seq<TreeNode>, sep: Condition,
                                         first: bool, body: seq<Condition>)
    requires remaining <= |input|
    requires ts != []
    requires node1 == if first then node else sep
    requires SerializeChildren(ts, sep, first) == Ok(body)
    requires sep.kind == LogicKind
    requires At(input, q, body + [CloseScope])
    requires remaining >= |body| + 1
    ensures ParseScope(input, q, remaining, acc, node)
         == ScopeClosed(acc + ([Normalize(ts[0])] + NormalizeAll(ts[1..])), NodeAfter(|ts[1..]|, false, sep, node1),
                        q + |body| + 1)
    decreases SizeAll(ts), 4
  {
    ChildrenCons(ts, sep, first, body);
    var c, rest, pre := ts[0], ts[1..], Separator(sep, first);
    var head, tail := SerializeTree(c).value, SerializeChildren(rest, sep, false).value;
    Layout(input, q, pre, head, tail);
    SeparatorStep(input, q, remaining, acc, node, node1, sep, first, pre);
    ChildrenChain(input, q + |pre|, remaining - |pre|, acc, node1, c, rest, sep, head, tail);
    assert q + |pre| + |head| + |tail| + 1 == q + |body| + 1;
  }

  /** The first child of a run, then the rest of the run and ")". */
  lemma {:induction false} ChildrenChain(input: seq<Condition>, q: nat, remaining: nat, acc: seq<TreeNode>,
                                         node: Condition, c: TreeNode, rest: seq<TreeNode>, sep: Condition,
                                         head: seq<Condition>, tail: seq<Condition>)
    requires SerializeTree(c) == Ok(head)
    requires SerializeChildren(rest, sep, false) == Ok(tail)
    requires sep.kind == LogicKind
    requires At(input, q, head) && At(input, q + |head|, tail + [CloseScope])
    requires |head| + |tail| + 1 <= remaining <= |input|
    ensures ParseScope(input, q, remaining, acc, node)
         == ScopeClosed(acc + ([Normalize(c)] + NormalizeAll(rest)), NodeAfter(|rest|, false, sep, node),
                        q + |head| + |tail| + 1)
    decreases Size(c) + SizeAll(rest), 3
  {
    ChildRoundTrip(input, q, remaining, acc, node, c, head);
    ChildrenRoundTripRest(input, q + |head|, remaining - 1, acc, node, c, rest, sep, tail);
  }

  /** The separator, if any, becomes the scope's node. */
  lemma SeparatorStep(input: seq<Condition>, q: nat, remaining: nat, acc: seq<TreeNode>, node: Condition,
                      node1: Condition, sep: Condition, first: bool, pre: seq<Condition>)
    requires pre == Separator(sep, first)
    requires node1 == if first then node else sep
    requires At(input, q, pre)
    requires sep.kind == LogicKind
    requires |pre| < remaining <= |input|
    ensures ParseScope(input, q, remaining, acc, node) == ParseScope(input, q + |pre|, remaining - |pre|, acc, node1)
  {
    if !first {
      assert input[q] == input[q..q + 1][0] == sep;
      StepLogic(input, q, remaining, acc, node);
    }
  }

  /** After the first child `c` has been read, the rest of the children and the ")" follow. */
  lemma {:induction false} ChildrenRoundTripRest(input: seq<Condition>, q: nat, remaining: nat, acc: seq<TreeNode>,
                                                 node: Condition, c: TreeNode, rest: seq<TreeNode>, sep: Condition,
                                                 tail: seq<Condition>)
    requires remaining <= |input|
    requires SerializeChildren(rest, sep, false) == Ok(tail)
    requires sep.kind == LogicKind
    requires At(input, q, tail + [CloseScope])
    requires remaining >= |tail| + 1
    ensures ParseScope(input, q, remaining, acc + [Normalize(c)], node)
         == ScopeClosed(acc + ([Normalize(c)] + NormalizeAll(rest)), NodeAfter(|rest|, false, sep, node), q + |tail| + 1)
    decreases SizeAll(rest), 7
  {
    ChildrenRoundTrip(input, q, remaining, acc + [Normalize(c)], node, rest, sep, false, tail);
    assert acc + [Normalize(c)] + NormalizeAll(rest) == acc + ([Normalize(c)] + NormalizeAll(rest));
  }

  /**
   * The frame that a "(" opens, started right after it, reads a serialized
   * branch through its ")" and returns the rebuilt branch.
   */
  lemma {:induction false} BranchRoundTrip(input: seq<Condition>, q: nat, remaining: nat, t: TreeNode, s: seq<Condition>)
    requires |t.children| > 0
    requires SerializeTree(t) == Ok(s)
    requires At(input, q, s)
    requires |s| - 1 <= remaining <= |input|
    ensures ParseScope(input, q + 1, remaining, [], Empty) == Parsed(Normalize(t), q + |s|)
    decreases Size(t), 0
  {
    var body := SerializeChildren(t.children, t.node, true).value;
    assert s == [OpenScope] + (body + [CloseScope]);
    AtSplit(input, q, [OpenScope], body + [CloseScope]);
    ChildrenRoundTrip(input, q + 1, remaining, [], Empty, t.children, t.node, true, body);
    assert [] + NormalizeAll(t.children) == NormalizeAll(t.children);
    assert t.node != Empty by {
      assert t.node.kind == LogicKind;
    }
  }

  /**
   * For every tree the serializer accepts, the parser accepts its output
   * (no panic) and rebuilds the tree up to unwrapping single-child branches.
   */
  lemma {:induction false} ParseSerialized(t: TreeNode)
    requires SerializeTree(t).Ok?
    ensures Unserialize(SerializeTree(t).value).Parsed?
    ensures Unserialize(SerializeTree(t).value).tree == Normalize(t)
  {
    var s := SerializeTree(t).value;
    var n := |s|;
    if |t.children| == 0 {
      assert s == [t.node];
      StepEquality(s, 0, 1, [], Empty);
    } else {
      assert s[..n] == s;
      BranchRoundTrip(s, 0, n - 1, t, s);
      StepOpen(s, 0, n, [], Empty, Normalize(t), n);
      // the outer frame's slice still holds n - 1 cells: it re-reads the stale ")" and closes
      assert Front(s, n) == CloseScope;
      assert ParseToken(s, n, n - 1, [Normalize(t)], Empty) == Parsed(Normalize(t), n + 1);
    }
  }

  /** A well-shaped tree has no single-child branch, so normalizing only clears its bounds. */
  lemma {:induction false} NormalizeWellShaped(t: TreeNode)
    requires WellShaped(t)
    ensures WellTyped(t)
    ensures Normalize(t) == Unnumbered(t)
    decreases t, 1
  {
    NormalizeAllWellShaped(t.children);
  }

  lemma {:induction false} NormalizeAllWellShaped(ts: seq<TreeNode>)
    requires forall i :: 0 <= i < |ts| ==> WellShaped(ts[i])
    ensures AllWellTyped(ts)
    ensures NormalizeAll(ts) == UnnumberedAll(ts)
    decreases ts, 0
  {
    if ts != [] {
      NormalizeWellShaped(ts[0]);
      NormalizeAllWellShaped(ts[1..]);
      forall i | 0 <= i < |ts|
        ensures WellTyped(ts[i])
      {
        if i > 0 {
          assert ts[i] == ts[1..][i - 1];
        }
      }
    }
  }

  /**
   * Round trip: serializing a well-shaped tree succeeds, and parsing the
   * tokens rebuilds the same conditions and child structure; only the
   * nested-set bounds are lost.
   */
  lemma RoundTrip(t: TreeNode)
    requires WellShaped(t)
    ensures SerializeTree(t).Ok?
    ensures Unserialize(SerializeTree(t).value).Parsed?
    ensures Unserialize(SerializeTree(t).value).tree == Unnumbered(t)
  {
    NormalizeWellShaped(t);
    ParseSerialized(t);
  }

  /** The parsed tree's root has the same child conditions as the tree that was serialized. */
  lemma ParsedChildConditions(t: TreeNode)
    requires WellShaped(t)
    ensures SerializeTree(t).Ok? && Unserialize(SerializeTree(t).value).Parsed?
    ensures GetChildrenConditions(Unserialize(SerializeTree(t).value).tree) == GetChildrenConditions(t)
  {
    RoundTrip(t);
    UnnumberedChildConditions(t);
  }

  /**
   * The other direction for a well-shaped tree: serializing the parsed tree
   * writes back exactly the tokens it was parsed from.
   */
  lemma SerializeParsed(t: TreeNode)
    requires WellShaped(t)
    ensures SerializeTree(t).Ok? && Unserialize(SerializeTree(t).value).Parsed?
    ensures SerializeTree(Unserialize(SerializeTree(t).value).tree) == SerializeTree(t)
  {
    RoundTrip(t);
    SerializeUnnumbered(t);
  }
}
