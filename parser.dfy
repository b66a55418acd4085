/**
 * Building the tree from the flat token list (unserializeFormattedTree).
 *
 * The source treats its slice as a queue: each step takes the front token and
 * shifts the rest of the shared backing array one place to the left, in place.
 * A recursive call on "(" receives the caller's slice, so when it returns the
 * caller finds the tokens after the callee's ")" at the front. The caller's
 * own slice length, however, only drops by the tokens the caller itself
 * popped. Here the backing array is the immutable `input`, the front of the
 * array is a cursor `pos` (the number of tokens popped so far by all frames),
 * and each frame keeps its own slice length, `remaining`. Once the cursor has
 * passed the end, the cells still inside a frame's slice hold stale copies of
 * the last token, which the frame then reads again.
 */
module Parser {
  import opened Conditions
  import opened Tree

  /** The outcome of a frame: the tree it returns and the cursor after it, or the index-out-of-range panic. */
  datatype Parse = Parsed(tree: TreeNode, next: nat) | Panic

  /** The front of a frame's slice after `pos` shifts: the token at `pos`, or the last token once past the end. */
  function Front(input: seq<Condition>, pos: nat): (c: Condition)
    requires |input| > 0
    ensures pos < |input| ==> c == input[pos]
    ensures pos >= |input| ==> c == input[|input| - 1]
  {
    if pos < |input| then input[pos] else input[|input| - 1]
  }

  /** On ")": the first child when no logic token was seen in the scope, otherwise the scope's own node. */
  function ScopeClosed(children: seq<TreeNode>, node: Condition, next: nat): Parse {
    if node == Empty then
      if |children| == 0 then Panic else Parsed(children[0], next)
    else Parsed(TreeNode(children, node, 0, 0), next)
  }

  /** When the slice runs out: the scope's node if it has children and a logic token, otherwise the first child. */
  function EndOfInput(children: seq<TreeNode>, node: Condition, next: nat): Parse {
    if |children| > 0 && !Matches(node, Empty) then Parsed(TreeNode(children, node, 0, 0), next)
    else if |children| == 0 then Panic
    else Parsed(children[0], next)
  }

  /**
   * The rest of one frame's loop, with the cursor at `pos`, `remaining` tokens
   * left in this frame's slice, and the children and node gathered so far.
   */
  function ParseScope(input: seq<Condition>, pos: nat, remaining: nat, children: seq<TreeNode>, node: Condition): Parse
    requires remaining <= |input|
    decreases remaining, 1
  {
    if remaining == 0 then EndOfInput(children, node, pos) else ParseToken(input, pos, remaining, children, node)
  }

  /** One iteration of a frame's loop: pop the front token and act on its type. */
  function ParseToken(input: seq<Condition>, pos: nat, remaining: nat, children: seq<TreeNode>, node: Condition): Parse
    requires 0 < remaining <= |input|
    decreases remaining, 0
  {
    var c := Front(input, pos);
    if c.kind == ScopeKind then
      if c.operator == "(" then
        match ParseScope(input, pos + 1, remaining - 1, [], Empty)
        case Panic => Panic
        case Parsed(sub, after) => ParseScope(input, after, remaining - 1, children + [sub], node)
      else if c.operator == ")" then ScopeClosed(children, node, pos + 1)
      else ParseScope(input, pos + 1, remaining - 1, children, node)
    else if c.kind == LogicKind then ParseScope(input, pos + 1, remaining - 1, children, c)
    else if c.kind == EqualityKind then ParseScope(input, pos + 1, remaining - 1, children + [Leaf(c)], node)
    else ParseScope(input, pos + 1, remaining - 1, children, node)
  }

  /** One step of a frame on a logic token: the token becomes the scope's node. */
  lemma StepLogic(input: seq<Condition>, q: nat, remaining: nat, acc: seq<TreeNode>, node: Condition)
    requires 0 < remaining <= |input|
    requires Front(input, q).kind == LogicKind
    ensures ParseScope(input, q, remaining, acc, node) == ParseScope(input, q + 1, remaining - 1, acc, Front(input, q))
  {
  }

  /** One step of a frame on an equality token: a new leaf is appended. */
  lemma StepEquality(input: seq<Condition>, q: nat, remaining: nat, acc: seq<TreeNode>, node: Condition)
    requires 0 < remaining <= |input|
    requires Front(input, q).kind == EqualityKind
    ensures ParseScope(input, q, remaining, acc, node)
         == ParseScope(input, q + 1, remaining - 1, acc + [Leaf(Front(input, q))], node)
  {
  }

  /** One step of a frame on "(": the nested frame's tree is appended and the frame resumes after it. */
  lemma StepOpen(input: seq<Condition>, q: nat, remaining: nat, acc: seq<TreeNode>, node: Condition,
                 sub: TreeNode, after: nat)
    requires 0 < remaining <= |input|
    requires Front(input, q) == OpenScope
    requires ParseScope(input, q + 1, remaining - 1, [], Empty) == Parsed(sub, after)
    ensures ParseScope(input, q, remaining, acc, node) == ParseScope(input, after, remaining - 1, acc + [sub], node)
  {
  }

  /** One step of a frame on ")": the scope is closed. */
  lemma StepClose(input: seq<Condition>, q: nat, remaining: nat, acc: seq<TreeNode>, node: Condition)
    requires 0 < remaining <= |input|
    requires Front(input, q) == CloseScope
    ensures ParseScope(input, q, remaining, acc, node) == ScopeClosed(acc, node, q + 1)
  {
  }

  /** The leaves that the equality tokens of a run become, in input order. */
  function Operands(s: seq<Condition>): (ls: seq<TreeNode>)
    ensures |ls| <= |s|
  {
    if s == [] then []
    else (if s[0].kind == EqualityKind then [Leaf(s[0])] else []) + Operands(s[1..])
  }

  /** The last logic token of a run, or `node` when the run holds none. */
  function LastLogic(s: seq<Condition>, node: Condition): (c: Condition)
    ensures c == node || (c in s && c.kind == LogicKind)
  {
    if s == [] then node
    else if s[|s| - 1].kind == LogicKind then s[|s| - 1]
    else LastLogic(s[..|s| - 1], node)
  }

  /** Reading a run's first token first: a logic token there is what the rest of the run starts from. */
  lemma {:induction false} LastLogicCons(s: seq<Condition>, node: Condition)
    requires s != []
    ensures LastLogic(s, node) == LastLogic(s[1..], if s[0].kind == LogicKind then s[0] else node)
    decreases |s|
  {
    if |s| > 1 {
      var init := s[..|s| - 1];
      assert init[1..] == s[1..][..|s[1..]| - 1];
      assert s[1..][|s[1..]| - 1] == s[|s| - 1];
      if s[|s| - 1].kind != LogicKind {
        LastLogicCons(init, node);
      }
    } else {
      assert s[..0] == [] && s[1..] == [];
    }
  }

  /** A token that is not a scope marker adds its leaf, if it is an equality, and its node, if it is a logic token. */
  lemma StepFlat(input: seq<Condition>, q: nat, remaining: nat, acc: seq<TreeNode>, node: Condition)
    requires 0 < remaining <= |input|
    requires Front(input, q).kind != ScopeKind
    ensures ParseScope(input, q, remaining, acc, node)
         == ParseScope(input, q + 1, remaining - 1, acc + Operands([Front(input, q)]),
                       LastLogic([Front(input, q)], node))
  {
    var c := Front(input, q);
    assert [c][1..] == [] && [c][..0] == [];
    assert acc + ([] + []) == acc;
    assert acc + ([Leaf(c)] + []) == acc + [Leaf(c)];
  }

  /** Splitting a run after its first token, in the form the parser reads it. */
  lemma RunCons(s: seq<Condition>, acc: seq<TreeNode>, node: Condition)
    requires s != []
    ensures acc + Operands([s[0]]) + Operands(s[1..]) == acc + Operands(s)
    ensures LastLogic(s[1..], LastLogic([s[0]], node)) == LastLogic(s, node)
  {
    LastLogicCons(s, node);
    assert [s[0]][..0] == [] && [s[0]][1..] == [];
    assert Operands(s) == Operands([s[0]]) + Operands(s[1..]);
  }

  /**
   * A scope's run of tokens up to its ")": when no scope marker comes before
   * the ")", the scope closes with the leaves of the run's equality tokens
   * appended in input order, and with the last logic token of the run as its
   * node (a later one replaces an earlier one), or the node it had when none.
   */
  lemma {:induction false} ScopeRun(input: seq<Condition>, q: nat, remaining: nat, acc: seq<TreeNode>,
                                    node: Condition, s: seq<Condition>)
    requires q + |s| < |input|
    requires |s| < remaining <= |input|
    requires forall i :: 0 <= i < |s| ==> input[q + i] == s[i] && s[i].kind != ScopeKind
    requires input[q + |s|].kind == ScopeKind && input[q + |s|].operator == ")"
    ensures ParseScope(input, q, remaining, acc, node) == ScopeClosed(acc + Operands(s), LastLogic(s, node), q + |s| + 1)
    decreases |s|
  {
    if s == [] {
      assert acc + [] == acc;
    } else {
      assert input[q] == s[0];
      StepFlat(input, q, remaining, acc, node);
      ScopeRun(input, q + 1, remaining - 1, acc + Operands([s[0]]), LastLogic([s[0]], node), s[1..]);
      RunCons(s, acc, node);
    }
  }

  /**
   * A frame whose slice holds no scope marker reads each of its tokens once
   * and stops at the end of its slice: its leaves are the equality tokens in
   * input order and its node is the last logic token, as at the ")" of a run.
   * With `q` 0, `acc` empty and `node` Empty this is `Unserialize` of input
   * without scope markers: no token is read twice.
   */
  lemma {:induction false} FlatRun(input: seq<Condition>, q: nat, acc: seq<TreeNode>, node: Condition,
                                   s: seq<Condition>)
    requires q + |s| <= |input|
    requires forall i :: 0 <= i < |s| ==> input[q + i] == s[i] && s[i].kind != ScopeKind
    ensures ParseScope(input, q, |s|, acc, node) == EndOfInput(acc + Operands(s), LastLogic(s, node), q + |s|)
    decreases |s|
  {
    if s == [] {
      assert acc + [] == acc;
    } else {
      assert input[q] == s[0];
      StepFlat(input, q, |s|, acc, node);
      FlatRun(input, q + 1, acc + Operands([s[0]]), LastLogic([s[0]], node), s[1..]);
      RunCons(s, acc, node);
    }
  }

  /** `r` copies of the leaf `l`. */
  function Copies(l: TreeNode, r: nat): (ls: seq<TreeNode>)
    ensures |ls| == r
    ensures forall i :: 0 <= i < r ==> ls[i] == l
  {
    if r == 0 then [] else [l] + Copies(l, r - 1)
  }

  /**
   * A frame whose cursor has passed the end with `r` cells still in its
   * slice reads the last token `r` more times: when that token is an
   * equality, each stale copy becomes one more leaf, and the frame then ends
   * as the loop exit decides.
   */
  lemma {:induction false} StaleTail(input: seq<Condition>, pos: nat, r: nat, acc: seq<TreeNode>, node: Condition)
    requires 0 < |input|
    requires pos >= |input|
    requires r <= |input|
    requires input[|input| - 1].kind == EqualityKind
    ensures ParseScope(input, pos, r, acc, node) == EndOfInput(acc + Copies(Leaf(input[|input| - 1]), r), node, pos + r)
    decreases r
  {
    var l := Leaf(input[|input| - 1]);
    if r == 0 {
      assert acc + [] == acc;
    } else {
      StepEquality(input, pos, r, acc, node);
      StaleTail(input, pos + 1, r - 1, acc + [l], node);
      assert acc + [l] + Copies(l, r - 1) == acc + Copies(l, r);
    }
  }

  /**
   * What the shared backing array does to input that is not wrapped in one
   * outer scope and ends in an operand after a nested scope: the nested frame
   * popped four tokens that the outer frame's slice still counts, so
   * once the cursor reaches the end the slice still holds four cells, all
   * stale copies of the last token, and the trailing operand is read five
   * times in all.
   */
  lemma {:induction false} TrailingOperandReread(a: Condition, b: Condition, c: Condition, op: Condition)
    requires a.kind == EqualityKind && b.kind == EqualityKind && c.kind == EqualityKind
    requires op.kind == LogicKind
    ensures Unserialize([OpenScope, a, op, b, CloseScope, op, c])
         == Parsed(TreeNode([TreeNode([Leaf(a), Leaf(b)], op, 0, 0), Leaf(c), Leaf(c), Leaf(c), Leaf(c), Leaf(c)],
                            op, 0, 0), 11)
  {
    var s := [OpenScope, a, op, b, CloseScope, op, c];
    var inner := TreeNode([Leaf(a), Leaf(b)], op, 0, 0);
    RereadInner(s, a, b, op);
    StepOpen(s, 0, 7, [], Empty, inner, 5);
    assert [] + [inner] == [inner];
    StepLogic(s, 5, 6, [inner], Empty);
    RereadTail(s, inner, c, op);
  }

  lemma RereadInner(s: seq<Condition>, a: Condition, b: Condition, op: Condition)
    requires |s| == 7 && s[1] == a && s[2] == op && s[3] == b && s[4] == CloseScope
    requires a.kind == EqualityKind && b.kind == EqualityKind && op.kind == LogicKind
    ensures ParseScope(s, 1, 6, [], Empty) == Parsed(TreeNode([Leaf(a), Leaf(b)], op, 0, 0), 5)
  {
    StepEquality(s, 1, 6, [], Empty);
    StepLogic(s, 2, 5, [Leaf(a)], Empty);
    StepEquality(s, 3, 4, [Leaf(a)], op);
    StepClose(s, 4, 3, [Leaf(a), Leaf(b)], op);
    assert [] + [Leaf(a)] == [Leaf(a)] && [Leaf(a)] + [Leaf(b)] == [Leaf(a), Leaf(b)];
    assert op != Empty;
  }

  lemma RereadTail(s: seq<Condition>, inner: TreeNode, c: Condition, op: Condition)
    requires |s| == 7 && s[6] == c
    requires c.kind == EqualityKind && op.kind == LogicKind
    ensures ParseScope(s, 6, 5, [inner], op)
         == Parsed(TreeNode([inner, Leaf(c), Leaf(c), Leaf(c), Leaf(c), Leaf(c)], op, 0, 0), 11)
  {
    var l := Leaf(c);
    StepEquality(s, 6, 5, [inner], op);
    assert [inner] + [l] == [inner, l];
    StaleTail(s, 7, 4, [inner, l], op);
    assert Copies(l, 4) == [l, l, l, l];
    assert [inner, l] + [l, l, l, l] == [inner, l, l, l, l, l];
    assert op != Empty;
  }

  /** The outermost frame: the whole input, an empty scope. */
  function Unserialize(input: seq<Condition>): Parse {
    ParseScope(input, 0, |input|, [], Empty)
  }

  /**
   * One call of unserializeFormattedTree on the slice that starts at `cursor`
   * and is `length` tokens long; returns the tree and the cursor after it.
   */
  method UnserializeFrom(input: seq<Condition>, cursor: nat, length: nat) returns (root: TreeNode, next: nat)
    requires length <= |input|
    requires ParseScope(input, cursor, length, [], Empty).Parsed?
    ensures ParseScope(input, cursor, length, [], Empty) == Parsed(root, next)
    decreases length
  {
    var children: seq<TreeNode> := [];
    var node := Empty;
    var pos: nat, remaining: nat := cursor, length;
    while remaining > 0
      invariant remaining <= length
      invariant ParseScope(input, pos, remaining, children, node) == ParseScope(input, cursor, length, [], Empty)
      decreases remaining
    {
      var condition := Front(input, pos);
      pos, remaining := pos + 1, remaining - 1;
      if condition.kind == ScopeKind {
        if condition.operator == "(" {
          var sub;
          sub, pos := UnserializeFrom(input, pos, remaining);
          children := children + [sub];
        }
        if condition.operator == ")" {
          if node == Empty {
            return children[0], pos;
          } else {
            return TreeNode(children, node, 0, 0), pos;
          }
        }
      } else if condition.kind == LogicKind {
        node := condition;
      } else if condition.kind == EqualityKind {
        children := children + [Leaf(condition)];
      }
    }
    if |children| > 0 && !Matches(node, Empty) {
      return TreeNode(children, node, 0, 0), pos;
    }
    return children[0], pos;
  }

  /** unserializeFormattedTree on the whole token list; the caller must not hand it input that panics. */
  method UnserializeFormattedTree(conditions: seq<Condition>) returns (root: TreeNode)
    requires Unserialize(conditions).Parsed?
    ensures root == Unserialize(conditions).tree
  {
    var next;
    root, next := UnserializeFrom(conditions, 0, |conditions|);
  }
}
