/**
 * The parser as the source runs it: on the slice's backing array itself.
 * Popping the front token copies the rest of a frame's slice one cell to the
 * left, in place, and leaves the array's cells beyond the slice as they were.
 * A nested frame shifts the same array, so its caller continues on the array
 * the nested frame left behind. This module proves that the cursor model of
 * the Parser module describes exactly that: after k pops, by whichever frames,
 * the array holds the tokens from k on followed by copies of the last token.
 */
module Shift {
  import opened Conditions
  import opened Tree
  import opened Parser

  /**
   * One pop on a frame whose slice holds the first `m` cells of `a`: cells
   * 1 to m - 1 move one place to the left, and every later cell keeps its value.
   */
  function Pop(a: seq<Condition>, m: nat): (b: seq<Condition>)
    requires 0 < m <= |a|
    ensures |b| == |a|
    ensures forall i :: 0 <= i < m - 1 ==> b[i] == a[i + 1]
    ensures forall i :: m - 1 <= i < |a| ==> b[i] == a[i]
  {
    a[1..m] + a[m - 1..]
  }

  /** The backing array after `k` pops: the tokens from `k` on, then copies of the last token. */
  function Backing(input: seq<Condition>, k: nat): (a: seq<Condition>)
    ensures |a| == |input|
  {
    seq(|input|, i requires 0 <= i < |input| => if k + i < |input| then input[k + i] else input[|input| - 1])
  }

  /**
   * As long as the frame's slice reaches at least to the last unread token,
   * the front cell is `Front(input, k)` and a pop leaves the backing array
   * that k + 1 pops describe: stale cells only ever hold the last token.
   */
  lemma PopBacking(input: seq<Condition>, k: nat, m: nat)
    requires |input| > 0
    requires 0 < m <= |input|
    requires m + k >= |input|
    ensures Backing(input, k)[0] == Front(input, k)
    ensures Pop(Backing(input, k), m) == Backing(input, k + 1)
  {
    var a, b, c := Backing(input, k), Pop(Backing(input, k), m), Backing(input, k + 1);
    forall i | 0 <= i < |input|
      ensures b[i] == c[i]
    {
      if i < m - 1 {
        assert b[i] == a[i + 1];
      } else {
        assert b[i] == a[i];
      }
    }
  }

  /** What a frame leaves: the tree it returns and the backing array as it left it, or the panic. */
  datatype Frame = Returned(tree: TreeNode, backing: seq<Condition>) | Panicked

  /** A result of the cursor model, with the cursor read as the backing array it stands for. */
  function OnBacking(input: seq<Condition>, p: Parse): Frame
  {
    match p
    case Panic => Panicked
    case Parsed(t, next) => Returned(t, Backing(input, next))
  }

  /** A frame's result given the array it ends on; the cursor that `ScopeClosed` and `EndOfInput` compute plays no part. */
  function Ending(p: Parse, a: seq<Condition>): Frame {
    match p
    case Panic => Panicked
    case Parsed(t, _) => Returned(t, a)
  }

  /**
   * unserializeFormattedTree on the backing array `a` with a slice of `m`
   * cells: read cell 0, pop it, and act on the token's type.
   */
  function ShiftParse(a: seq<Condition>, m: nat, children: seq<TreeNode>, node: Condition): (f: Frame)
    requires m <= |a|
    ensures f.Returned? ==> |f.backing| == |a|
    decreases m
  {
    if m == 0 then Ending(EndOfInput(children, node, 0), a)
    else
      var c := a[0];
      var b := Pop(a, m);
      if c.kind == ScopeKind then
        if c.operator == "(" then
          match ShiftParse(b, m - 1, [], Empty)
          case Panicked => Panicked
          case Returned(sub, b') => ShiftParse(b', m - 1, children + [sub], node)
        else if c.operator == ")" then Ending(ScopeClosed(children, node, 0), b)
        else ShiftParse(b, m - 1, children, node)
      else if c.kind == LogicKind then ShiftParse(b, m - 1, children, c)
      else if c.kind == EqualityKind then ShiftParse(b, m - 1, children + [Leaf(c)], node)
      else ShiftParse(b, m - 1, children, node)
  }

  /** A frame never moves the cursor backwards. */
  lemma {:induction false} ParseAdvances(input: seq<Condition>, pos: nat, remaining: nat, children: seq<TreeNode>,
                                         node: Condition)
    requires remaining <= |input|
    ensures ParseScope(input, pos, remaining, children, node).Parsed? ==>
              ParseScope(input, pos, remaining, children, node).next >= pos
    decreases remaining
  {
    if remaining > 0 {
      var c := Front(input, pos);
      if c.kind == ScopeKind && c.operator == "(" {
        ParseAdvances(input, pos + 1, remaining - 1, [], Empty);
        var p := ParseScope(input, pos + 1, remaining - 1, [], Empty);
        if p.Parsed? {
          ParseAdvances(input, p.next, remaining - 1, children + [p.tree], node);
        }
      } else if c.kind == LogicKind {
        ParseAdvances(input, pos + 1, remaining - 1, children, c);
      } else if c.kind == EqualityKind {
        ParseAdvances(input, pos + 1, remaining - 1, children + [Leaf(c)], node);
      } else if c.kind != ScopeKind || c.operator != ")" {
        ParseAdvances(input, pos + 1, remaining - 1, children, node);
      }
    }
  }

  /**
   * The cursor model is the in-place parser: started on the array that `k`
   * pops leave, with a slice that reaches the last unread token, the frame
   * returns the same tree and leaves the array that the returned cursor
   * stands for, and it panics exactly when the cursor model does.
   */
  lemma {:induction false} ShiftParseScope(input: seq<Condition>, k: nat, m: nat, children: seq<TreeNode>,
                                           node: Condition)
    requires m <= |input|
    requires m + k >= |input|
    ensures ShiftParse(Backing(input, k), m, children, node) == OnBacking(input, ParseScope(input, k, m, children, node))
    decreases m
  {
    if m > 0 {
      PopBacking(input, k, m);
      var c := Front(input, k);
      if c.kind == ScopeKind && c.operator == "(" {
        ShiftParseScope(input, k + 1, m - 1, [], Empty);
        ParseAdvances(input, k + 1, m - 1, [], Empty);
        var p := ParseScope(input, k + 1, m - 1, [], Empty);
        if p.Parsed? {
          ShiftParseScope(input, p.next, m - 1, children + [p.tree], node);
        }
      } else if c.kind == LogicKind {
        ShiftParseScope(input, k + 1, m - 1, children, c);
      } else if c.kind == EqualityKind {
        ShiftParseScope(input, k + 1, m - 1, children + [Leaf(c)], node);
      } else if c.kind != ScopeKind || c.operator != ")" {
        ShiftParseScope(input, k + 1, m - 1, children, node);
      }
    }
  }

  /** On the whole input, the in-place parser returns the tree `Unserialize` gives, and panics exactly when it does. */
  lemma ShiftUnserialize(input: seq<Condition>)
    ensures ShiftParse(input, |input|, [], Empty) == OnBacking(input, Unserialize(input))
  {
    assert Backing(input, 0) == input;
    ShiftParseScope(input, 0, |input|, [], Empty);
  }
}
