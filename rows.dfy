/**
 * Encoding a tree as two row lists for bulk loading: one row per equality
 * node and one per logic node, each carrying the node's nested-set bounds.
 * The rows stand for the tuples that the source renders into SQL value text;
 * the text itself (quoting, decimal formatting, the "," after each tuple) is
 * not modelled.
 */
module Rows {
  import opened Conditions
  import opened Tree
  import opened Indexer

  datatype EqualityRow = EqualityRow(field: string, operator: string, value: string, left: int, right: int)
  datatype LogicRow = LogicRow(operator: string, left: int, right: int)

  /** The two outputs of the encoder: the equality rows and the logic rows. */
  datatype Rows = Rows(equality: seq<EqualityRow>, logic: seq<LogicRow>)

  datatype EncodeError =
    | EmptyEquality  // the equality output was empty
    | EmptyLogic     // the logic output was empty

  function EqualityRowOf(t: TreeNode): EqualityRow {
    EqualityRow(t.node.field, t.node.operator, t.node.value, t.left, t.right)
  }

  function LogicRowOf(t: TreeNode): LogicRow {
    LogicRow(t.node.operator, t.left, t.right)
  }

  /** toMysqlRecursively: the rows of every child in order, then the node's own row, if its type has one. */
  function ToMysqlRecursively(t: TreeNode): (r: Rows)
    ensures |r.equality| == CountKind(t, EqualityKind)
    ensures |r.logic| == CountKind(t, LogicKind)
    decreases t
  {
    var below := ToMysqlAll(t.children);
    if t.node.kind == EqualityKind then Rows(below.equality + [EqualityRowOf(t)], below.logic)
    else if t.node.kind == LogicKind then Rows(below.equality, below.logic + [LogicRowOf(t)])
    else below
  }

  function ToMysqlAll(ts: seq<TreeNode>): (r: Rows)
    ensures |r.equality| == CountKindAll(ts, EqualityKind)
    ensures |r.logic| == CountKindAll(ts, LogicKind)
    decreases ts
  {
    if ts == [] then Rows([], [])
    else
      var head := ToMysqlRecursively(ts[0]);
      var tail := ToMysqlAll(ts[1..]);
      Rows(head.equality + tail.equality, head.logic + tail.logic)
  }

  /** Number of nodes of the tree whose type is `kind`. */
  function CountKind(t: TreeNode, kind: string): nat
    decreases t
  {
    (if t.node.kind == kind then 1 else 0) + CountKindAll(t.children, kind)
  }

  function CountKindAll(ts: seq<TreeNode>, kind: string): nat
    decreases ts
  {
    if ts == [] then 0 else CountKind(ts[0], kind) + CountKindAll(ts[1..], kind)
  }

  /** Every node of the tree, children before their parent. */
  function PostOrder(t: TreeNode): (nodes: seq<TreeNode>)
    ensures |nodes| == Size(t)
    ensures nodes[|nodes| - 1] == t
    decreases t
  {
    PostOrderAll(t.children) + [t]
  }

  function PostOrderAll(ts: seq<TreeNode>): (nodes: seq<TreeNode>)
    ensures |nodes| == SizeAll(ts)
    decreases ts
  {
    if ts == [] then [] else PostOrder(ts[0]) + PostOrderAll(ts[1..])
  }

  /** The equality row of each equality node of a node list, in list order. */
  function EqualityRows(nodes: seq<TreeNode>): seq<EqualityRow> {
    if nodes == [] then []
    else (if nodes[0].node.kind == EqualityKind then [EqualityRowOf(nodes[0])] else []) + EqualityRows(nodes[1..])
  }

  function LogicRows(nodes: seq<TreeNode>): seq<LogicRow> {
    if nodes == [] then []
    else (if nodes[0].node.kind == LogicKind then [LogicRowOf(nodes[0])] else []) + LogicRows(nodes[1..])
  }

  lemma {:induction false} EqualityRowsAppend(a: seq<TreeNode>, b: seq<TreeNode>)
    ensures EqualityRows(a + b) == EqualityRows(a) + EqualityRows(b)
  {
    if a != [] {
      EqualityRowsAppend(a[1..], b);
      assert (a + b)[1..] == a[1..] + b;
    } else {
      assert a + b == b;
    }
  }

  lemma {:induction false} LogicRowsAppend(a: seq<TreeNode>, b: seq<TreeNode>)
    ensures LogicRows(a + b) == LogicRows(a) + LogicRows(b)
  {
    if a != [] {
      LogicRowsAppend(a[1..], b);
      assert (a + b)[1..] == a[1..] + b;
    } else {
      assert a + b == b;
    }
  }

  /**
   * The encoder visits in post-order: its equality rows are those of the
   * equality nodes, and its logic rows those of the logic nodes, in the order
   * a post-order walk meets them. Nodes of any other type give no row.
   */
  lemma {:induction false} ToMysqlIsPostOrder(t: TreeNode)
    ensures ToMysqlRecursively(t) == Rows(EqualityRows(PostOrder(t)), LogicRows(PostOrder(t)))
    decreases t
  {
    ToMysqlAllIsPostOrder(t.children);
    var below := PostOrderAll(t.children);
    EqualityRowsAppend(below, [t]);
    LogicRowsAppend(below, [t]);
    assert [t][1..] == [];
  }

  lemma {:induction false} ToMysqlAllIsPostOrder(ts: seq<TreeNode>)
    ensures ToMysqlAll(ts) == Rows(EqualityRows(PostOrderAll(ts)), LogicRows(PostOrderAll(ts)))
    decreases ts
  {
    if ts != [] {
      ToMysqlIsPostOrder(ts[0]);
      ToMysqlAllIsPostOrder(ts[1..]);
      EqualityRowsAppend(PostOrder(ts[0]), PostOrderAll(ts[1..]));
      LogicRowsAppend(PostOrder(ts[0]), PostOrderAll(ts[1..]));
    }
  }

  /**
   * toMysql: numbers the tree, encodes it, and fails if either output is
   * empty (the equality output is checked first). On success both row lists
   * are returned whole, each row with the bounds the numbering gave its node.
   */
  method ToMysql(t: TreeNode) returns (numbered: TreeNode, r: Result<Rows, EncodeError>)
    ensures numbered == Attach(t, 0).0 && NestedSet(numbered)
    ensures r == Err(EmptyEquality) <==> CountKind(t, EqualityKind) == 0
    ensures r == Err(EmptyLogic) <==> CountKind(t, EqualityKind) > 0 && CountKind(t, LogicKind) == 0
    ensures r.Ok? ==> r.value == Rows(EqualityRows(PostOrder(numbered)), LogicRows(PostOrder(numbered)))
  {
    numbered := AttachLeftsAndRights(t);
    var rows := ToMysqlRecursively(numbered);
    CountKindUnnumbered(numbered, EqualityKind);
    CountKindUnnumbered(t, EqualityKind);
    CountKindUnnumbered(numbered, LogicKind);
    CountKindUnnumbered(t, LogicKind);
    if |rows.equality| == 0 {
      return numbered, Err(EmptyEquality);
    }
    if |rows.logic| == 0 {
      return numbered, Err(EmptyLogic);
    }
    ToMysqlIsPostOrder(numbered);
    r := Ok(rows);
  }

  /** Counting nodes by type looks only at conditions, not at bounds. */
  lemma {:induction false} CountKindUnnumbered(t: TreeNode, kind: string)
    ensures CountKind(Unnumbered(t), kind) == CountKind(t, kind)
    decreases t
  {
    CountKindAllUnnumbered(t.children, kind);
  }

  lemma {:induction false} CountKindAllUnnumbered(ts: seq<TreeNode>, kind: string)
    ensures CountKindAll(UnnumberedAll(ts), kind) == CountKindAll(ts, kind)
    decreases ts
  {
    if ts != [] {
      CountKindUnnumbered(ts[0], kind);
      CountKindAllUnnumbered(ts[1..], kind);
      assert UnnumberedAll(ts)[1..] == UnnumberedAll(ts[1..]);
    }
  }
}
