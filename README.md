# Logic tree: parser, nested-set indexer, serializer and row encoder

This project models the core of the logic-tree editor in `app/home/home.go`. A
rule is a boolean expression over conditions such as `age eq 1`. The page sends
it as a flat, parenthesised list of tokens. Each token is a `Condition` with five
loose string fields (`Text`, `Type`, `Field`, `Operator`, `Value`), and `Type` is
"scope", "logic" or "equality". The core does five things:

- It parses the token list into an n-ary tree (`unserializeFormattedTree`).
- It numbers the tree with nested-set `Left`/`Right` bounds in one depth-first
  walk that shares a counter (`attachLeftsAndRights`).
- It writes the tree back out as tokens (`serializeTree`).
- It encodes the numbered tree as equality rows and logic rows for the database
  (`toMysql`).
- It has three small helpers: `matches`, `simplifyConditions` and
  `getChildrenConditions`.

Modules, in dependency order:

- `Conditions` (conditions.dfy): the token, its kinds, `Matches`, and
  `SimplifyConditions` with `Split`. `Split` undoes the join only when no
  condition's text holds a space. The equality texts the program builds do
  hold spaces (`"%s %s %s"` at app/home/home.go:98), so for those the lemmas
  about `SimplifyConditions` state its length, not its inverse.
- `Tree` (tree.dfy): the tree node, its size, clearing the bounds,
  well-shapedness, and `GetChildrenConditions`.
- `Serializer` (serializer.dfy): `SerializeTree` and its two shape errors.
- `Parser` (parser.dfy): the parser as a specification function over a cursor
  (`ParseScope`/`ParseToken`) and as a loop method (`UnserializeFrom`) proved
  equal to it.
- `Shift` (shift.dfy): the parser as the source runs it, on the backing array
  that every pop shifts in place, proved equal to the cursor model.
- `RoundTrip` (roundtrip.dfy): parsing the output of the serializer.
- `Indexer` (indexer.dfy): the counter as a class, the numbering walk as a
  method proved equal to the function `Attach`, and the nested-set laws.
- `Rows` (rows.dfy): the row encoder and its post-order characterisation.
- `Fixture` (fixture.dfy): the numbering of the test tree in
  `app/home/mysql_test.go`, derived for any choice of its conditions.

How the parser is modelled. The Go parser pops the front token by shifting its
slice's backing array in place. A nested call on "(" gets the caller's slice, so
the caller resumes after the callee's ")". The caller's own slice length only
drops by the tokens the caller popped itself. The model keeps the array as an
immutable `seq<Condition>` and keeps a cursor for the number of tokens popped so
far. Each frame keeps its own slice length, `remaining`. Once the cursor passes
the end, the cells still inside a frame's slice hold copies of the last token,
and `Front` returns that token.

The doc comment at app/home/home.go:122-128 treats the tokens as a queue from
which each condition is popped once. The code does not always behave that way,
and the model follows the code. A nested scope pops tokens that its caller's
slice still counts, so once the cursor reaches the end, the caller's slice can
still hold cells, and each of them is a stale copy of the last token
(`Shift.PopBacking`).

- On input wrapped in one outer scope, the outer frame re-reads a stale ")" and
  closes with the same tree. `RoundTrip.ParseSerialized` proves this.
- Input without scope markers, such as `a AND b`, is not affected: every
  token is read once (`Parser.FlatRun`).
- Unwrapped input that ends in a nested scope, such as
  `( a AND b ) AND ( c AND d )`, is not affected either: the outer frame
  re-reads the final ")" and closes.
- Unwrapped input that ends in an operand after a nested scope is affected:
  each stale copy of that operand becomes one more child (`Parser.StaleTail`).
  `Parser.TrailingOperandReread` shows a seven-token input of this shape whose
  last operand appears five times in the result. A stale logic token would
  only set the node again.

A `root.Children[0]` on an empty child list panics in Go. The model's `Parse`
result has a `Panic` outcome for this, and the parsing methods require an input
that does not panic.

## Model

| member | source | states |
|---|---|---|
| Conditions.Matches | app/home/home.go:328-350 | two conditions match exactly when all five fields are equal, i.e. when they are the same value |
| Conditions.SimplifyConditions | app/home/home.go:291-303 | a single condition simplifies to its own text |
| Conditions.SplitSimplified | app/home/home.go:291-303 | splitting the simplified text at spaces gives back every condition's text in order, when no text holds a space |
| Conditions.SimplifiedLength | app/home/home.go:291-303 | the simplified text is as long as all texts together plus one separator between each neighbouring pair |
| Tree.GetChildrenConditions | app/home/home.go:305-313 | one condition per child, in order, and the i-th is the i-th child's condition |
| Serializer.SerializeTree | app/home/home.go:189-225 | serialization succeeds exactly when every childless node is an equality and every node with children is a logic node; a tree of n nodes gives 2n - 1 tokens; a branch's tokens start with "(" and end with ")" |
| Serializer.SerializeChildren | app/home/home.go:206-224 | the children's tokens succeed exactly when every child is well typed; their length is two per node, less one when the run starts a branch |
| Parser.ScopeRun | app/home/home.go:140-162 | a run of tokens up to the scope's ")" with no scope marker before it: the scope closes with one leaf per equality token appended in input order, and its node is the last logic token of the run (a later one replaces an earlier one), or the node it already had when the run holds none |
| Parser.FlatRun | app/home/home.go:135-170 | a slice with no scope marker is read once, token by token, to its end: the leaves are its equality tokens in input order and the node is its last logic token, and the frame ends as the loop exit at home.go:166-170 decides |
| Parser.StaleTail | app/home/home.go:135-170 | once the cursor has passed the end with r cells left in the frame's slice and the last token is an equality, the frame appends r more leaves of that token, one per stale copy, and then ends as the loop exit decides |
| Parser.TrailingOperandReread | app/home/home.go:135-164 | an instance of the stale re-read: `( a op b ) op c` parses to an op node over the inner branch and five leaves of `c`, because the outer frame's slice still holds four stale copies of `c` once the cursor reaches the end |
| Shift.PopBacking | app/home/home.go:137-138 | while a frame's slice reaches the last unread token, popping reads the token at the cursor, and the shifted array holds the tokens after it followed by copies of the last token |
| Shift.ShiftParseScope | app/home/home.go:129-171 | the parser run on the in-place shifted array returns the same tree as the cursor model, leaves the array that the returned cursor stands for, and panics exactly when the cursor model does |
| Shift.ShiftUnserialize | app/home/home.go:129-171 | on the whole input, the in-place parser and `Unserialize` agree on the tree and on the panic |
| Parser.UnserializeFrom | app/home/home.go:129-171 | the loop returns the tree and the cursor that the specification function gives for the same slice |
| Parser.UnserializeFormattedTree | app/home/home.go:129-171 | parsing the whole token list returns the tree the specification function gives |
| RoundTrip.ParseSerialized | app/home/home.go:129-225 | the parser accepts every token list the serializer produces; it rebuilds the tree with single-child branches unwrapped and the bounds cleared |
| RoundTrip.NormalizeWellShaped | app/home/home.go:153-154 | a well-shaped tree has no single-child branch to unwrap, so the parser only loses its bounds |
| RoundTrip.RoundTrip | app/home/home.go:129-225 | for a well-shaped tree, serialization succeeds, and parsing the tokens rebuilds the same conditions and child structure |
| RoundTrip.SerializeParsed | app/home/home.go:129-225 | the other direction for a well-shaped tree: serializing the parsed tree writes back exactly the tokens it was parsed from |
| Serializer.SerializeUnnumbered | app/home/home.go:189-225 | the nested-set bounds play no part in serialization |
| RoundTrip.ParsedChildConditions | app/home/home.go:305-313 | the parsed tree's root has the same child conditions as the tree that was serialized |
| Indexer.AttachLeftsAndRightsRecursively | app/home/home.go:232-242 | the walk produces the numbered tree and the final counter value given by the specification function, starting from the counter's old value |
| Indexer.AttachLeftsAndRights | app/home/home.go:227-230 | from a fresh counter at 0: the root spans [1, 2n] for n nodes; the shape and conditions are unchanged; every node obeys the nested-set laws |
| Indexer.AttachSpan | app/home/home.go:232-242 | numbering a tree of n nodes advances the counter by 2n, and the root spans [index+1, index+2n] |
| Indexer.AttachKeepsShape | app/home/home.go:232-242 | numbering changes only bounds, never a condition or a child list |
| Indexer.AttachNestedSet | app/home/home.go:232-242 | every node gets left < right; a leaf has width one; the first child starts just after its parent; each sibling starts just after the previous one; the last child ends just before its parent |
| Indexer.ChildInsideParent | app/home/home.go:232-242 | in a numbered tree, every child's interval lies strictly inside its parent's |
| Indexer.SiblingsOrdered | app/home/home.go:232-242 | earlier siblings lie wholly to the left of later ones |
| Indexer.AttachChildConditions | app/home/home.go:305-313 | numbering does not change the children's conditions |
| Rows.ToMysqlRecursively | app/home/home.go:263-279 | one equality row per equality node and one logic row per logic node |
| Rows.ToMysqlIsPostOrder | app/home/home.go:263-279 | the rows are those of the equality nodes and of the logic nodes, in the order a post-order walk meets them, each carrying its node's fields and bounds; nodes of any other type give no row |
| Rows.ToMysql | app/home/home.go:244-260 | the tree is numbered first; the result is the empty-equality error exactly when the tree has no equality node, and the empty-logic error exactly when it has equality nodes but no logic node; otherwise both row lists are returned in post-order |
| Fixture.SampleNumbering | app/home/mysql_test.go:13-40 | the test tree is numbered root (1,24), ORs (2,17) and (18,23), inner AND (3,14), its leaves (4,5) to (12,13), the other leaves (15,16), (19,20) and (21,22) |

## Left out

- HTTP handlers `GetHomePage`, `UpdateConditions` and `Truncate`, `getConditions`, `updateDatabase` and `parseJSON`: request, template, JSON and database I/O.
- `print` and `unserializeRawTree`: debug output and a stub that returns nil.
- The `Parent` back-pointer: nothing reads it.
- Rows.ToMysql: returns the rows as records, not SQL text. The `Sprintf` rendering with its quoting and decimal formatting is not modelled, and neither is the removal of the trailing "," from each string. On the error paths the method returns no rows, where Go returns two empty strings.
- Indexer.AttachLeftsAndRightsRecursively: the tree is a value, so the method returns the numbered tree rather than writing `Left`/`Right` into shared nodes. The counter is a class whose field the method updates, as with the Go `*int`.
- Parser.UnserializeFrom: requires an input that does not panic. The specification function `ParseScope` models the panic as a `Panic` outcome. The `error` result, which is always nil, is dropped.
- RoundTrip.SerializeParsed: the token law holds for the serializer's output only, not for every token list the parser accepts. For example `( a AND b OR c )` parses to one OR node, because the last logic token of a scope wins (app/home/home.go:159-160), and it writes back as `( a OR b OR c )`.
- RoundTrip.ParseSerialized: for trees that are well typed but not well shaped, the parser unwraps a branch with one child into that child. The round trip is stated up to that unwrapping, through `Normalize`.
- Serializer.SerializeTree: states when serialization fails, but not which of the two errors is returned. The first badly typed node in pre-order decides that.
