/**
 * The token of the flat expression language: one condition as the page sends it.
 * A condition keeps the five loose string fields of the Go struct; its `kind`
 * (Go: `Type`) is "scope", "logic" or "equality" in well-formed input, but any
 * string is representable, and the parser and serializer branch on it.
 */
module Conditions {

  datatype Condition = Condition(text: string, kind: string, field: string, operator: string, value: string)

  datatype Result<T, E> = Ok(value: T) | Err(error: E)

  const ScopeKind: string := "scope"
  const LogicKind: string := "logic"
  const EqualityKind: string := "equality"

  /** The zero value of the Go struct; a tree node holds it until a logic token is seen. */
  const Empty: Condition := Condition("", "", "", "", "")

  /** The scope markers the serializer emits around every branch. */
  const OpenScope: Condition := Condition("(", ScopeKind, "", "(", "")
  const CloseScope: Condition := Condition(")", ScopeKind, "", ")", "")

  /** Field-by-field comparison; two conditions match exactly when they are the same value. */
  function Matches(a: Condition, b: Condition): (r: bool)
    ensures r <==> a == b
  {
    if a.text != b.text then false
    else if a.kind != b.kind then false
    else if a.field != b.field then false
    else if a.operator != b.operator then false
    else a.value == b.value
  }

  /** The texts of the conditions, joined by single spaces. */
  function SimplifyConditions(cs: seq<Condition>): (t: string)
    ensures |cs| == 1 ==> t == cs[0].text
  {
    if |cs| == 0 then ""
    else if |cs| == 1 then cs[0].text
    else SimplifyConditions(cs[..|cs| - 1]) + " " + cs[|cs| - 1].text
  }

  function Texts(cs: seq<Condition>): (ts: seq<string>)
    ensures |ts| == |cs| && forall i :: 0 <= i < |cs| ==> ts[i] == cs[i].text
  {
    if cs == [] then [] else [cs[0].text] + Texts(cs[1..])
  }

  /** Splits a string at every space; the partner of SimplifyConditions. */
  function Split(s: string): (parts: seq<string>)
    ensures |parts| >= 1
  {
    if s == "" then [""]
    else
      var rest := Split(s[1..]);
      if s[0] == ' ' then [""] + rest else [[s[0]] + rest[0]] + rest[1..]
  }

  predicate NoSpace(s: string) {
    forall i :: 0 <= i < |s| ==> s[i] != ' '
  }

  lemma {:induction false} SplitWord(a: string)
    requires NoSpace(a)
    ensures Split(a) == [a]
  {
    if a != "" {
      SplitWord(a[1..]);
      assert [a[0]] + a[1..] == a;
    }
  }

  lemma {:induction false} SplitAtSpace(a: string, b: string)
    requires NoSpace(a)
    ensures Split(a + " " + b) == [a] + Split(b)
  {
    if a == "" {
      assert a + " " + b == [' '] + b;
      assert (a + " " + b)[1..] == b;
    } else {
      SplitAtSpace(a[1..], b);
      assert (a + " " + b)[0] == a[0] && (a + " " + b)[1..] == a[1..] + " " + b;
      assert [a[0]] + a[1..] == a;
    }
  }

  /** Joining drops the first text at the front, which is how splitting reads it back. */
  lemma {:induction false} SimplifyFront(cs: seq<Condition>)
    requires |cs| >= 2
    ensures SimplifyConditions(cs) == cs[0].text + " " + SimplifyConditions(cs[1..])
    decreases |cs|
  {
    if |cs| > 2 {
      SimplifyFront(cs[..|cs| - 1]);
      assert cs[..|cs| - 1][1..] == cs[1..][..|cs[1..]| - 1];
    } else {
      assert cs[..1] == [cs[0]];
      assert cs[1..] == [cs[1]];
    }
  }

  /** Splitting the simplified text recovers every condition's text, when no text holds a space. */
  lemma {:induction false} SplitSimplified(cs: seq<Condition>)
    requires |cs| >= 1
    requires forall i :: 0 <= i < |cs| ==> NoSpace(cs[i].text)
    ensures Split(SimplifyConditions(cs)) == Texts(cs)
    decreases |cs|
  {
    if |cs| == 1 {
      SplitWord(cs[0].text);
    } else {
      SimplifyFront(cs);
      SplitAtSpace(cs[0].text, SimplifyConditions(cs[1..]));
      SplitSimplified(cs[1..]);
    }
  }

  /** The simplified text is the texts plus one separator between each neighbouring pair. */
  lemma {:induction false} SimplifiedLength(cs: seq<Condition>)
    requires |cs| >= 1
    ensures |SimplifyConditions(cs)| == TextLength(cs) + |cs| - 1
  {
    if |cs| > 1 {
      SimplifiedLength(cs[..|cs| - 1]);
      TextLengthSnoc(cs[..|cs| - 1], cs[|cs| - 1]);
      assert cs[..|cs| - 1] + [cs[|cs| - 1]] == cs;
    }
  }

  function TextLength(cs: seq<Condition>): nat {
    if cs == [] then 0 else |cs[0].text| + TextLength(cs[1..])
  }

  lemma {:induction false} TextLengthSnoc(cs: seq<Condition>, c: Condition)
    ensures TextLength(cs + [c]) == TextLength(cs) + |c.text|
  {
    if cs != [] {
      TextLengthSnoc(cs[1..], c);
      assert (cs + [c])[1..] == cs[1..] + [c];
    }
  }
}
