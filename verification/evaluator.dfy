/** `getMatchingRows`: the recursive evaluator both databases share. The
    only difference between them is how the results of a node's sibling
    keys are combined: exercise-13 concatenates them, exercise-14 unites
    them. */
module Evaluator {
  import opened Seqs
  import opened Text
  import opened Values
  import opened Query
  import opened Combinators

  /** How the per-key results of one query node are combined. */
  datatype Siblings = Concatenated | United

  function Combine(mode: Siblings, results: seq<seq<Row>>): seq<Row> {
    match mode
    case Concatenated => Flatten(results)
    case United => Unite(results)
  }

  /** The rows of `rows` matching query node `q`; `ft` are the fields
      eligible for `$text`. */
  function Matching(mode: Siblings, ft: seq<string>, q: QueryNode, rows: seq<Row>): (r: seq<Row>)
    ensures forall x :: x in r ==> x in rows
    ensures mode == United ==> NoDup(r)
    ensures |q.keys| == 0 ==> r == []
    decreases q
  {
    var results := KeyResults(mode, ft, q, rows);
    assert forall x :: x in Flatten(results) ==> x in rows;
    Combine(mode, results)
  }

  /** The candidate list of every key of `q`, in key order. */
  function KeyResults(mode: Siblings, ft: seq<string>, q: QueryNode, rows: seq<Row>): (rs: seq<seq<Row>>)
    ensures |rs| == |q.keys|
    ensures forall i :: 0 <= i < |rs| ==> rs[i] == KeyResult(mode, ft, q.keys[i], rows)
    ensures forall i, x :: 0 <= i < |rs| && x in rs[i] ==> x in rows
    decreases q, 0
  {
    seq(|q.keys|, i requires 0 <= i < |q.keys| => KeyResult(mode, ft, q.keys[i], rows))
  }

  /** The results of evaluating every child against the full `rows`. */
  function ChildResults(mode: Siblings, ft: seq<string>, k: Clause, rows: seq<Row>): (rs: seq<seq<Row>>)
    requires k.And? || k.Or?
    ensures |rs| == |k.children|
    ensures forall i :: 0 <= i < |rs| ==> rs[i] == Matching(mode, ft, k.children[i], rows)
    ensures forall i, x :: 0 <= i < |rs| && x in rs[i] ==> x in rows
    decreases k, 0
  {
    seq(|k.children|, i requires 0 <= i < |k.children| => Matching(mode, ft, k.children[i], rows))
  }

  /** The candidate list of one key. */
  function KeyResult(mode: Siblings, ft: seq<string>, k: Clause, rows: seq<Row>): (r: seq<Row>)
    ensures forall x :: x in r ==> x in rows
    decreases k, 1
  {
    match k
    case And(_) =>
      var rs := ChildResults(mode, ft, k, rows);
      assert forall x :: x in Flatten(rs) ==> x in rows;
      Intersect(rs)
    case Or(_) => Unite(ChildResults(mode, ft, k, rows))
    case Text(search) =>
      TextReduceIsFilter(ft, search, rows, |rows|);
      assert rows[..|rows|] == rows;
      TextReduce(ft, search, rows, |rows|)
    case Field(name, cond) => FieldResult(name, cond, rows)
  }

  /** The tokens of a `$text` search: trimmed, lower-cased, split on ' '. */
  function SearchTokens(search: string): seq<string> {
    Split(Lower(Trim(search)), ' ')
  }

  /** The tokens of a field's value: `String(row[key])`, lower-cased, split
      on ' '. */
  function ValueTokens(row: Row, key: string): seq<string> {
    Split(Lower(Stringify(Get(row, key))), ' ')
  }

  /** Some full-text field's tokens include every search token. */
  predicate TextMatches(ft: seq<string>, search: string, row: Row) {
    var tokens := SearchTokens(search);
    exists k :: 0 <= k < |ft| && forall t :: 0 <= t < |tokens| ==> tokens[t] in ValueTokens(row, ft[k])
  }

  /** The `$text` branch's reduce after visiting `rows[..n]`: append each
      matching row. */
  function TextReduce(ft: seq<string>, search: string, rows: seq<Row>, n: nat): seq<Row>
    requires n <= |rows|
  {
    if n == 0 then []
    else
      var o := TextReduce(ft, search, rows, n - 1);
      if TextMatches(ft, search, rows[n - 1]) then o + [rows[n - 1]] else o
  }

  function TextFilter(ft: seq<string>, search: string): Row -> bool {
    row => TextMatches(ft, search, row)
  }

  /** The reduce keeps exactly the matching rows, in input order. */
  lemma {:induction false} TextReduceIsFilter(ft: seq<string>, search: string, rows: seq<Row>, n: nat)
    requires n <= |rows|
    ensures TextReduce(ft, search, rows, n) == Filter(rows[..n], TextFilter(ft, search))
  {
    if n > 0 {
      TextReduceIsFilter(ft, search, rows, n - 1);
      assert rows[..n] == rows[..n - 1] + [rows[n - 1]];
      FilterSnoc(rows[..n - 1], rows[n - 1], TextFilter(ft, search));
    }
  }

  /** `a[qKey] === operationValue`: an array operand is never identical to
      a field value. */
  predicate StrictEquals(field: Value, operand: Operand) {
    operand.Scalar? && field == operand.v
  }

  predicate GreaterThan(field: Value, operand: Operand) {
    operand.Scalar? && Greater(field, operand.v)
  }

  predicate LessThan(field: Value, operand: Operand) {
    operand.Scalar? && Less(field, operand.v)
  }

  /** `operationValue.some(value => String(a[qKey]) === String(value))`. */
  predicate InOperand(field: Value, vs: seq<Value>) {
    exists i :: 0 <= i < |vs| && Stringify(field) == Stringify(vs[i])
  }

  /** Whether `row` passes field condition `cond` on field `name`; `$in`
      with a non-array operand passes nothing (the source throws there). */
  predicate FieldHolds(name: string, cond: seq<OpEntry>, row: Row) {
    var value := OperationValue(cond);
    match Selected(cond)
    case Eq => StrictEquals(Get(row, name), value)
    case Gt => GreaterThan(Get(row, name), value)
    case Lt => LessThan(Get(row, name), value)
    case In => value.List? && InOperand(Get(row, name), value.vs)
    case NoOp => false
  }

  function FieldFilter(name: string, cond: seq<OpEntry>): Row -> bool {
    row => FieldHolds(name, cond, row)
  }

  /** The field-condition branch: filter `rows` by the selected operator, or
      `[]` when no operator is present. */
  function FieldResult(name: string, cond: seq<OpEntry>, rows: seq<Row>): seq<Row> {
    if Selected(cond) == NoOp then [] else Filter(rows, FieldFilter(name, cond))
  }
}
