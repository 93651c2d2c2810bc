/** What `getMatchingRows` computes, key by key, and how the two sibling
    modes differ. */
module MatchingFacts {
  import opened Seqs
  import opened Values
  import opened Query
  import opened Combinators
  import opened Evaluator

  /** exercise-14: sibling keys are combined by OR. The result holds each
      row once, exactly when some key's candidate list holds it, in order
      of first occurrence across the keys' lists. */
  lemma UnitedSiblingsAreOr(ft: seq<string>, q: QueryNode, rows: seq<Row>)
    ensures NoDup(Matching(United, ft, q, rows))
    ensures forall x :: x in Matching(United, ft, q, rows) <==>
      exists i :: 0 <= i < |q.keys| && x in KeyResult(United, ft, q.keys[i], rows)
    ensures InFirstOccurrenceOrder(Flatten(KeyResults(United, ft, q, rows)), Matching(United, ft, q, rows))
  {
    var rs := KeyResults(United, ft, q, rows);
    forall x | x in Matching(United, ft, q, rows)
      ensures exists i :: 0 <= i < |q.keys| && x in KeyResult(United, ft, q.keys[i], rows)
    {
      var i :| 0 <= i < |rs| && x in rs[i];
    }
  }

  /** exercise-13: sibling keys are concatenated, duplicates kept; the
      result is as long as all candidate lists together. */
  lemma ConcatenatedSiblings(ft: seq<string>, q: QueryNode, rows: seq<Row>)
    ensures Matching(Concatenated, ft, q, rows) == Flatten(KeyResults(Concatenated, ft, q, rows))
    ensures |Matching(Concatenated, ft, q, rows)| == SumLengths(KeyResults(Concatenated, ft, q, rows))
  {
    FlattenLength(KeyResults(Concatenated, ft, q, rows));
  }

  /** A node without keys matches nothing, in either mode. */
  lemma EmptyNodeMatchesNothing(mode: Siblings, ft: seq<string>, rows: seq<Row>)
    ensures Matching(mode, ft, QueryNode([]), rows) == []
  {
    assert KeyResults(mode, ft, QueryNode([]), rows) == [];
  }

  /** `$or`: each row of some child's result, once, in order of first
      occurrence. */
  lemma OrIsUnion(mode: Siblings, ft: seq<string>, cs: seq<QueryNode>, rows: seq<Row>)
    ensures NoDup(KeyResult(mode, ft, Or(cs), rows))
    ensures forall x :: x in KeyResult(mode, ft, Or(cs), rows) <==>
      exists i :: 0 <= i < |cs| && x in Matching(mode, ft, cs[i], rows)
  {
    var rs := ChildResults(mode, ft, Or(cs), rows);
    forall x | x in KeyResult(mode, ft, Or(cs), rows)
      ensures exists i :: 0 <= i < |cs| && x in Matching(mode, ft, cs[i], rows)
    {
      var i :| 0 <= i < |rs| && x in rs[i];
    }
  }

  /** `$and`: the rows occurring at least twice among the children's
      results taken together, once each. */
  lemma AndCountsDuplicates(mode: Siblings, ft: seq<string>, cs: seq<QueryNode>, rows: seq<Row>)
    ensures NoDup(KeyResult(mode, ft, And(cs), rows))
    ensures forall x :: x in KeyResult(mode, ft, And(cs), rows) <==>
      multiset(Flatten(ChildResults(mode, ft, And(cs), rows)))[x] > 1
  {
  }

  lemma ChildResultsPair(mode: Siblings, ft: seq<string>, k: Clause, rows: seq<Row>)
    requires (k.And? || k.Or?) && |k.children| == 2
    ensures ChildResults(mode, ft, k, rows)
      == [Matching(mode, ft, k.children[0], rows), Matching(mode, ft, k.children[1], rows)]
  {
  }

  /** exercise-14: every child result is duplicate-free, so `$and` with two
      children is the true intersection, in the first child's order. */
  lemma AndOfTwoIsIntersection(ft: seq<string>, a: QueryNode, b: QueryNode, rows: seq<Row>)
    ensures KeyResult(United, ft, And([a, b]), rows)
      == Filter(Matching(United, ft, a, rows), InList(Matching(United, ft, b, rows)))
  {
    ChildResultsPair(United, ft, And([a, b]), rows);
    IntersectOfTwo(Matching(United, ft, a, rows), Matching(United, ft, b, rows));
  }

  /** Legacy counting with three children: `$and: [a, a, b]` keeps every
      row `a` matches, whatever `b` matches. */
  lemma AndOfThreeKeepsRepeatedChild(mode: Siblings, ft: seq<string>, a: QueryNode, b: QueryNode, rows: seq<Row>)
    ensures forall x :: x in Matching(mode, ft, a, rows) ==> x in KeyResult(mode, ft, And([a, a, b]), rows)
  {
    var ma := Matching(mode, ft, a, rows);
    var mb := Matching(mode, ft, b, rows);
    var rs := ChildResults(mode, ft, And([a, a, b]), rows);
    assert rs == [ma, ma, mb];
    assert KeyResult(mode, ft, And([a, a, b]), rows) == Intersect(rs);
    FlattenTriple(ma, ma, mb);
    RepeatedTwice(ma, mb);
  }

  /** Every value of `a` occurs at least twice in `a + a + b`. */
  lemma RepeatedTwice<T>(a: seq<T>, b: seq<T>)
    ensures forall x :: x in a ==> multiset(a + a + b)[x] > 1
  {
    forall x | x in a
      ensures multiset(a + a + b)[x] > 1
    {
      assert multiset(a + a + b)[x] == multiset(a)[x] + multiset(a)[x] + multiset(b)[x];
    }
  }

  lemma FlattenTriple<T(!new)>(a: seq<T>, b: seq<T>, c: seq<T>)
    ensures Flatten([a, b, c]) == a + b + c
  {
    assert [a, b, c][1..] == [b, c];
    FlattenPair(b, c);
  }

  /** exercise-13 with one `$and` child: a row matching two sibling keys of
      that child occurs twice in its result and is kept, so `$and` does not
      restrict it at all. */
  lemma ConcatenatedAndKeepsDoubleMatch(ft: seq<string>, k1: Clause, k2: Clause, rows: seq<Row>, x: Row)
    requires x in KeyResult(Concatenated, ft, k1, rows) && x in KeyResult(Concatenated, ft, k2, rows)
    ensures x in KeyResult(Concatenated, ft, And([QueryNode([k1, k2])]), rows)
  {
    var child := QueryNode([k1, k2]);
    var r1 := KeyResult(Concatenated, ft, k1, rows);
    var r2 := KeyResult(Concatenated, ft, k2, rows);
    var m := Matching(Concatenated, ft, child, rows);
    assert KeyResults(Concatenated, ft, child, rows) == [r1, r2];
    FlattenPair(r1, r2);
    assert m == r1 + r2;
    var rs := ChildResults(Concatenated, ft, And([child]), rows);
    assert rs == [m];
    assert Flatten(rs) == m + Flatten([]);
    assert multiset(m)[x] == multiset(r1)[x] + multiset(r2)[x];
  }

  /** `$text`: exactly the rows some full-text field matches, in input
      order. */
  lemma TextKeepsMatchingRows(mode: Siblings, ft: seq<string>, search: string, rows: seq<Row>)
    ensures KeyResult(mode, ft, Text(search), rows) == Filter(rows, TextFilter(ft, search))
    ensures forall x :: x in KeyResult(mode, ft, Text(search), rows) <==>
      x in rows && TextMatches(ft, search, x)
  {
    TextReduceIsFilter(ft, search, rows, |rows|);
    assert rows[..|rows|] == rows;
  }

  /** A condition written with `$eq` alone keeps the rows whose field is
      identical to the operand, in input order. */
  lemma EqCondition(mode: Siblings, ft: seq<string>, name: string, v: Value, rows: seq<Row>)
    ensures forall x :: x in KeyResult(mode, ft, Field(name, [OpEntry("$eq", Scalar(v))]), rows) <==>
      x in rows && Get(x, name) == v
  {
    var cond := [OpEntry("$eq", Scalar(v))];
    assert cond[0].key == "$eq";
    assert HasKey(cond, "$eq");
  }

  /** `$gt` alone: rows whose field is strictly greater than the operand. */
  lemma GtCondition(mode: Siblings, ft: seq<string>, name: string, v: Value, rows: seq<Row>)
    ensures forall x :: x in KeyResult(mode, ft, Field(name, [OpEntry("$gt", Scalar(v))]), rows) <==>
      x in rows && Greater(Get(x, name), v)
  {
    var cond := [OpEntry("$gt", Scalar(v))];
    assert cond[0].key == "$gt";
    assert HasKey(cond, "$gt");
    assert !HasKey(cond, "$eq");
  }

  /** `$lt` alone: rows whose field is strictly less than the operand. */
  lemma LtCondition(mode: Siblings, ft: seq<string>, name: string, v: Value, rows: seq<Row>)
    ensures forall x :: x in KeyResult(mode, ft, Field(name, [OpEntry("$lt", Scalar(v))]), rows) <==>
      x in rows && Greater(v, Get(x, name))
  {
    var cond := [OpEntry("$lt", Scalar(v))];
    assert cond[0].key == "$lt";
    assert HasKey(cond, "$lt");
    assert !HasKey(cond, "$eq") && !HasKey(cond, "$gt");
  }

  /** `$in` alone: rows whose field's string form is that of some
      operand. */
  lemma InCondition(mode: Siblings, ft: seq<string>, name: string, vs: seq<Value>, rows: seq<Row>)
    ensures forall x :: x in KeyResult(mode, ft, Field(name, [OpEntry("$in", List(vs))]), rows) <==>
      x in rows && exists i :: 0 <= i < |vs| && Stringify(Get(x, name)) == Stringify(vs[i])
  {
    var cond := [OpEntry("$in", List(vs))];
    assert cond[0].key == "$in";
    assert HasKey(cond, "$in");
    assert !HasKey(cond, "$eq") && !HasKey(cond, "$gt") && !HasKey(cond, "$lt");
  }

  /** `$in` compares string forms, so the number 5 matches the operand
      list `[3, "5", 7]`. */
  lemma InMatchesAcrossKinds(mode: Siblings, ft: seq<string>, name: string, x: Row, rows: seq<Row>)
    requires x in rows && Get(x, name) == Int(5)
    ensures x in KeyResult(mode, ft, Field(name, [OpEntry("$in", List([Int(3), Str("5"), Int(7)]))]), rows)
  {
    var vs := [Int(3), Str("5"), Int(7)];
    InCondition(mode, ft, name, vs, rows);
    assert Stringify(Int(5)) == "5";
    assert Stringify(Get(x, name)) == Stringify(vs[1]);
  }

  /** Operator and operand are chosen by different rules: with
      `{$gt: a, $eq: b}` the `$eq` operator wins but compares against `a`,
      the operand of the first key. */
  lemma OperatorAndOperandDisagree(mode: Siblings, ft: seq<string>, name: string, a: Value, b: Value, rows: seq<Row>)
    ensures forall x ::
      x in KeyResult(mode, ft, Field(name, [OpEntry("$gt", Scalar(a)), OpEntry("$eq", Scalar(b))]), rows) <==>
      x in rows && Get(x, name) == a
  {
    var cond := [OpEntry("$gt", Scalar(a)), OpEntry("$eq", Scalar(b))];
    assert cond[1].key == "$eq";
  }

  /** A condition with none of `$eq`, `$gt`, `$lt`, `$in` matches nothing. */
  lemma UnknownOperatorMatchesNothing(mode: Siblings, ft: seq<string>, name: string, cond: seq<OpEntry>, rows: seq<Row>)
    requires forall i :: 0 <= i < |cond| ==> cond[i].key !in ["$eq", "$gt", "$lt", "$in"]
    ensures KeyResult(mode, ft, Field(name, cond), rows) == []
  {
  }

  /** Field conditions filter: the result keeps the input order and, on
      duplicate-free rows, has no duplicates. */
  lemma FieldIsFilter(mode: Siblings, ft: seq<string>, name: string, cond: seq<OpEntry>, rows: seq<Row>)
    requires Selected(cond) != NoOp
    requires NoDup(rows)
    ensures KeyResult(mode, ft, Field(name, cond), rows) == Filter(rows, FieldFilter(name, cond))
    ensures NoDup(KeyResult(mode, ft, Field(name, cond), rows))
  {
    FilterNoDup(rows, FieldFilter(name, cond));
  }
}
