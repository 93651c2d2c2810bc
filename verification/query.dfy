/** The query grammar: a query node is an ordered list of keys, each a
    field condition, `$and`, `$or` or `$text`. A field condition is kept as
    the ordered list of the operator keys it was written with, because the
    evaluator picks the operator and the operand by different rules. */
module Query {
  import opened Values

  /** The value under an operator key: one value, or an array (`$in`). */
  datatype Operand = Scalar(v: Value) | List(vs: seq<Value>)

  /** One `key: operand` entry of a field condition object. */
  datatype OpEntry = OpEntry(key: string, operand: Operand)

  /** One key of a query node, in declaration order. */
  datatype Clause =
    | And(children: seq<QueryNode>)
    | Or(children: seq<QueryNode>)
    | Text(search: string)
    | Field(name: string, cond: seq<OpEntry>)

  datatype QueryNode = QueryNode(keys: seq<Clause>)

  /** The operator a field condition is evaluated with. */
  datatype Op = Eq | Gt | Lt | In | NoOp

  predicate HasKey(cond: seq<OpEntry>, key: string) {
    exists i :: 0 <= i < |cond| && cond[i].key == key
  }

  /** `'$eq' in operation`, then `'$gt'`, `'$lt'`, `'$in'`: the first of
      the four that is present wins; none present selects no operator. */
  function Selected(cond: seq<OpEntry>): (op: Op)
    ensures op == Eq <==> HasKey(cond, "$eq")
    ensures op == Gt <==> !HasKey(cond, "$eq") && HasKey(cond, "$gt")
    ensures op == Lt <==> !HasKey(cond, "$eq") && !HasKey(cond, "$gt") && HasKey(cond, "$lt")
    ensures op == In <==> !HasKey(cond, "$eq") && !HasKey(cond, "$gt") && !HasKey(cond, "$lt")
                          && HasKey(cond, "$in")
  {
    if HasKey(cond, "$eq") then Eq
    else if HasKey(cond, "$gt") then Gt
    else if HasKey(cond, "$lt") then Lt
    else if HasKey(cond, "$in") then In
    else NoOp
  }

  /** `query[qKey][Object.keys(operation)[0]]`: the operand of the FIRST
      entry, whichever operator is selected; `undefined` when the condition
      is empty. */
  function OperationValue(cond: seq<OpEntry>): Operand {
    if |cond| == 0 then Scalar(Undefined) else cond[0].operand
  }

  /** Evaluating this condition against a row calls `.some` on an operand
      that is not an array, which throws a `TypeError`. */
  predicate InOnNonArray(cond: seq<OpEntry>) {
    Selected(cond) == In && OperationValue(cond).Scalar?
  }

  /** Some field condition anywhere in the tree is `InOnNonArray`. Every
      child of `$and`/`$or` is evaluated, so every such condition is
      reached. */
  predicate HasInOnNonArray(q: QueryNode)
    decreases q
  {
    exists i :: 0 <= i < |q.keys| && ClauseHasInOnNonArray(q.keys[i])
  }

  predicate ClauseHasInOnNonArray(k: Clause)
    decreases k
  {
    match k
    case And(cs) => exists i :: 0 <= i < |cs| && HasInOnNonArray(cs[i])
    case Or(cs) => exists i :: 0 <= i < |cs| && HasInOnNonArray(cs[i])
    case Text(_) => false
    case Field(_, cond) => InOnNonArray(cond)
  }
}
