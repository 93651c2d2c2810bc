# In-memory query engine of typescript-exercises, in Dafny

This project models the small embedded database of exercises 13 and 14: a
`Database` loads its records from a text file whose live lines start with
`E`, evaluates a nested query against them, and (exercise 14) sorts and
projects the matches. Everything is stated as pure functions over
sequences, and the properties the code promises are proved about them.

Modules, following the source's structure:

- `Wrappers`: `Option` and `Result`.
- `Seqs`: generic sequence facts: `NoDup`, `FirstIndex`, flattening
  (`[].concat(...args)`) and order-preserving `Filter`.
- `Text`: `String.prototype.trim`, ASCII `toLowerCase`, `split` on one
  character, `join`.
- `Values`: field values (`Str | Int | Bool | Null | Undefined`), rows, the
  `>` relation, and `String(v)`. Strings are ordered as JavaScript orders
  them, by their UTF-16 code units, so a character above U+FFFF (a surrogate
  pair) sorts below one in U+E000 to U+FFFF.
- `Query`: the query grammar. A node is an ordered list of keys (`$and`,
  `$or`, `$text`, or a field condition). A field condition keeps its operator
  entries in declaration order, because the code picks the operator by
  precedence but the operand from the first entry.
- `Combinators`: `unite` and `intersect`, each a reduce over the
  concatenation of its arguments.
- `Evaluator`: `getMatchingRows`. There is one evaluator, parameterised by
  how sibling keys are combined: `Concatenated` for exercise 13 and `United`
  for exercise 14.
- `MatchingFacts`: what the evaluator computes, clause by clause.
- `Loader`: `getRows`: the live-line filter, `omitFirstLetter`, and decoding.
- `PostProcess`: the `sort` comparator, an insertion sort driven by it, and
  `pluck`.
- `Database14` and `Database13`: `find` of each exercise.
- `Scenarios`: small concrete queries worked through by proof.

A row is `Row(id, fields)`. `id` is the row's position among the loaded live
lines. The engine compares rows by reference (`includes`, `===`), so two
loaded rows are the same element exactly when they are the same object.
Giving every loaded row its own `id` makes datatype equality agree with that.
`Loader.LoadedRowsDistinct` shows loaded rows are pairwise distinct.

The model follows the code as written:

- Projection passes `Object.keys(options.projection)` to `pluck`. For an
  array, those are the index strings `"0"`, `"1"`, …, so a projected row has
  fields named by position and not the listed field names.
  `Database14.ProjectionByNameLosesField` shows the consequence.
- The sort field is `Object.keys(options.sort)[0]`. `Object.keys` lists
  array-index names (`"0"`, `"2"`, …) first, in ascending numeric order, so
  `sort: {b: 1, 2: 1}` sorts by `"2"`, not by `b`.
- `$text` splits both the search and the field value on the single space
  character, not on any white space.
- A field condition with several operator keys is not rejected. The operator
  is the first present of `$eq`, `$gt`, `$lt`, `$in`. The operand is that of
  the condition's first key (exercises/exercise-14/database.ts:121-123). A condition with
  none of the four gives `[]`.
- The loader trims the whole live line and then drops its first character.
  Trailing white space is removed. White space right after the `E` marker is
  kept.
- In exercise 13, sibling keys are concatenated, not united. An empty query
  therefore matches nothing there, while in exercise 14 it returns every row.
- `$in` with an operand that is not an array calls `.some` on a non-array,
  which throws a `TypeError`. This happens whenever any row is loaded. `find`
  returns `Failure(TypeError)` in that case.

## Model

| member | source | states |
|---|---|---|
| `Seqs.Flatten` | exercises/exercise-14/database.ts:27-28 | `[].concat(...args)`: a value is in the concatenation exactly when it is in some argument |
| `Seqs.FlattenLength` | exercises/exercise-13/database.ts:65-67 | the concatenation is as long as all arguments together |
| `Seqs.Filter` | exercises/exercise-14/database.ts:125-131 | `rows.filter(p)` is no longer than `rows`, and holds exactly the elements of `rows` satisfying `p` |
| `Seqs.FilterNoDup` | exercises/exercise-14/database.ts:125-131 | filtering a duplicate-free list gives a duplicate-free list |
| `Combinators.Unite` | exercises/exercise-14/database.ts:26-33 | `unite` has no duplicates, holds a value exactly when some argument holds it, and lists values in order of first occurrence in the concatenation |
| `Combinators.UniteReduceFacts` | exercises/exercise-13/database.ts:23-26 | after visiting a prefix, `unite`'s accumulator holds each value of that prefix exactly once, in first-occurrence order |
| `Combinators.UnitePrefixAgreeAt` | exercises/exercise-14/database.ts:29-32 | `unite`'s accumulator after n steps depends only on the first n values, not on what follows |
| `Combinators.UniteSingle` | exercises/exercise-14/database.ts:26-33 | uniting one duplicate-free list gives that list back |
| `Combinators.UnitePairSelf` | exercises/exercise-14/database.ts:26-33 | union is idempotent: uniting a duplicate-free list with itself gives the list back |
| `Combinators.Intersect` | exercises/exercise-14/database.ts:34-40 | `intersect` has no duplicates, holds a value exactly when it occurs more than once in the concatenation, and keeps first-occurrence order |
| `Combinators.IntersectReduceFacts` | exercises/exercise-13/database.ts:31-33 | after visiting a prefix, `intersect`'s accumulator holds exactly the prefix's values occurring twice or more in the whole concatenation, once each |
| `Combinators.IntersectOfTwo` | exercises/exercise-14/database.ts:34-40 | for two duplicate-free lists A and B, `intersect` is the elements of A that are in B, in A's order |
| `Text.Trim` | exercises/exercise-14/database.ts:25 | `trim()` returns the slice of its input between leading and trailing white space, and the result neither starts nor ends with white space |
| `Text.Split` | exercises/exercise-14/database.ts:85 | `split(sep)` always yields at least one piece, and no piece contains the separator |
| `Text.SplitJoin` | exercises/exercise-14/database.ts:85 | splitting and re-joining with the separator restores the text, so splitting loses no character |
| `Values.CodeUnits` | exercises/exercise-14/database.ts:126 | a character is one UTF-16 code unit below U+10000, and otherwise a high and a low surrogate that decode back to it |
| `Values.UnitsLessTransitive` | exercises/exercise-14/database.ts:126 | lexicographic order on code unit sequences, a proper prefix first, is transitive |
| `Values.SupplementaryBelowHighBmp` | exercises/exercise-14/database.ts:126 | a string holding one character above U+FFFF is less than one holding a character in U+E000 to U+FFFF, the reverse of code point order |
| `Values.GreaterIrreflexive` | exercises/exercise-14/database.ts:126 | no value is `>` itself |
| `Values.GreaterTransitive` | exercises/exercise-14/database.ts:126 | `>` on same-kind values is transitive |
| `Values.GreaterAsymmetric` | exercises/exercise-14/database.ts:126 | `a > b` excludes `b > a` |
| `Values.NatToStringRoundTrip` | exercises/exercise-14/database.ts:130 | reading back `String(n)`'s decimal digits gives `n` |
| `Values.StringifyInt` | exercises/exercise-14/database.ts:130 | two numbers have the same `String` form exactly when they are equal |
| `Query.Selected` | exercises/exercise-14/database.ts:125-128 | the operator is `$eq` if present, else `$gt`, else `$lt`, else `$in`; each direction of each case is stated |
| `Evaluator.TextReduceIsFilter` | exercises/exercise-14/database.ts:111-119 | the `$text` reduce appends exactly the matching rows, in input order |
| `Evaluator.Matching` | exercises/exercise-14/database.ts:94-139 | `getMatchingRows` of both exercises (exercise 13's, at exercises/exercise-13/database.ts:64-110, concatenates siblings): it returns only rows it was given, without duplicates when siblings are united, and nothing for a node without keys; `MatchingFacts` states the result clause by clause |
| `MatchingFacts.UnitedSiblingsAreOr` | exercises/exercise-14/database.ts:95-97 | sibling keys combine by OR: the result has no duplicates, holds a row exactly when some key's result holds it, and keeps first-occurrence order |
| `MatchingFacts.ConcatenatedSiblings` | exercises/exercise-13/database.ts:65-68 | exercise 13 concatenates the per-key results and keeps duplicates; the length is the sum of theirs |
| `MatchingFacts.EmptyNodeMatchesNothing` | exercises/exercise-13/database.ts:65-67 | a node with no keys matches no row |
| `MatchingFacts.OrIsUnion` | exercises/exercise-14/database.ts:104-109 | `$or` has no duplicates and holds a row exactly when some child, evaluated on all rows, matches it |
| `MatchingFacts.AndCountsDuplicates` | exercises/exercise-14/database.ts:98-103 | `$and` holds a row exactly when it occurs at least twice among the children's results together |
| `MatchingFacts.AndOfTwoIsIntersection` | exercises/exercise-14/database.ts:99-103 | in exercise 14, `$and` with two children is their true intersection, in the first child's order |
| `MatchingFacts.AndOfThreeKeepsRepeatedChild` | exercises/exercise-13/database.ts:70-74 | with children `[a, a, b]`, `$and` keeps every row `a` matches, whatever `b` matches |
| `MatchingFacts.ConcatenatedAndKeepsDoubleMatch` | exercises/exercise-13/database.ts:69-74 | in exercise 13, a row matching two sibling keys of one `$and` child survives `$and` with no other child |
| `MatchingFacts.TextKeepsMatchingRows` | exercises/exercise-14/database.ts:110-119 | `$text` keeps a row exactly when some full-text field's tokens include every search token, in input order |
| `MatchingFacts.EqCondition` | exercises/exercise-14/database.ts:125 | `{$eq: v}` keeps exactly the rows whose field is identical to `v` |
| `MatchingFacts.GtCondition` | exercises/exercise-14/database.ts:126 | `{$gt: v}` keeps exactly the rows whose field is greater than `v` |
| `MatchingFacts.LtCondition` | exercises/exercise-14/database.ts:127 | `{$lt: v}` keeps exactly the rows whose field is less than `v` |
| `MatchingFacts.InCondition` | exercises/exercise-14/database.ts:128-132 | `{$in: vs}` keeps exactly the rows whose field's string form is that of some element of `vs` |
| `MatchingFacts.InMatchesAcrossKinds` | exercises/exercise-14/database.ts:130 | field `5` matches `$in: [3, "5", 7]` |
| `MatchingFacts.OperatorAndOperandDisagree` | exercises/exercise-14/database.ts:121-125 | with `{$gt: a, $eq: b}` the rows kept are those whose field is identical to `a` |
| `MatchingFacts.UnknownOperatorMatchesNothing` | exercises/exercise-14/database.ts:125-135 | a condition without `$eq`, `$gt`, `$lt` or `$in` yields `[]` |
| `MatchingFacts.FieldIsFilter` | exercises/exercise-13/database.ts:96-103 | a field condition filters all rows in order, so on duplicate-free rows its result is duplicate-free |
| `Loader.LiveLinesExactly` | exercises/exercise-14/database.ts:84-86 | a line is kept exactly when it is non-empty and starts with `E` |
| `Loader.PayloadIsTail` | exercises/exercise-14/database.ts:87 | each kept line becomes the line without its `E` and without trailing white space |
| `Loader.DecodeAll` | exercises/exercise-14/database.ts:88 | decoding succeeds exactly when every payload decodes; otherwise the whole load fails with a decode error; row `i` holds payload `i`'s record |
| `Loader.GetRows` | exercises/exercise-14/database.ts:82-92 | `getRows` fails with an I/O error when the read fails; otherwise it succeeds exactly when every payload decodes, fails with a decode error when one does not, and row `i` is live line `i`'s record with identity `i` |
| `Loader.LoadedRowsDistinct` | exercises/exercise-13/database.ts:52-62 | loaded rows are pairwise distinct |
| `PostProcess.CompareTiesBothWays` | exercises/exercise-14/database.ts:53 | for equal keys the comparator returns -1 in both argument orders |
| `PostProcess.SortBy` | exercises/exercise-14/database.ts:71 | sorting permutes its input |
| `PostProcess.SortByAscending` | exercises/exercise-14/database.ts:69-72 | the sorted rows are a permutation, strictly ascending by the key when any two keys are distinct and comparable by `>` |
| `PostProcess.Pluck` | exercises/exercise-14/database.ts:42-49 | `pluck(keys)(target)` has exactly the fields `keys`, each holding `target`'s value (`undefined` if absent) |
| `PostProcess.PluckIdempotent` | exercises/exercise-14/database.ts:42-49 | plucking twice with the same keys is plucking once |
| `Database14.SortFieldPrefersArrayIndex` | exercises/exercise-14/database.ts:70-71 | the sort field is the smallest array-index name among the sort keys if there is one, else the first declared key, and `"undefined"` without keys |
| `Database14.SortFieldExample` | exercises/exercise-14/database.ts:70-71 | `sort: {b: 1, 2: 1}` sorts by `"2"` |
| `Database14.Find` | exercises/exercise-14/database.ts:65-80 | `find` passes on a load failure, fails otherwise only with a type error and only for a non-empty query, and every result row stands for a loaded row; the lemmas below state the rest |
| `Database14.EmptyQueryReturnsAllRows` | exercises/exercise-14/database.ts:65-67 | with an empty query and no options, `find` returns the loaded rows unchanged |
| `Database14.FindFailures` | exercises/exercise-14/database.ts:82-92 | `find` fails with an I/O error if the read fails, a decode error if a payload is undecodable, and a type error exactly when a non-array `$in` operand is evaluated |
| `Database14.FindSiblingsAreOr` | exercises/exercise-14/database.ts:65-67 | a non-empty query returns each loaded row at most once, exactly when some top-level key matches it |
| `Database14.FindSorts` | exercises/exercise-14/database.ts:69-72 | with a `sort` option the result permutes the matches, ascending by the first sort key when keys are distinct |
| `Database14.FindProjectsIndexKeys` | exercises/exercise-14/database.ts:74-77 | with a `projection` of n names every result row has exactly the fields "0" to n-1, each holding the matched row's field of that name |
| `Database14.ProjectionIgnoresNames` | exercises/exercise-14/database.ts:75 | two projections listing the same number of names give the same result |
| `Database14.ProjectionByNameLosesField` | exercises/exercise-14/database.ts:74-76 | projecting `{a: v}` onto `["a"]` gives `{"0": undefined}` |
| `Database13.Find` | exercises/exercise-13/database.ts:46-50 | `find` passes on a load failure, fails otherwise only with a type error, returns only loaded rows, and returns `[]` for an empty query |
| `Database13.EmptyQueryReturnsNothing` | exercises/exercise-13/database.ts:46-48 | in exercise 13 an empty query returns `[]` |
| `Database13.FindConcatenates` | exercises/exercise-13/database.ts:64-67 | exercise 13's `find` is the concatenation of the top-level keys' results, its length is their sum, and every element is a loaded row |
| `Database13.FindFailures` | exercises/exercise-13/database.ts:46-62 | exercise 13's `find` fails on a failed read, on an undecodable payload, and exactly when a non-array `$in` operand is evaluated |
| `Scenarios.TextSearchExample` | exercises/exercise-14/database.ts:110-119 | on rows "Blue Sky" and "Red Car", `$text: "blue"` finds only "Blue Sky" and `$text: "blue car"` finds nothing |
| `Scenarios.SortExample` | exercises/exercise-14/database.ts:51-55 | rows keyed 3, 1, 2 sort to keys 1, 2, 3 |

## Left out

- Reading the file (`fs.readFile`, `async`/`await`, the rethrowing
  `try`/`catch`): the read's outcome is a parameter, `ReadResult`, either the
  file's text or a failure. The file name only selects what is read, so the
  `Database` datatype holds just the full-text field list.
- `JSON.parse` (`toRow`): the decoder is a parameter, a function from a
  payload to an optional record.
- JavaScript numbers are modelled as unbounded integers. Floating point,
  `NaN` and number formatting beyond integers are not modelled.
- Values.Greater: `>` and `<` between values of different kinds, or against an
  array operand, are false in the model. JavaScript would coerce them.
  `String()` of objects and arrays is likewise not modelled, because field
  values are scalars.
- The host `Array.prototype.sort` algorithm: an insertion sort driven by the
  comparator as written stands in for it. Only permutation and ascending order
  for distinct keys are stated, and the order of tied rows is not claimed.
- Unicode case mapping: `toLowerCase` is modelled for ASCII letters only.
- `Object.keys` ordering of integer-like property names is modelled for the
  `sort` option only (`Database14.SortField`). A query node's keys and a
  condition's operator entries are taken in declaration order. Operator
  entries are `$`-names, so their order is unaffected; a node's order differs
  only when a record field has an array-index name.
- Evaluator.Matching: its own contract states only that the result is drawn
  from the given rows, is duplicate-free when siblings are united, and is
  empty for a node without keys. The rest is stated by the `MatchingFacts`
  lemmas: `UnitedSiblingsAreOr`, `ConcatenatedSiblings`, `OrIsUnion`,
  `AndCountsDuplicates`, `TextKeepsMatchingRows` and the condition lemmas.
- Database14.Find: its own contract states the failure cases and that result
  rows come from the loaded rows. Matching, sorting and projection are stated
  by `FindFailures`, `EmptyQueryReturnsAllRows`, `FindSiblingsAreOr`,
  `FindSorts` and `FindProjectsIndexKeys`.
- Database13.Find: its own contract does not state the concatenation;
  `FindConcatenates` does.
- Pluck: the projected row keeps the source row's identity (`id`). In the
  source it is a fresh object. No operation after projection compares rows, so
  this is not observable.
- The sort direction (`1 | -1`) is carried in `SortKey` but, as in the source,
  never used.
- The `Field`/`Query`/`FindOptions` types are modelled as datatypes. The
  TypeScript typing constraints (`keyof T`, which field names a query may
  mention) are not modelled.
- The exercise 10 and 11 declaration files hold type declarations only and
  have no behaviour to model.
