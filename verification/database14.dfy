/** exercise-14's `Database.find`: load, match (sibling keys united; an
    empty query matches every row), then sort and project. */
module Database14 {
  import opened Wrappers
  import opened Seqs
  import opened Values
  import opened Query
  import opened Combinators
  import opened Evaluator
  import MatchingFacts
  import opened Loader
  import opened PostProcess

  /** One `field: 1 | -1` entry of the `sort` option, in declaration
      order. The direction is not used. */
  datatype SortKey = SortKey(field: string, direction: int)

  /** `'sort' in options` and `'projection' in options`. */
  datatype FindOptions = FindOptions(sort: Option<seq<SortKey>>, projection: Option<seq<string>>)

  const NoOptions := FindOptions(None, None)

  /** The construction-time state `find` depends on; the file name only
      selects what is read, so the read's outcome is passed to `Find`. */
  datatype Database = Database(fullTextSearchFieldNames: seq<string>)

  /** A property name JavaScript treats as an array index: the canonical
      decimal form of an integer below 2^32 - 1. */
  predicate IsArrayIndex(name: string) {
    && |name| > 0
    && (forall i :: 0 <= i < |name| ==> '0' <= name[i] <= '9')
    && (name[0] == '0' ==> |name| == 1)
    && DigitsValue(name) < 0xFFFF_FFFF
  }

  function IndexValue(name: string): nat
    requires IsArrayIndex(name)
  {
    DigitsValue(name)
  }

  /** The array-index name with the smallest value, if there is one. */
  function MinArrayIndex(names: seq<string>): (r: Option<string>)
    ensures r.None? <==> forall i :: 0 <= i < |names| ==> !IsArrayIndex(names[i])
    ensures r.Some? ==> r.value in names && IsArrayIndex(r.value)
    ensures r.Some? ==> forall i :: 0 <= i < |names| && IsArrayIndex(names[i]) ==>
      IndexValue(r.value) <= IndexValue(names[i])
  {
    if |names| == 0 then None
    else
      var rest := MinArrayIndex(names[1..]);
      assert forall i :: 1 <= i < |names| ==> names[i] == names[1..][i - 1];
      if !IsArrayIndex(names[0]) then rest
      else if rest.None? || IndexValue(names[0]) <= IndexValue(rest.value) then Some(names[0])
      else rest
  }

  /** `Object.keys(options.sort)[0]`. `Object.keys` lists array-index names
      first, in ascending numeric order, then the other names in declaration
      order; so the first key is the smallest array-index name if there is
      one, and otherwise the first declared name. Without any key it is
      `undefined`, and `a[undefined]` reads the field named "undefined". */
  function SortField(keys: seq<SortKey>): string {
    var names := seq(|keys|, i requires 0 <= i < |keys| => keys[i].field);
    match MinArrayIndex(names)
    case Some(name) => name
    case None => if |keys| == 0 then "undefined" else keys[0].field
  }

  /** `sort: {b: 1, 2: 1}` sorts by "2": an array-index name comes first,
      whatever its position; without one the first declared name is used. */
  lemma SortFieldPrefersArrayIndex(keys: seq<SortKey>)
    ensures |keys| == 0 ==> SortField(keys) == "undefined"
    ensures (forall i :: 0 <= i < |keys| ==> !IsArrayIndex(keys[i].field)) && |keys| > 0 ==>
      SortField(keys) == keys[0].field
    ensures (exists i :: 0 <= i < |keys| && IsArrayIndex(keys[i].field)) ==>
      && IsArrayIndex(SortField(keys))
      && (exists j :: 0 <= j < |keys| && keys[j].field == SortField(keys))
      && forall i :: 0 <= i < |keys| && IsArrayIndex(keys[i].field) ==>
           IndexValue(SortField(keys)) <= IndexValue(keys[i].field)
  {
    var names := seq(|keys|, i requires 0 <= i < |keys| => keys[i].field);
    assert forall i :: 0 <= i < |keys| ==> names[i] == keys[i].field;
  }

  lemma SortFieldExample()
    ensures SortField([SortKey("b", 1), SortKey("2", 1)]) == "2"
  {
    var keys := [SortKey("b", 1), SortKey("2", 1)];
    assert !IsArrayIndex(keys[0].field);
    assert DigitsValue("2") == 2 by {
      assert "2"[..0] == "";
    }
    assert IsArrayIndex(keys[1].field);
    SortFieldPrefersArrayIndex(keys);
  }

  /** The rows handed to post-processing. */
  function Matched(db: Database, q: QueryNode, rows: seq<Row>): (r: seq<Row>)
    ensures forall x :: x in r ==> x in rows
  {
    if |q.keys| > 0 then Matching(United, db.fullTextSearchFieldNames, q, rows) else rows
  }

  function Sorted(rows: seq<Row>, opts: FindOptions): (r: seq<Row>)
    ensures multiset(r) == multiset(rows)
  {
    if opts.sort.Some? then SortBy(SortField(opts.sort.value), rows) else rows
  }

  /** `results.map(pluck(Object.keys(options.projection)))`: the keys are
      the projection array's indices, not the names it lists. */
  function Projected(rows: seq<Row>, opts: FindOptions): (r: seq<Row>)
    ensures |r| == |rows|
    ensures forall i :: 0 <= i < |r| ==> r[i].id == rows[i].id
  {
    if opts.projection.Some? then
      var keys := IndexKeys(|opts.projection.value|);
      seq(|rows|, i requires 0 <= i < |rows| => Pluck(keys, rows[i]))
    else rows
  }

  function Find(db: Database, file: ReadResult, decode: string -> Option<Record>,
                q: QueryNode, opts: FindOptions): (r: Result<seq<Row>, FindError>)
    ensures GetRows(file, decode).Failure? ==> r == Failure(GetRows(file, decode).error)
    ensures GetRows(file, decode).Success? && r.Failure? ==> r.error == TypeError && |q.keys| > 0
    ensures r.Success? ==> forall x :: x in r.value ==>
      exists y :: y in GetRows(file, decode).value && y.id == x.id
  {
    match GetRows(file, decode)
    case Failure(e) => Failure(e)
    case Success(rows) =>
      if |q.keys| > 0 && |rows| > 0 && HasInOnNonArray(q) then Failure(TypeError)
      else
        var matched := Matched(db, q, rows);
        var sorted := Sorted(matched, opts);
        var r := Projected(sorted, opts);
        IdsFromLoaded(rows, matched, sorted, r);
        Success(r)
  }

  /** Sorting and projecting keep each row's identity, so every result row
      stands for a loaded row. */
  lemma IdsFromLoaded(rows: seq<Row>, matched: seq<Row>, sorted: seq<Row>, r: seq<Row>)
    requires forall x :: x in matched ==> x in rows
    requires multiset(sorted) == multiset(matched)
    requires |r| == |sorted| && forall i :: 0 <= i < |r| ==> r[i].id == sorted[i].id
    ensures forall x :: x in r ==> exists y :: y in rows && y.id == x.id
  {
    forall x | x in r
      ensures exists y :: y in rows && y.id == x.id
    {
      var i :| 0 <= i < |r| && r[i] == x;
      assert sorted[i] in multiset(matched);
    }
  }

  /** An empty query with no options returns the loaded rows unchanged. */
  lemma EmptyQueryReturnsAllRows(db: Database, file: ReadResult, decode: string -> Option<Record>)
    ensures Find(db, file, decode, QueryNode([]), NoOptions) == GetRows(file, decode)
  {
  }

  /** The failures: an unreadable file, an undecodable live line, and `$in`
      evaluated on a non-array operand (only when some row is loaded). */
  lemma FindFailures(db: Database, file: ReadResult, decode: string -> Option<Record>,
                     q: QueryNode, opts: FindOptions)
    ensures file.ReadFailed? ==> Find(db, file, decode, q, opts) == Failure(IoError)
    ensures file.Contents? && (exists i :: 0 <= i < |Payloads(file.text)| && decode(Payloads(file.text)[i]).None?)
      ==> Find(db, file, decode, q, opts) == Failure(DecodeError)
    ensures GetRows(file, decode).Success? ==>
      (Find(db, file, decode, q, opts) == Failure(TypeError) <==>
       |q.keys| > 0 && |GetRows(file, decode).value| > 0 && HasInOnNonArray(q))
  {
  }

  /** Without options, a non-empty query returns each loaded row at most
      once, exactly when some top-level key matches it. */
  lemma FindSiblingsAreOr(db: Database, file: ReadResult, decode: string -> Option<Record>, q: QueryNode)
    requires |q.keys| > 0
    requires Find(db, file, decode, q, NoOptions).Success?
    ensures GetRows(file, decode).Success?
    ensures NoDup(Find(db, file, decode, q, NoOptions).value)
    ensures forall x :: x in Find(db, file, decode, q, NoOptions).value <==>
      exists i :: 0 <= i < |q.keys| &&
        x in KeyResult(United, db.fullTextSearchFieldNames, q.keys[i], GetRows(file, decode).value)
  {
    MatchingFacts.UnitedSiblingsAreOr(db.fullTextSearchFieldNames, q, GetRows(file, decode).value);
  }

  /** Sorting permutes the matched rows and, when their keys are pairwise
      distinct, puts them in ascending key order. */
  lemma FindSorts(db: Database, file: ReadResult, decode: string -> Option<Record>,
                  q: QueryNode, keys: seq<SortKey>)
    requires Find(db, file, decode, q, FindOptions(Some(keys), None)).Success?
    ensures GetRows(file, decode).Success?
    ensures var matched := Matched(db, q, GetRows(file, decode).value);
      && multiset(Find(db, file, decode, q, FindOptions(Some(keys), None)).value) == multiset(matched)
      && (DistinctKeys(SortField(keys), matched) ==>
          Ascending(SortField(keys), Find(db, file, decode, q, FindOptions(Some(keys), None)).value))
  {
    var matched := Matched(db, q, GetRows(file, decode).value);
    if DistinctKeys(SortField(keys), matched) {
      SortByAscending(SortField(keys), matched);
    }
  }

  /** Projection by `names` gives every result row exactly the fields
      `Object.keys(names)`, i.e. "0", "1", ..., each holding the source
      row's field of that name. */
  lemma FindProjectsIndexKeys(db: Database, file: ReadResult, decode: string -> Option<Record>,
                              q: QueryNode, names: seq<string>)
    requires Find(db, file, decode, q, FindOptions(None, Some(names))).Success?
    ensures GetRows(file, decode).Success?
    ensures var matched := Matched(db, q, GetRows(file, decode).value);
      var r := Find(db, file, decode, q, FindOptions(None, Some(names))).value;
      && |r| == |matched|
      && forall i :: 0 <= i < |r| ==>
           && r[i].id == matched[i].id
           && (forall k :: k in r[i].fields <==> k in IndexKeys(|names|))
           && (forall k :: k in r[i].fields ==> r[i].fields[k] == Get(matched[i], k))
  {
    var opts := FindOptions(None, Some(names));
    var matched := Matched(db, q, GetRows(file, decode).value);
    assert Sorted(matched, opts) == matched;
    assert Find(db, file, decode, q, opts).value == Projected(matched, opts);
  }

  /** Only the number of listed names matters to the projection, not the
      names. */
  lemma ProjectionIgnoresNames(db: Database, file: ReadResult, decode: string -> Option<Record>,
                               q: QueryNode, sort: Option<seq<SortKey>>, names1: seq<string>, names2: seq<string>)
    requires |names1| == |names2|
    ensures Find(db, file, decode, q, FindOptions(sort, Some(names1)))
         == Find(db, file, decode, q, FindOptions(sort, Some(names2)))
  {
  }

  /** Projecting a row that has field "a" onto `["a"]` does not keep "a":
      the result's only field is "0", and it is `undefined`. */
  lemma ProjectionByNameLosesField(rows: seq<Row>, v: Value)
    requires |rows| == 1 && rows[0].fields == map["a" := v]
    ensures var r := Projected(rows, FindOptions(None, Some(["a"])));
      |r| == 1 && r[0].fields == map["0" := Undefined]
  {
    var r := Projected(rows, FindOptions(None, Some(["a"])));
    assert IndexKeys(1) == ["0"];
    assert "0" !in rows[0].fields;
    assert r[0].fields.Keys == {"0"};
  }
}
