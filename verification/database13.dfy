/** exercise-13's `Database.find`: load and match, with the per-key
    results of a node concatenated. There are no options. */
module Database13 {
  import opened Wrappers
  import opened Seqs
  import opened Values
  import opened Query
  import opened Evaluator
  import MatchingFacts
  import opened Loader

  datatype Database = Database(fullTextSearchFieldNames: seq<string>)

  function Find(db: Database, file: ReadResult, decode: string -> Option<Record>, q: QueryNode)
    : (r: Result<seq<Row>, FindError>)
    ensures GetRows(file, decode).Failure? ==> r == Failure(GetRows(file, decode).error)
    ensures GetRows(file, decode).Success? && r.Failure? ==> r.error == TypeError
    ensures r.Success? ==> forall x :: x in r.value ==> x in GetRows(file, decode).value
    ensures GetRows(file, decode).Success? && |q.keys| == 0 ==> r == Success([])
  {
    match GetRows(file, decode)
    case Failure(e) => Failure(e)
    case Success(rows) =>
      if |rows| > 0 && HasInOnNonArray(q) then Failure(TypeError)
      else Success(Matching(Concatenated, db.fullTextSearchFieldNames, q, rows))
  }

  /** An empty query matches nothing, unlike exercise-14's. */
  lemma EmptyQueryReturnsNothing(db: Database, file: ReadResult, decode: string -> Option<Record>)
    requires GetRows(file, decode).Success?
    ensures Find(db, file, decode, QueryNode([])) == Success([])
  {
    MatchingFacts.EmptyNodeMatchesNothing(Concatenated, db.fullTextSearchFieldNames, GetRows(file, decode).value);
  }

  /** The result is the concatenation of the top-level keys' candidate
      lists: duplicates are kept, its length is the sum of theirs, and
      every element is a loaded row. */
  lemma FindConcatenates(db: Database, file: ReadResult, decode: string -> Option<Record>, q: QueryNode)
    requires Find(db, file, decode, q).Success?
    ensures GetRows(file, decode).Success?
    ensures var rows := GetRows(file, decode).value;
      var rs := KeyResults(Concatenated, db.fullTextSearchFieldNames, q, rows);
      var r := Find(db, file, decode, q).value;
      && r == Flatten(rs)
      && |r| == SumLengths(rs)
      && forall x :: x in r ==> x in rows
  {
    MatchingFacts.ConcatenatedSiblings(db.fullTextSearchFieldNames, q, GetRows(file, decode).value);
  }

  /** The failures: an unreadable file, an undecodable live line, and `$in`
      evaluated on a non-array operand. */
  lemma FindFailures(db: Database, file: ReadResult, decode: string -> Option<Record>, q: QueryNode)
    ensures file.ReadFailed? ==> Find(db, file, decode, q) == Failure(IoError)
    ensures file.Contents? && (exists i :: 0 <= i < |Payloads(file.text)| && decode(Payloads(file.text)[i]).None?)
      ==> Find(db, file, decode, q) == Failure(DecodeError)
    ensures GetRows(file, decode).Success? ==>
      (Find(db, file, decode, q) == Failure(TypeError) <==>
       |GetRows(file, decode).value| > 0 && HasInOnNonArray(q))
  {
  }
}
