/** Worked examples, proved: the engine on small inputs. */
module Scenarios {
  import opened Seqs
  import opened Text
  import opened Values
  import opened Query
  import opened Evaluator
  import opened PostProcess

  const blueSky := Row(0, map["title" := Str("Blue Sky")])
  const redCar := Row(1, map["title" := Str("Red Car")])

  lemma SplitOneWord(w: string)
    requires ' ' !in w
    ensures Split(w, ' ') == [w]
  {
  }

  lemma SplitTwoWords(w1: string, w2: string)
    requires ' ' !in w1 && ' ' !in w2
    ensures Split(w1 + " " + w2, ' ') == [w1, w2]
  {
    var s := w1 + " " + w2;
    assert s[..|w1|] == w1;
    FirstIndexUnique(s, ' ', |w1|);
    assert s[|w1| + 1..] == w2;
    SplitOneWord(w2);
  }

  lemma SplitBlueSky()
    ensures ValueTokens(blueSky, "title") == ["blue", "sky"]
  {
    assert Lower("Blue Sky") == "blue" + " " + "sky";
    SplitTwoWords("blue", "sky");
  }

  lemma SplitRedCar()
    ensures ValueTokens(redCar, "title") == ["red", "car"]
  {
    assert Lower("Red Car") == "red" + " " + "car";
    SplitTwoWords("red", "car");
  }

  lemma SearchBlue()
    ensures SearchTokens("blue") == ["blue"]
  {
    TrimNonSpaceStart("blue");
    assert TrimEnd("blue") == "blue";
    assert Lower("blue") == "blue";
    SplitOneWord("blue");
  }

  lemma SearchBlueCar()
    ensures SearchTokens("blue car") == ["blue", "car"]
  {
    TrimNonSpaceStart("blue car");
    assert TrimEnd("blue car") == "blue car";
    assert Lower("blue car") == "blue" + " " + "car";
    SplitTwoWords("blue", "car");
  }

  /** A field whose tokens include every search token matches. */
  lemma FieldMatches(ft: seq<string>, search: string, row: Row, k: nat, tokens: seq<string>, field: seq<string>)
    requires k < |ft| && SearchTokens(search) == tokens && ValueTokens(row, ft[k]) == field
    requires forall t :: t in tokens ==> t in field
    ensures TextMatches(ft, search, row)
  {
    assert forall t :: 0 <= t < |tokens| ==> tokens[t] in field;
  }

  /** With a single full-text field, one search token missing from it
      rules the row out. */
  lemma FieldMisses(key: string, search: string, row: Row, i: nat, tokens: seq<string>, field: seq<string>)
    requires SearchTokens(search) == tokens && ValueTokens(row, key) == field
    requires i < |tokens| && tokens[i] !in field
    ensures !TextMatches([key], search, row)
  {
    var ft := [key];
    assert ft[0] == key;
  }

  /** A word whose first letter differs from those of `a` and `b`. */
  lemma NotAmong(w: string, a: string, b: string)
    requires |w| > 0 && |a| > 0 && |b| > 0 && w[0] != a[0] && w[0] != b[0]
    ensures w !in [a, b]
  {
  }

  lemma BlueFindsBlueSky()
    ensures TextMatches(["title"], "blue", blueSky)
  {
    SplitBlueSky();
    SearchBlue();
    FieldMatches(["title"], "blue", blueSky, 0, ["blue"], ["blue", "sky"]);
  }

  lemma BlueMissesRedCar()
    ensures !TextMatches(["title"], "blue", redCar)
  {
    SplitRedCar();
    SearchBlue();
    NotAmong("blue", "red", "car");
    FieldMisses("title", "blue", redCar, 0, ["blue"], ["red", "car"]);
  }

  /** A search whose tokens are "blue" and "car" (such as "blue car")
      matches neither row: each misses one of the tokens. */
  lemma BlueCarMissesBlueSky(search: string)
    requires SearchTokens(search) == ["blue", "car"]
    ensures !TextMatches(["title"], search, blueSky)
  {
    SplitBlueSky();
    NotAmong("car", "blue", "sky");
    FieldMisses("title", search, blueSky, 1, ["blue", "car"], ["blue", "sky"]);
  }

  lemma BlueCarMissesRedCar(search: string)
    requires SearchTokens(search) == ["blue", "car"]
    ensures !TextMatches(["title"], search, redCar)
  {
    SplitRedCar();
    NotAmong("blue", "red", "car");
    FieldMisses("title", search, redCar, 0, ["blue", "car"], ["red", "car"]);
  }

  lemma FilterPair(a: Row, b: Row, p: Row -> bool)
    ensures Filter([a, b], p) == (if p(a) then [a] else []) + (if p(b) then [b] else [])
  {
    assert [a, b][1..] == [b];
    assert [b][1..] == [];
  }

  /** "blue" finds only "Blue Sky"; "blue car" finds neither row, since all
      search tokens must occur in one field. */
  lemma TextSearchExample()
    ensures Filter([blueSky, redCar], TextFilter(["title"], "blue")) == [blueSky]
    ensures Filter([blueSky, redCar], TextFilter(["title"], "blue car")) == []
  {
    BlueFindsBlueSky();
    BlueMissesRedCar();
    SearchBlueCar();
    BlueCarMissesBlueSky("blue car");
    BlueCarMissesRedCar("blue car");
    FilterPair(blueSky, redCar, TextFilter(["title"], "blue"));
    FilterPair(blueSky, redCar, TextFilter(["title"], "blue car"));
  }

  /** Rows keyed 3, 1, 2 come out keyed 1, 2, 3. */
  lemma SortExample()
    ensures SortBy("n", [Row(0, map["n" := Int(3)]), Row(1, map["n" := Int(1)]), Row(2, map["n" := Int(2)])])
         == [Row(1, map["n" := Int(1)]), Row(2, map["n" := Int(2)]), Row(0, map["n" := Int(3)])]
  {
  }
}
