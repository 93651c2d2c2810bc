/** exercise-14's post-processing of the matched rows: `sort` by one key
    with the comparator as written, and `pluck` projection. */
module PostProcess {
  import opened Values

  /** `sort(key)(a, b)`: `1` when `a[key] > b[key]`, otherwise `-1`. Equal
      keys also give `-1`, in both argument orders. */
  function Compare(key: string, a: Row, b: Row): (c: int)
    ensures c == 1 || c == -1
    ensures c == 1 <==> Greater(Get(a, key), Get(b, key))
  {
    if Greater(Get(a, key), Get(b, key)) then 1 else -1
  }

  /** The comparator is not antisymmetric: for rows with equal keys each
      one is reported as belonging before the other. */
  lemma CompareTiesBothWays(key: string, a: Row, b: Row)
    requires Get(a, key) == Get(b, key)
    ensures Compare(key, a, b) == -1 && Compare(key, b, a) == -1
  {
    GreaterIrreflexive(Get(a, key));
  }

  /** Insert `x` before the first row the comparator does not put it
      after. */
  function Insert(key: string, x: Row, s: seq<Row>): (r: seq<Row>)
    ensures multiset(r) == multiset(s) + multiset{x}
  {
    if |s| == 0 then [x]
    else if Compare(key, x, s[0]) > 0 then
      assert s == [s[0]] + s[1..];
      [s[0]] + Insert(key, x, s[1..])
    else [x] + s
  }

  /** Insertion sort driven by the comparator. */
  function SortBy(key: string, s: seq<Row>): (r: seq<Row>)
    ensures multiset(r) == multiset(s)
  {
    if |s| == 0 then []
    else
      assert s == [s[0]] + s[1..];
      Insert(key, s[0], SortBy(key, s[1..]))
  }

  /** Any two rows' keys are ordered by `>` one way or the other. */
  predicate DistinctKeys(key: string, s: seq<Row>) {
    forall i, j :: 0 <= i < j < |s| ==> Greater(Get(s[i], key), Get(s[j], key)) || Greater(Get(s[j], key), Get(s[i], key))
  }

  predicate Ascending(key: string, s: seq<Row>) {
    forall i, j :: 0 <= i < j < |s| ==> Greater(Get(s[j], key), Get(s[i], key))
  }

  lemma {:induction false} InsertAscending(key: string, x: Row, s: seq<Row>)
    requires Ascending(key, s)
    requires forall i :: 0 <= i < |s| ==> Greater(Get(x, key), Get(s[i], key)) || Greater(Get(s[i], key), Get(x, key))
    ensures Ascending(key, Insert(key, x, s))
  {
    if |s| > 0 {
      if Compare(key, x, s[0]) > 0 {
        InsertAscending(key, x, s[1..]);
        var t := Insert(key, x, s[1..]);
        PermutationAbove(key, s[0], x, s[1..], t);
        ConsAscending(key, s[0], t);
      } else {
        forall j | 0 <= j < |s|
          ensures Greater(Get(s[j], key), Get(x, key))
        {
          if j > 0 {
            GreaterTransitive(Get(s[j], key), Get(s[0], key), Get(x, key));
          }
        }
        ConsAscending(key, x, s);
      }
    }
  }

  /** Rows above `h`, plus `x` above `h`, rearranged, are still above `h`. */
  lemma PermutationAbove(key: string, h: Row, x: Row, s: seq<Row>, t: seq<Row>)
    requires multiset(t) == multiset(s) + multiset{x}
    requires Greater(Get(x, key), Get(h, key))
    requires forall i :: 0 <= i < |s| ==> Greater(Get(s[i], key), Get(h, key))
    ensures forall j :: 0 <= j < |t| ==> Greater(Get(t[j], key), Get(h, key))
  {
    forall j | 0 <= j < |t|
      ensures Greater(Get(t[j], key), Get(h, key))
    {
      assert t[j] in multiset(t);
      if t[j] != x {
        assert t[j] in s;
      }
    }
  }

  /** A row below every row of an ascending sequence can go in front. */
  lemma ConsAscending(key: string, h: Row, t: seq<Row>)
    requires Ascending(key, t)
    requires forall j :: 0 <= j < |t| ==> Greater(Get(t[j], key), Get(h, key))
    ensures Ascending(key, [h] + t)
  {
    var r := [h] + t;
    forall i, j | 0 <= i < j < |r|
      ensures Greater(Get(r[j], key), Get(r[i], key))
    {
      assert r[j] == t[j - 1];
      if i > 0 {
        assert r[i] == t[i - 1];
      }
    }
  }

  /** The sorted rows are a permutation of the input and, when the keys are
      pairwise distinct, strictly ascending by the key. */
  lemma {:induction false} SortByAscending(key: string, s: seq<Row>)
    requires DistinctKeys(key, s)
    ensures multiset(SortBy(key, s)) == multiset(s)
    ensures Ascending(key, SortBy(key, s))
  {
    if |s| > 0 {
      assert DistinctKeys(key, s[1..]);
      SortByAscending(key, s[1..]);
      var t := SortBy(key, s[1..]);
      forall i | 0 <= i < |t|
        ensures Greater(Get(s[0], key), Get(t[i], key)) || Greater(Get(t[i], key), Get(s[0], key))
      {
        assert t[i] in multiset(s[1..]);
        var j :| 0 <= j < |s[1..]| && s[1..][j] == t[i];
        assert s[j + 1] == t[i];
      }
      InsertAscending(key, s[0], t);
    }
  }

  /** `pluck(keys)(target)`'s reduce after the first `n` keys: each key is
      set to the target's value, `undefined` when the target lacks it. */
  function PluckReduce(keys: seq<string>, n: nat, target: Row): (m: map<string, Value>)
    requires n <= |keys|
    ensures m.Keys == set i | 0 <= i < n :: keys[i]
    ensures forall k :: k in m ==> m[k] == Get(target, k)
  {
    if n == 0 then map[]
    else PluckReduce(keys, n - 1, target)[keys[n - 1] := Get(target, keys[n - 1])]
  }

  /** `pluck(keys)(target)`: a record with exactly the given keys. The
      projected record keeps the row's identity in the model. */
  function Pluck(keys: seq<string>, target: Row): (r: Row)
    ensures r.id == target.id
    ensures r.fields.Keys == set k | k in keys
    ensures forall k :: k in r.fields ==> r.fields[k] == Get(target, k)
  {
    var m := PluckReduce(keys, |keys|, target);
    assert forall k :: k in keys ==> exists i :: 0 <= i < |keys| && keys[i] == k;
    Row(target.id, m)
  }

  /** Projecting twice with the same keys is projecting once. */
  lemma PluckIdempotent(keys: seq<string>, target: Row)
    ensures Pluck(keys, Pluck(keys, target)) == Pluck(keys, target)
  {
    var once := Pluck(keys, target);
    var twice := Pluck(keys, once);
    assert twice.fields == once.fields;
  }

  /** `Object.keys` of an array of length `n`: "0", "1", ... */
  function IndexKeys(n: nat): (ks: seq<string>)
    ensures |ks| == n
    ensures forall i :: 0 <= i < n ==> ks[i] == NatToString(i)
  {
    seq(n, i requires 0 <= i < n => NatToString(i))
  }
}
