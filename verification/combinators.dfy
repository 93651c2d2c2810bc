/** The two list combinators shared by both databases: `unite`, a
    deduplicating union, and `intersect`, which keeps every value that
    occurs more than once in the concatenation of its arguments. Both are
    a `reduce` over the concatenation; `UniteReduce(c, n)` and
    `IntersectReduce(c, n)` are the accumulator after the first `n` steps. */
module Combinators {
  import opened Seqs

  /** Accumulator of `unite`'s reduce after visiting `c[..n]`: append `u`
      unless the accumulator already includes it. */
  function UniteReduce<T(==)>(c: seq<T>, n: nat): seq<T>
    requires n <= |c|
  {
    if n == 0 then []
    else
      var o := UniteReduce(c, n - 1);
      if c[n - 1] in o then o else o + [c[n - 1]]
  }

  /** The accumulator holds each value of `c[..n]` exactly once, in order
      of first occurrence. */
  lemma {:induction false} UniteReduceFacts<T(!new)>(c: seq<T>, n: nat)
    requires n <= |c|
    ensures NoDup(UniteReduce(c, n))
    ensures forall x :: x in UniteReduce(c, n) <==> x in c[..n]
    ensures InFirstOccurrenceOrder(c, UniteReduce(c, n))
  {
    if n > 0 {
      UniteReduceFacts(c, n - 1);
      var o := UniteReduce(c, n - 1);
      var u := c[n - 1];
      assert c[..n] == c[..n - 1] + [u];
      if u !in o {
        FirstOccurrenceStep(c, n, o);
      }
    }
  }

  /** Appending `c[n - 1]` to an accumulator holding exactly the values of
      `c[..n - 1]` (and not `c[n - 1]`) keeps first-occurrence order. */
  lemma FirstOccurrenceStep<T>(c: seq<T>, n: nat, o: seq<T>)
    requires 0 < n <= |c|
    requires forall x :: x in o ==> x in c[..n - 1]
    requires c[n - 1] !in c[..n - 1]
    requires InFirstOccurrenceOrder(c, o)
    ensures InFirstOccurrenceOrder(c, o + [c[n - 1]])
  {
    FirstIndexUnique(c, c[n - 1], n - 1);
    forall i | 0 <= i < |o|
      ensures FirstIndex(c, o[i]) < n - 1
    {
      assert o[i] in o;
      assert o[i] in c[..n - 1];
      var k :| 0 <= k < n - 1 && c[..n - 1][k] == o[i];
      FirstIndexAtMost(c, o[i], k);
    }
    var o' := o + [c[n - 1]];
    forall i, j | 0 <= i < j < |o'|
      ensures FirstIndex(c, o'[i]) < FirstIndex(c, o'[j])
    {
      assert o'[i] == o[i];
      if j < |o| {
        assert o'[j] == o[j];
      }
    }
  }

  /** `unite(args)`: the values of the concatenated arguments, each once, in
      order of first occurrence. */
  function Unite<T(==,!new)>(args: seq<seq<T>>): (r: seq<T>)
    ensures NoDup(r)
    ensures forall x :: x in r <==> exists i :: 0 <= i < |args| && x in args[i]
    ensures InFirstOccurrenceOrder(Flatten(args), r)
  {
    var c := Flatten(args);
    assert c[..|c|] == c;
    UniteReduceFacts(c, |c|);
    UniteReduce(c, |c|)
  }

  /** Accumulator of `intersect`'s reduce after visiting `c[..n]`: append
      `u` when it occurs more than once in the whole of `c` and the
      accumulator does not include it yet. */
  function IntersectReduce<T(==)>(c: seq<T>, n: nat): seq<T>
    requires n <= |c|
  {
    if n == 0 then []
    else
      var o := IntersectReduce(c, n - 1);
      var u := c[n - 1];
      if multiset(c)[u] > 1 && u !in o then o + [u] else o
  }

  /** The accumulator holds each value of `c[..n]` that occurs more than
      once in `c`, exactly once, in order of first occurrence. */
  lemma {:induction false} IntersectReduceFacts<T(!new)>(c: seq<T>, n: nat)
    requires n <= |c|
    ensures NoDup(IntersectReduce(c, n))
    ensures forall x :: x in IntersectReduce(c, n) <==> x in c[..n] && multiset(c)[x] > 1
    ensures InFirstOccurrenceOrder(c, IntersectReduce(c, n))
  {
    if n > 0 {
      IntersectReduceFacts(c, n - 1);
      var o := IntersectReduce(c, n - 1);
      var u := c[n - 1];
      assert c[..n] == c[..n - 1] + [u];
      if multiset(c)[u] > 1 && u !in o {
        FirstOccurrenceStep(c, n, o);
      }
    }
  }

  /** `intersect(args)`: the values occurring at least twice in the
      concatenated arguments, each once, in order of first occurrence. */
  function Intersect<T(==,!new)>(args: seq<seq<T>>): (r: seq<T>)
    ensures NoDup(r)
    ensures forall x :: x in r <==> multiset(Flatten(args))[x] > 1
    ensures InFirstOccurrenceOrder(Flatten(args), r)
  {
    var c := Flatten(args);
    assert c[..|c|] == c;
    IntersectReduceFacts(c, |c|);
    IntersectReduce(c, |c|)
  }

  /** On a duplicate-free list `unite` is the identity, and uniting a
      duplicate-free list with itself gives the list back. */
  lemma {:induction false} UniteReduceNoDup<T(!new)>(x: seq<T>, n: nat)
    requires NoDup(x) && n <= |x|
    ensures UniteReduce(x + x, n) == x[..n]
  {
    if n > 0 {
      UniteReduceNoDup(x, n - 1);
      var o := UniteReduce(x + x, n - 1);
      var u := (x + x)[n - 1];
      assert u == x[n - 1];
      assert u !in o by {
        forall k | 0 <= k < n - 1
          ensures o[k] != u
        {
          assert o[k] == x[k];
        }
      }
      assert x[..n] == x[..n - 1] + [x[n - 1]];
    }
  }

  lemma UniteReduceSecondCopy<T(!new)>(x: seq<T>)
    requires NoDup(x)
    ensures UniteReduce(x + x, 2 * |x|) == x
  {
    var c := x + x;
    assert c[..|x|] == x;
    forall j | |x| <= j < 2 * |x|
      ensures c[j] in c[..|x|]
    {
      assert c[j] == x[j - |x|];
    }
    UniteReduceSeen(c, |x|, 2 * |x|);
    UniteReduceNoDup(x, |x|);
  }

  /** Values that already occur in `c[..m]` leave the accumulator
      unchanged. */
  lemma {:induction false} UniteReduceSeen<T(!new)>(c: seq<T>, m: nat, n: nat)
    requires m <= n <= |c|
    requires forall j :: m <= j < n ==> c[j] in c[..m]
    ensures UniteReduce(c, n) == UniteReduce(c, m)
    decreases n
  {
    if m < n {
      UniteReduceSeen(c, m, n - 1);
      assert c[..n - 1][..m] == c[..m];
      UniteReduceSkip(c, n);
    }
  }

  /** A value already accumulated is skipped. */
  lemma UniteReduceSkip<T(!new)>(c: seq<T>, n: nat)
    requires 0 < n <= |c| && c[n - 1] in c[..n - 1]
    ensures UniteReduce(c, n) == UniteReduce(c, n - 1)
  {
    UniteReduceFacts(c, n - 1);
  }

  lemma UniteSingle<T(!new)>(x: seq<T>)
    requires NoDup(x)
    ensures Unite([x]) == x
  {
    assert Flatten([x]) == x by {
      assert [x][1..] == [];
    }
    UniteReduceNoDup(x, |x|);
    UnitePrefixAgreeAt(x, x, |x|);
    assert x[..|x|] == x;
  }

  lemma UnitePairSelf<T(!new)>(x: seq<T>)
    requires NoDup(x)
    ensures Unite([x, x]) == x
  {
    FlattenPair(x, x);
    UniteReduceSecondCopy(x);
  }

  /** The accumulator after `n` steps depends only on the first `n`
      values: `unite`'s step never looks ahead. */
  lemma {:induction false} UnitePrefixAgreeAt<T(!new)>(a: seq<T>, b: seq<T>, n: nat)
    requires n <= |a|
    ensures UniteReduce(a, n) == UniteReduce(a + b, n)
  {
    if n > 0 {
      UnitePrefixAgreeAt(a, b, n - 1);
      assert (a + b)[n - 1] == a[n - 1];
    }
  }

  /** Membership in `b`, as a predicate to filter with. */
  function InList<T(==)>(b: seq<T>): T -> bool {
    x => x in b
  }

  /** For exactly two duplicate-free lists, `intersect` is the true
      intersection, in the order of the first list. */
  lemma IntersectOfTwo<T(!new)>(a: seq<T>, b: seq<T>)
    requires NoDup(a) && NoDup(b)
    ensures Intersect([a, b]) == Filter(a, InList(b))
  {
    FlattenPair(a, b);
    IntersectPairSecond(a, b, |a| + |b|);
    assert Intersect([a, b]) == IntersectReduce(a + b, |a + b|);
  }

  /** How often `u` occurs in `a + b` when both are duplicate-free. */
  lemma PairCount<T>(a: seq<T>, b: seq<T>, u: T)
    requires NoDup(a) && NoDup(b)
    ensures multiset(a + b)[u] == (if u in a then 1 else 0) + (if u in b then 1 else 0)
  {
    NoDupCount(a, u);
    NoDupCount(b, u);
  }

  /** While visiting `a`, the accumulator is `a`'s prefix filtered by
      membership in `b`. */
  lemma {:induction false} IntersectPairFirst<T(!new)>(a: seq<T>, b: seq<T>, n: nat)
    requires NoDup(a) && NoDup(b) && n <= |a|
    ensures IntersectReduce(a + b, n) == Filter(a[..n], InList(b))
  {
    if n > 0 {
      IntersectPairFirst(a, b, n - 1);
      IntersectPairFirstStep(a, b, n);
      assert a[..n] == a[..n - 1] + [a[n - 1]];
      FilterSnoc(a[..n - 1], a[n - 1], InList(b));
    }
  }

  lemma IntersectPairFirstStep<T(!new)>(a: seq<T>, b: seq<T>, n: nat)
    requires NoDup(a) && NoDup(b) && 0 < n <= |a|
    ensures IntersectReduce(a + b, n) ==
      IntersectReduce(a + b, n - 1) + (if a[n - 1] in b then [a[n - 1]] else [])
  {
    var u := a[n - 1];
    assert (a + b)[n - 1] == u;
    PairCount(a, b, u);
    IntersectReduceFacts(a + b, n - 1);
    assert u !in a[..n - 1];
    assert (a + b)[..n - 1] == a[..n - 1];
  }

  /** While visiting `b`, nothing new is appended. */
  lemma {:induction false} IntersectPairSecond<T(!new)>(a: seq<T>, b: seq<T>, n: nat)
    requires NoDup(a) && NoDup(b) && |a| <= n <= |a| + |b|
    ensures IntersectReduce(a + b, n) == Filter(a, InList(b))
  {
    if n == |a| {
      IntersectPairFirst(a, b, n);
      assert a[..n] == a;
    } else {
      IntersectPairSecond(a, b, n - 1);
      IntersectPairSecondStep(a, b, n);
    }
  }

  lemma IntersectPairSecondStep<T(!new)>(a: seq<T>, b: seq<T>, n: nat)
    requires NoDup(a) && NoDup(b) && |a| < n <= |a| + |b|
    requires IntersectReduce(a + b, n - 1) == Filter(a, InList(b))
    ensures IntersectReduce(a + b, n) == IntersectReduce(a + b, n - 1)
  {
    var u := (a + b)[n - 1];
    assert u == b[n - 1 - |a|];
    PairCount(a, b, u);
    if multiset(a + b)[u] > 1 {
      assert u in a;
      assert InList(b)(u);
      assert u in IntersectReduce(a + b, n - 1);
    }
  }
}
