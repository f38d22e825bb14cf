/**
 * The three `Array.prototype` methods the front end relies on, as functions on
 * sequences: `map`, `filter` and `sort` with a comparator. ECMAScript 2019 and
 * later require `sort` to be stable; `Sort` below is a stable insertion sort,
 * and the lemmas show that its result is a permutation of the input, ordered by
 * the comparator, and keeps tied elements in their original order. For a
 * consistent comparator these three facts fix the output, so any stable sort
 * the engine uses returns the same sequence.
 */
module JsArray {

  /** `s.map(f)`. */
  function Map<T, U>(s: seq<T>, f: T -> U): (r: seq<U>)
    ensures |r| == |s|
    ensures forall i :: 0 <= i < |s| ==> r[i] == f(s[i])
  {
    seq(|s|, i requires 0 <= i < |s| => f(s[i]))
  }

  /** `s.filter(keep)`: the elements for which `keep` holds, front to back. */
  function Filter<T>(s: seq<T>, keep: T -> bool): (r: seq<T>)
    ensures |r| <= |s|
    ensures forall i :: 0 <= i < |r| ==> keep(r[i])
  {
    if s == [] then [] else (if keep(s[0]) then [s[0]] else []) + Filter(s[1..], keep)
  }

  /** An element survives `filter` exactly when it was there and `keep` holds of it. */
  lemma {:induction false} FilterMembers<T>(s: seq<T>, keep: T -> bool, x: T)
    ensures x in Filter(s, keep) <==> x in s && keep(x)
  {
    if s != [] {
      FilterMembers(s[1..], keep, x);
      assert s == [s[0]] + s[1..];
    }
  }

  /** `filter` on a sequence with a known first element. */
  lemma FilterCons<T>(x: T, s: seq<T>, keep: T -> bool)
    ensures Filter([x] + s, keep) == (if keep(x) then [x] else []) + Filter(s, keep)
  {
    assert ([x] + s)[1..] == s;
  }

  /** `filter` keeps relative order: it distributes over concatenation. */
  lemma {:induction false} FilterConcat<T>(a: seq<T>, b: seq<T>, keep: T -> bool)
    ensures Filter(a + b, keep) == Filter(a, keep) + Filter(b, keep)
  {
    if a == [] {
      assert a + b == b;
    } else {
      var head := if keep(a[0]) then [a[0]] else [];
      var tail := a[1..];
      assert a + b == [a[0]] + (tail + b);
      assert a == [a[0]] + tail;
      FilterCons(a[0], tail + b, keep);
      FilterCons(a[0], tail, keep);
      FilterConcat(tail, b, keep);
      assert head + (Filter(tail, keep) + Filter(b, keep))
          == (head + Filter(tail, keep)) + Filter(b, keep);
    }
  }

  /** When `keep` holds of every element, `filter` returns the sequence unchanged. */
  lemma {:induction false} FilterKeepsAll<T>(s: seq<T>, keep: T -> bool)
    requires forall i :: 0 <= i < |s| ==> keep(s[i])
    ensures Filter(s, keep) == s
  {
    if s != [] {
      FilterKeepsAll(s[1..], keep);
    }
  }

  /** Filtering twice with the same test is filtering once. */
  lemma FilterIdempotent<T>(s: seq<T>, keep: T -> bool)
    ensures Filter(Filter(s, keep), keep) == Filter(s, keep)
  {
    var r := Filter(s, keep);
    forall i | 0 <= i < |r|
      ensures keep(r[i])
    {
      FilterMembers(s, keep, r[i]);
    }
    FilterKeepsAll(r, keep);
  }

  /** Filtering by a wider test first does not change a filter by a narrower one. */
  lemma {:induction false} FilterNarrower<T>(s: seq<T>, wide: T -> bool, narrow: T -> bool)
    requires forall y :: narrow(y) ==> wide(y)
    ensures Filter(Filter(s, wide), narrow) == Filter(s, narrow)
  {
    if s != [] {
      var tail := s[1..];
      assert s == [s[0]] + tail;
      FilterNarrower(tail, wide, narrow);
      FilterCons(s[0], tail, wide);
      FilterCons(s[0], tail, narrow);
      if wide(s[0]) {
        FilterCons(s[0], Filter(tail, wide), narrow);
      } else {
        assert !narrow(s[0]);
        assert Filter(s, wide) == Filter(tail, wide);
        assert Filter(s, narrow) == Filter(tail, narrow);
      }
    }
  }

  /** Two tests that agree on every element of `s` filter it alike. */
  lemma {:induction false} FilterCongruent<T>(s: seq<T>, p: T -> bool, q: T -> bool)
    requires forall i :: 0 <= i < |s| ==> p(s[i]) == q(s[i])
    ensures Filter(s, p) == Filter(s, q)
  {
    if s != [] {
      FilterCongruent(s[1..], p, q);
    }
  }

  /**
   * A comparator for `sort`: swapping the arguments negates the value, and
   * "not after" is transitive. This is slightly stronger than ECMAScript's
   * consistency, which asks only that the sign flip; every comparator used
   * here returns -1, 0 or 1 (or a difference of ranks) and meets it.
   * (Swapping also gives `cmp(a, a) == 0`.)
   */
  ghost predicate Consistent<T(!new)>(cmp: (T, T) -> int) {
    && (forall a, b :: cmp(a, b) == -cmp(b, a))
    && (forall a, b, c :: cmp(a, b) <= 0 && cmp(b, c) <= 0 ==> cmp(a, c) <= 0)
  }

  /** No element is placed after one the comparator puts before it. */
  ghost predicate SortedBy<T>(s: seq<T>, cmp: (T, T) -> int) {
    forall i, j :: 0 <= i < j < |s| ==> cmp(s[i], s[j]) <= 0
  }

  /** Inserts `x` in front of the first element it does not come after. */
  function Insert<T>(x: T, s: seq<T>, cmp: (T, T) -> int): (r: seq<T>)
    ensures multiset(r) == multiset(s) + multiset{x}
    ensures |r| == |s| + 1
    ensures forall i :: 0 <= i < |r| ==> r[i] == x || r[i] in s
  {
    if s == [] then [x]
    else if cmp(x, s[0]) <= 0 then [x] + s
    else
      assert s == [s[0]] + s[1..];
      [s[0]] + Insert(x, s[1..], cmp)
  }

  /** `s.sort(cmp)` on a copy of `s`: a stable sort, returning a permutation of `s`. */
  function Sort<T>(s: seq<T>, cmp: (T, T) -> int): (r: seq<T>)
    ensures multiset(r) == multiset(s)
    ensures |r| == |s|
    ensures forall i :: 0 <= i < |r| ==> r[i] in s
  {
    if s == [] then []
    else
      assert s == [s[0]] + s[1..];
      Insert(s[0], Sort(s[1..], cmp), cmp)
  }

  /** `Insert` adds `x` and nothing else. */
  lemma InsertMembers<T>(x: T, s: seq<T>, cmp: (T, T) -> int, y: T)
    ensures y in Insert(x, s, cmp) <==> y == x || y in s
  {
    assert y in Insert(x, s, cmp) <==> y in multiset(Insert(x, s, cmp));
  }

  /** An element that comes after none of an ordered sequence can go in front of it. */
  lemma ConsSorted<T>(x: T, s: seq<T>, cmp: (T, T) -> int)
    requires SortedBy(s, cmp)
    requires forall k :: 0 <= k < |s| ==> cmp(x, s[k]) <= 0
    ensures SortedBy([x] + s, cmp)
  {
    var r := [x] + s;
    forall i, j | 0 <= i < j < |r|
      ensures cmp(r[i], r[j]) <= 0
    {
      if i == 0 {
        assert r[j] == s[j - 1];
      } else {
        assert r[i] == s[i - 1] && r[j] == s[j - 1];
      }
    }
  }

  /** Inserting into an ordered sequence keeps it ordered. */
  lemma {:induction false} InsertSorted<T(!new)>(x: T, s: seq<T>, cmp: (T, T) -> int)
    requires Consistent(cmp) && SortedBy(s, cmp)
    ensures SortedBy(Insert(x, s, cmp), cmp)
  {
    if s == [] || cmp(x, s[0]) <= 0 {
      InsertFront(x, s, cmp);
      forall k | 0 <= k < |s|
        ensures cmp(x, s[k]) <= 0
      {
        assert k == 0 || cmp(s[0], s[k]) <= 0;
      }
      ConsSorted(x, s, cmp);
    } else {
      var rest := Insert(x, s[1..], cmp);
      InsertSorted(x, s[1..], cmp);
      forall k | 0 <= k < |rest|
        ensures cmp(s[0], rest[k]) <= 0
      {
        InsertMembers(x, s[1..], cmp, rest[k]);
        if rest[k] == x {
          assert cmp(x, s[0]) == -cmp(s[0], x);
        } else {
          var j :| 0 <= j < |s[1..]| && s[1..][j] == rest[k];
          assert s[j + 1] == rest[k];
        }
      }
      ConsSorted(s[0], rest, cmp);
    }
  }

  /** The result of `Sort` is ordered by the comparator. */
  lemma {:induction false} SortSorted<T(!new)>(s: seq<T>, cmp: (T, T) -> int)
    requires Consistent(cmp)
    ensures SortedBy(Sort(s, cmp), cmp)
  {
    if s != [] {
      SortSorted(s[1..], cmp);
      InsertSorted(s[0], Sort(s[1..], cmp), cmp);
    }
  }

  /** The test "compares equal to `x`": the elements a sort must keep in their original order. */
  function TiedWith<T>(cmp: (T, T) -> int, x: T): T -> bool {
    y => cmp(x, y) == 0
  }

  /** Two elements tied with the same element are tied with each other. */
  lemma TiesAgree<T(!new)>(cmp: (T, T) -> int, x: T, y: T, z: T)
    requires Consistent(cmp)
    ensures cmp(x, y) == 0 && cmp(x, z) == 0 ==> cmp(y, z) == 0
  {
    assert cmp(y, x) == -cmp(x, y);
    assert cmp(z, x) == -cmp(x, z);
    assert cmp(z, y) == -cmp(y, z);
  }

  /** `Insert` puts `x` first when it comes after no element's head. */
  lemma InsertFront<T>(x: T, s: seq<T>, cmp: (T, T) -> int)
    requires s == [] || cmp(x, s[0]) <= 0
    ensures Insert(x, s, cmp) == [x] + s
  {
    if s == [] {
      assert [x] + s == [x];
    }
  }

  /** The step of `InsertTies` where `y` goes past the first element of `s`. */
  lemma InsertTiesStep<T>(y: T, s: seq<T>, cmp: (T, T) -> int, tied: T -> bool)
    requires s != [] && cmp(y, s[0]) > 0
    requires !(tied(y) && tied(s[0]))
    requires Filter(Insert(y, s[1..], cmp), tied) == (if tied(y) then [y] else []) + Filter(s[1..], tied)
    ensures Filter(Insert(y, s, cmp), tied) == (if tied(y) then [y] else []) + Filter(s, tied)
  {
    var rest := Insert(y, s[1..], cmp);
    var others := Filter(s[1..], tied);
    assert Insert(y, s, cmp) == [s[0]] + rest;
    FilterCons(s[0], rest, tied);
    assert Filter(s, tied) == (if tied(s[0]) then [s[0]] else []) + others;
    if tied(y) {
      assert [] + others == others;
      assert Filter(Insert(y, s, cmp), tied) == Filter(rest, tied);
    } else {
      assert [] + others == others;
      assert Filter(rest, tied) == others;
      assert [] + Filter(s, tied) == Filter(s, tied);
    }
  }

  /** Inserting `y` adds it to the elements tied with `x` exactly when it is tied with `x`, in front. */
  lemma {:induction false} InsertTies<T(!new)>(y: T, s: seq<T>, cmp: (T, T) -> int, x: T)
    requires Consistent(cmp)
    ensures Filter(Insert(y, s, cmp), TiedWith(cmp, x))
         == (if cmp(x, y) == 0 then [y] else []) + Filter(s, TiedWith(cmp, x))
  {
    var tied := TiedWith(cmp, x);
    if s == [] || cmp(y, s[0]) <= 0 {
      InsertFront(y, s, cmp);
      FilterCons(y, s, tied);
    } else {
      InsertTies(y, s[1..], cmp, x);
      // y comes after s[0], so they are not both tied with x
      TiesAgree(cmp, x, y, s[0]);
      InsertTiesStep(y, s, cmp, tied);
    }
  }

  /**
   * Stability: for every `x`, the elements tied with `x` appear in the sorted
   * result in the same order as in the input.
   */
  lemma {:induction false} SortStable<T(!new)>(s: seq<T>, cmp: (T, T) -> int, x: T)
    requires Consistent(cmp)
    ensures Filter(Sort(s, cmp), TiedWith(cmp, x)) == Filter(s, TiedWith(cmp, x))
  {
    if s != [] {
      SortStable(s[1..], cmp, x);
      InsertTies(s[0], Sort(s[1..], cmp), cmp, x);
    }
  }

  /** Stability, for any test that holds of exactly the elements tied with `x`. */
  lemma SortStableUnder<T(!new)>(s: seq<T>, cmp: (T, T) -> int, x: T, p: T -> bool)
    requires Consistent(cmp)
    requires forall y :: p(y) == (cmp(x, y) == 0)
    ensures Filter(Sort(s, cmp), p) == Filter(s, p)
  {
    var r := Sort(s, cmp);
    SortStable(s, cmp, x);
    FilterCongruent(r, TiedWith(cmp, x), p);
    FilterCongruent(s, TiedWith(cmp, x), p);
  }

  /**
   * Stability for any test whose elements all tie with `x`: they are a
   * sub-filter of `x`'s tie class, which the sort keeps in order.
   */
  lemma SortStableWithin<T(!new)>(s: seq<T>, cmp: (T, T) -> int, x: T, p: T -> bool)
    requires Consistent(cmp)
    requires forall y :: p(y) ==> cmp(x, y) == 0
    ensures Filter(Sort(s, cmp), p) == Filter(s, p)
  {
    SortStable(s, cmp, x);
    FilterNarrower(Sort(s, cmp), TiedWith(cmp, x), p);
    FilterNarrower(s, TiedWith(cmp, x), p);
  }

  /** A comparator that ties every pair leaves the order as it was. */
  lemma SortAllTied<T(!new)>(s: seq<T>, cmp: (T, T) -> int)
    requires Consistent(cmp)
    requires forall i, j :: 0 <= i < |s| && 0 <= j < |s| ==> cmp(s[i], s[j]) == 0
    ensures Sort(s, cmp) == s
  {
    if s != [] {
      var tied := TiedWith(cmp, s[0]);
      var r := Sort(s, cmp);
      SortStable(s, cmp, s[0]);
      FilterKeepsAll(s, tied);
      forall i | 0 <= i < |r|
        ensures tied(r[i])
      {
        assert r[i] in multiset(s);
        var j :| 0 <= j < |s| && s[j] == r[i];
      }
      FilterKeepsAll(r, tied);
    }
  }
}
