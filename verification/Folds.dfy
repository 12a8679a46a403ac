/** Counting by key, and sorting as sort.Slice promises it: some order of the same elements that nothing is out of. */
module Folds {
  import opened Wrappers

  function CountKey<T, K(==)>(xs: seq<T>, keyOf: T -> Option<K>, key: K): nat {
    if xs == [] then 0
    else CountKey(xs[..|xs| - 1], keyOf, key) + if keyOf(xs[|xs| - 1]) == Some(key) then 1 else 0
  }

  /** The elements that have a key. */
  function CountKeyed<T, K>(xs: seq<T>, keyOf: T -> Option<K>): nat {
    if xs == [] then 0
    else CountKeyed(xs[..|xs| - 1], keyOf) + if keyOf(xs[|xs| - 1]).Some? then 1 else 0
  }

  function SumOfCounts<T, K(==)>(xs: seq<T>, keyOf: T -> Option<K>, keys: seq<K>): nat {
    if keys == [] then 0
    else SumOfCounts(xs, keyOf, keys[..|keys| - 1]) + CountKey(xs, keyOf, keys[|keys| - 1])
  }

  /** The made elements are given by these places, in order. */
  ghost predicate GivenBy<S, T>(made: seq<T>, xs: seq<S>, gives: S -> Option<T>, places: seq<nat>) {
    && |places| == |made|
    && (forall j :: 0 <= j < |made| ==> places[j] < |xs| && gives(xs[places[j]]) == Some(made[j]))
    && (forall i, j :: 0 <= i < j < |places| ==> places[i] < places[j])
  }

  /** What was made is what the elements give that give anything, in their order; these are their places. */
  ghost predicate Follows<S, T>(made: seq<T>, xs: seq<S>, gives: S -> Option<T>, places: seq<nat>) {
    && GivenBy(made, xs, gives, places)
    && forall k: nat :: k < |xs| && gives(xs[k]).Some? ==> k in places
  }

  lemma GivenByOneMore<S, T>(made: seq<T>, xs: seq<S>, gives: S -> Option<T>, places: seq<nat>)
    requires xs != [] && GivenBy(made, xs[..|xs| - 1], gives, places)
    ensures GivenBy(made, xs, gives, places)
    ensures var given := gives(xs[|xs| - 1]);
            given.Some? ==> GivenBy(made + [given.value], xs, gives, places + [|xs| - 1])
  {
  }

  lemma FollowsOneMore<S, T>(made: seq<T>, xs: seq<S>, gives: S -> Option<T>, places: seq<nat>)
    returns (more: seq<nat>)
    requires xs != [] && Follows(made, xs[..|xs| - 1], gives, places)
    ensures var given := gives(xs[|xs| - 1]);
            Follows(if given.Some? then made + [given.value] else made, xs, gives, more)
  {
    var n := |xs| - 1;
    more := if gives(xs[n]).Some? then places + [n] else places;
    GivenByOneMore(made, xs, gives, places);
    forall k: nat | k < |xs| && gives(xs[k]).Some? ensures k in more {
      if k < n {
        assert xs[..n][k] == xs[k];
        assert k in places;
      } else {
        assert more[|places|] == n;
      }
    }
  }

  ghost predicate Distinct<K>(keys: seq<K>) {
    forall i, j :: 0 <= i < j < |keys| ==> keys[i] != keys[j]
  }

  lemma {:induction false} OneMore<T, K>(xs: seq<T>, keyOf: T -> Option<K>, keys: seq<K>)
    requires xs != [] && Distinct(keys)
    ensures var last := keyOf(xs[|xs| - 1]);
            SumOfCounts(xs, keyOf, keys)
            == SumOfCounts(xs[..|xs| - 1], keyOf, keys) + if last.Some? && last.value in keys then 1 else 0
  {
    if keys != [] {
      OneMore(xs, keyOf, keys[..|keys| - 1]);
      assert keys == keys[..|keys| - 1] + [keys[|keys| - 1]];
    }
  }

  lemma {:induction false} NothingToCount<T, K>(keyOf: T -> Option<K>, keys: seq<K>)
    ensures SumOfCounts([], keyOf, keys) == 0
  {
    if keys != [] {
      NothingToCount(keyOf, keys[..|keys| - 1]);
    }
  }

  /** Distinct keys that cover every element's count each keyed element once. */
  lemma {:induction false} CountsAddUp<T, K>(xs: seq<T>, keyOf: T -> Option<K>, keys: seq<K>)
    requires Distinct(keys)
    requires forall k :: 0 <= k < |xs| && keyOf(xs[k]).Some? ==> keyOf(xs[k]).value in keys
    ensures SumOfCounts(xs, keyOf, keys) == CountKeyed(xs, keyOf)
  {
    if xs == [] {
      NothingToCount(keyOf, keys);
    } else {
      OneMore(xs, keyOf, keys);
      CountsAddUp(xs[..|xs| - 1], keyOf, keys);
    }
  }

  lemma {:induction false} CountedMeansPresent<T, K>(xs: seq<T>, keyOf: T -> Option<K>, key: K)
    ensures CountKey(xs, keyOf, key) > 0 <==> exists k :: 0 <= k < |xs| && keyOf(xs[k]) == Some(key)
  {
    if xs != [] {
      var n := |xs| - 1;
      CountedMeansPresent(xs[..n], keyOf, key);
      if k :| 0 <= k < |xs| && keyOf(xs[k]) == Some(key) {
        if k < n {
          assert keyOf(xs[..n][k]) == Some(key);
        }
      }
      if CountKey(xs[..n], keyOf, key) > 0 {
        var k :| 0 <= k < n && keyOf(xs[..n][k]) == Some(key);
        assert keyOf(xs[k]) == Some(key);
      }
    }
  }

  function Positions<T, K(==)>(xs: seq<T>, keyOf: T -> Option<K>, key: K): set<int> {
    set k | 0 <= k < |xs| && keyOf(xs[k]) == Some(key)
  }

  /** The count is the number of positions that hold the key. */
  lemma {:induction false} CountIsTheSize<T, K>(xs: seq<T>, keyOf: T -> Option<K>, key: K)
    ensures CountKey(xs, keyOf, key) == |Positions(xs, keyOf, key)|
  {
    if xs == [] {
      assert Positions(xs, keyOf, key) == {};
    } else {
      var n := |xs| - 1;
      CountIsTheSize(xs[..n], keyOf, key);
      assert forall k :: 0 <= k < n ==> xs[..n][k] == xs[k];
      var before := Positions(xs[..n], keyOf, key);
      if keyOf(xs[n]) == Some(key) {
        assert Positions(xs, keyOf, key) == before + {n} && n !in before;
      } else {
        assert Positions(xs, keyOf, key) == before;
      }
    }
  }

  // ---- Sorting ----

  /** A comparison sort.Slice accepts: a strict weak order. */
  ghost predicate IsOrder<T(!new)>(before: (T, T) -> bool) {
    && (forall a, b :: before(a, b) ==> !before(b, a))
    && (forall a, b, c :: before(a, b) ==> before(a, c) || before(c, b))
  }

  ghost predicate SortedBy<T>(xs: seq<T>, before: (T, T) -> bool) {
    forall i, j :: 0 <= i < j < |xs| ==> !before(xs[j], xs[i])
  }

  method SortSlice<T(!new)>(xs: seq<T>, before: (T, T) -> bool) returns (sorted: seq<T>)
    requires IsOrder(before)
    ensures multiset(sorted) == multiset(xs) && |sorted| == |xs|
    ensures SortedBy(sorted, before)
  {
    sorted := [];
    for i := 0 to |xs|
      invariant |sorted| == i && multiset(sorted) == multiset(xs[..i])
      invariant SortedBy(sorted, before)
    {
      var k := i;
      while k > 0 && before(xs[i], sorted[k - 1])
        invariant 0 <= k <= i
        invariant forall j :: k <= j < i ==> before(xs[i], sorted[j])
      {
        k := k - 1;
      }
      assert k > 0 ==> !before(xs[i], sorted[k - 1]);
      InsertedSorted(sorted, k, xs[i], before);
      assert xs[..i + 1] == xs[..i] + [xs[i]];
      assert sorted == sorted[..k] + sorted[k..];
      sorted := sorted[..k] + [xs[i]] + sorted[k..];
    }
    assert xs[..|xs|] == xs;
  }

  lemma InsertedSorted<T(!new)>(sorted: seq<T>, k: nat, x: T, before: (T, T) -> bool)
    requires IsOrder(before) && SortedBy(sorted, before) && k <= |sorted|
    requires forall j :: k <= j < |sorted| ==> before(x, sorted[j])
    requires k > 0 ==> !before(x, sorted[k - 1])
    ensures SortedBy(sorted[..k] + [x] + sorted[k..], before)
  {
    var r := sorted[..k] + [x] + sorted[k..];
    forall i, j | 0 <= i < j < |r| ensures !before(r[j], r[i]) {
      if j == k && i < k - 1 {
        assert !before(sorted[k - 1], sorted[i]);
      }
    }
  }

  /** Sorting keeps the elements. */
  lemma SameElements<T>(xs: seq<T>, ys: seq<T>, x: T)
    requires multiset(xs) == multiset(ys)
    ensures x in xs <==> x in ys
  {
    assert x in multiset(xs) <==> x in xs;
    assert x in multiset(ys) <==> x in ys;
  }

  lemma {:induction false} OnceInADistinctList<T>(xs: seq<T>, x: T)
    requires Distinct(xs)
    ensures multiset(xs)[x] <= 1
  {
    if xs != [] {
      var n := |xs| - 1;
      OnceInADistinctList(xs[..n], x);
      assert xs == xs[..n] + [xs[n]];
      if xs[n] == x {
        assert x !in multiset(xs[..n]);
      }
    }
  }

  lemma TwiceInAList<T>(xs: seq<T>, i: nat, j: nat)
    requires i < j < |xs| && xs[i] == xs[j]
    ensures multiset(xs)[xs[i]] >= 2
  {
    assert xs == xs[..i] + [xs[i]] + xs[i + 1..j] + [xs[j]] + xs[j + 1..];
  }

  ghost predicate DistinctBy<T, K>(xs: seq<T>, keyOf: T -> K) {
    forall i, j :: 0 <= i < j < |xs| ==> keyOf(xs[i]) != keyOf(xs[j])
  }

  /** Sorting keeps distinct keys distinct. */
  lemma StaysDistinct<T, K>(xs: seq<T>, ys: seq<T>, keyOf: T -> K)
    requires multiset(xs) == multiset(ys) && DistinctBy(xs, keyOf)
    ensures DistinctBy(ys, keyOf)
  {
    forall i, j | 0 <= i < j < |ys| ensures keyOf(ys[i]) != keyOf(ys[j]) {
      SameElements(xs, ys, ys[i]);
      SameElements(xs, ys, ys[j]);
      OnceInADistinctList(xs, ys[i]);
      if ys[i] == ys[j] {
        TwiceInAList(ys, i, j);
      }
    }
  }

  // ---- Averages ----

  function Sum(scores: seq<real>): real {
    if scores == [] then 0.0 else Sum(scores[..|scores| - 1]) + scores[|scores| - 1]
  }

  function Average(scores: seq<real>): real {
    if scores == [] then 0.0 else Sum(scores) / |scores| as real
  }

  lemma {:induction false} SumOfBoth(a: seq<real>, b: seq<real>)
    ensures Sum(a + b) == Sum(a) + Sum(b)
  {
    if b == [] {
      assert a + b == a;
    } else {
      var n := |b| - 1;
      SumOfBoth(a, b[..n]);
      assert (a + b)[..|a + b| - 1] == a + b[..n];
    }
  }

  predicate ReachesOnAverage(total: real, count: real, least: real) {
    count > 0.0 && total >= least * count
  }

  predicate Averages(average: real, total: real, count: real) {
    average * count == total
  }

  lemma AverageTimesCount(scores: seq<real>, least: real)
    ensures ReachesOnAverage(Sum(scores), |scores| as real, least) <==> scores != [] && Average(scores) >= least
    ensures scores != [] ==> Averages(Average(scores), Sum(scores), |scores| as real)
  {
    if scores != [] {
      QuotientTimes(Sum(scores), |scores| as real, least);
    }
  }

  lemma QuotientTimes(total: real, count: real, least: real)
    requires count > 0.0
    ensures total / count * count == total
    ensures total / count >= least <==> total >= least * count
  {
    var a := total / count;
    assert a * count == total;
    if a >= least {
      Scaled(least, a, count);
    } else {
      ScaledStrictly(a, least, count);
    }
  }

  lemma Scaled(a: real, b: real, n: real)
    requires a <= b && n > 0.0
    ensures a * n <= b * n
  {
  }

  lemma ScaledStrictly(a: real, b: real, n: real)
    requires a < b && n > 0.0
    ensures a * n < b * n
  {
  }

  // ---- Folds that ignore order ----

  function Total<T>(xs: seq<T>, f: T -> real): real {
    if xs == [] then 0.0 else Total(xs[..|xs| - 1], f) + f(xs[|xs| - 1])
  }

  lemma {:induction false} TotalOfBoth<T>(xs: seq<T>, ys: seq<T>, f: T -> real)
    ensures Total(xs + ys, f) == Total(xs, f) + Total(ys, f)
  {
    if ys == [] {
      assert xs + ys == xs;
    } else {
      var n := |ys| - 1;
      TotalOfBoth(xs, ys[..n], f);
      assert (xs + ys)[..|xs + ys| - 1] == xs + ys[..n];
    }
  }

  lemma {:induction false} TotalSplits<T>(xs: seq<T>, f: T -> real, i: nat)
    requires i < |xs|
    ensures Total(xs, f) == Total(xs[..i] + xs[i + 1..], f) + f(xs[i])
  {
    var n := |xs| - 1;
    var rest := xs[..i] + xs[i + 1..];
    if i == n {
      assert rest == xs[..n];
    } else {
      TotalSplits(xs[..n], f, i);
      assert rest[..|rest| - 1] == xs[..n][..i] + xs[..n][i + 1..];
    }
  }

  /** The last element of one order, wherever it is in another. */
  lemma LastIsSomewhere<T>(xs: seq<T>, ys: seq<T>) returns (i: nat)
    requires multiset(xs) == multiset(ys) && xs != []
    ensures i < |ys| && ys[i] == xs[|xs| - 1]
    ensures multiset(xs[..|xs| - 1]) == multiset(ys[..i] + ys[i + 1..])
  {
    var n := |xs| - 1;
    SameElements(xs, ys, xs[n]);
    i :| 0 <= i < |ys| && ys[i] == xs[n];
    MultisetWithout(xs, n);
    MultisetWithout(ys, i);
    assert xs[..n] + xs[n + 1..] == xs[..n];
  }

  lemma MultisetWithout<T>(xs: seq<T>, i: nat)
    requires i < |xs|
    ensures multiset(xs[..i] + xs[i + 1..]) == multiset(xs) - multiset{xs[i]}
  {
    assert xs == xs[..i] + [xs[i]] + xs[i + 1..];
  }

  /** Any order of the same elements has the same total. */
  lemma {:induction false} TotalIgnoresOrder<T>(xs: seq<T>, ys: seq<T>, f: T -> real)
    requires multiset(xs) == multiset(ys)
    ensures Total(xs, f) == Total(ys, f)
    decreases |xs|
  {
    if xs == [] {
      assert |multiset(ys)| == 0;
    } else {
      var i := LastIsSomewhere(xs, ys);
      TotalSplits(ys, f, i);
      TotalIgnoresOrder(xs[..|xs| - 1], ys[..i] + ys[i + 1..], f);
    }
  }

  lemma {:induction false} CountIsATotal<T, K>(xs: seq<T>, keyOf: T -> Option<K>, key: K, f: T -> real)
    requires forall x :: f(x) == if keyOf(x) == Some(key) then 1.0 else 0.0
    ensures CountKey(xs, keyOf, key) as real == Total(xs, f)
  {
    if xs != [] {
      CountIsATotal(xs[..|xs| - 1], keyOf, key, f);
    }
  }

  lemma CountIgnoresOrder<T, K>(xs: seq<T>, ys: seq<T>, keyOf: T -> Option<K>, key: K)
    requires multiset(xs) == multiset(ys)
    ensures CountKey(xs, keyOf, key) == CountKey(ys, keyOf, key)
  {
    var f := x => if keyOf(x) == Some(key) then 1.0 else 0.0;
    CountIsATotal(xs, keyOf, key, f);
    CountIsATotal(ys, keyOf, key, f);
    TotalIgnoresOrder(xs, ys, f);
  }
}
