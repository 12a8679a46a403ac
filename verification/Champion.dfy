/**
 The best-so-far loop of the statistics: a running best is replaced by a better element, or whenever it
 looks vacant. A best that looks vacant itself is lost to whatever follows it.
 */
module Champion {

  /** What the loop holds after xs. */
  function Run<T>(xs: seq<T>, better: (T, T) -> bool, vacant: T -> bool, none: T): T {
    if xs == [] then none
    else Challenged(Run(xs[..|xs| - 1], better, vacant, none), xs[|xs| - 1], better, vacant)
  }

  function Challenged<T>(best: T, x: T, better: (T, T) -> bool, vacant: T -> bool): T {
    if vacant(best) || better(x, best) then x else best
  }

  lemma RunOneMore<T>(xs: seq<T>, x: T, better: (T, T) -> bool, vacant: T -> bool, none: T)
    ensures Run(xs + [x], better, vacant, none) == Challenged(Run(xs, better, vacant, none), x, better, vacant)
  {
    assert (xs + [x])[..|xs|] == xs;
  }

  /** What looks vacant is replaced by whatever comes next. */
  lemma NextReplaces<T>(x: T, y: T, better: (T, T) -> bool, vacant: T -> bool, none: T)
    requires vacant(none) && vacant(x)
    ensures Run([x, y], better, vacant, none) == y
  {
    assert [x, y][..1] == [x] && [x][..0] == [];
    assert Run([x], better, vacant, none) == x;
  }

  /** A strict total order. */
  ghost predicate IsTotalOrder<T(!new)>(better: (T, T) -> bool) {
    && (forall a, b :: better(a, b) ==> !better(b, a))
    && (forall a, b :: a != b ==> better(a, b) || better(b, a))
    && (forall a, b, c :: better(a, b) && better(b, c) ==> better(a, c))
  }

  /** The declared optimum: no element is better. */
  ghost predicate IsBest<T(!new)>(xs: seq<T>, better: (T, T) -> bool, best: T) {
    best in xs && forall x :: x in xs ==> x == best || better(best, x)
  }

  lemma {:induction false} SomeBest<T(!new)>(xs: seq<T>, better: (T, T) -> bool) returns (best: T)
    requires IsTotalOrder(better) && xs != []
    ensures IsBest(xs, better, best)
  {
    var n := |xs| - 1;
    assert xs == xs[..n] + [xs[n]];
    if n == 0 {
      best := xs[0];
    } else {
      best := SomeBest(xs[..n], better);
      best := if better(xs[n], best) then xs[n] else best;
    }
  }

  lemma {:induction false} RunIsAnElement<T(!new)>(xs: seq<T>, better: (T, T) -> bool, vacant: T -> bool, none: T)
    requires xs != [] && vacant(none)
    ensures Run(xs, better, vacant, none) in xs
  {
    var n := |xs| - 1;
    if n > 0 {
      RunIsAnElement(xs[..n], better, vacant, none);
      assert forall x :: x in xs[..n] ==> x in xs;
    }
  }

  /** From where the best has appeared, a best that does not look vacant stays. */
  lemma {:induction false} SolidBestWins<T(!new)>(
    xs: seq<T>, better: (T, T) -> bool, vacant: T -> bool, none: T, best: T)
    requires IsTotalOrder(better) && vacant(none) && !vacant(best)
    requires best in xs && forall x :: x in xs ==> x == best || better(best, x)
    ensures Run(xs, better, vacant, none) == best
  {
    var n := |xs| - 1;
    assert xs == xs[..n] + [xs[n]];
    if best in xs[..n] {
      SolidBestWins(xs[..n], better, vacant, none, best);
    } else if n > 0 {
      RunIsAnElement(xs[..n], better, vacant, none);
      assert Run(xs[..n], better, vacant, none) in xs;
    }
  }

  /** The loop ends with the best exactly when the best does not look vacant or nothing follows it. */
  lemma RunIsBestIff<T(!new)>(xs: seq<T>, better: (T, T) -> bool, vacant: T -> bool, none: T, best: T)
    requires IsTotalOrder(better) && vacant(none) && IsBest(xs, better, best)
    ensures Run(xs, better, vacant, none) == best <==> !vacant(best) || xs[|xs| - 1] == best
  {
    var n := |xs| - 1;
    assert xs == xs[..n] + [xs[n]];
    if !vacant(best) {
      SolidBestWins(xs, better, vacant, none, best);
    } else if n > 0 {
      RunIsAnElement(xs[..n], better, vacant, none);
      assert Run(xs[..n], better, vacant, none) in xs;
    }
  }

  // ---- What the loop shows of its result ----

  /** Nothing after the element is better than it, the last one aside. */
  ghost predicate Unbeaten<T(!new)>(xs: seq<T>, better: (T, T) -> bool, p: nat)
    requires p < |xs|
  {
    forall k :: p < k < |xs| ==> !better(xs[k], xs[p])
  }

  /** An element that does not look vacant, is better than the last, and is not beaten in between. */
  ghost predicate Outlasts<T(!new)>(xs: seq<T>, better: (T, T) -> bool, vacant: T -> bool, p: nat)
    requires p < |xs|
  {
    p < |xs| - 1 && !vacant(xs[p]) && better(xs[p], xs[|xs| - 1]) && Unbeaten(xs[..|xs| - 1], better, p)
  }

  /** A best that does not look vacant is held from where nothing beats it any more. */
  lemma {:induction false} HeldFrom<T(!new)>(xs: seq<T>, better: (T, T) -> bool, vacant: T -> bool, none: T)
    returns (p: nat)
    requires IsTotalOrder(better) && vacant(none) && !vacant(Run(xs, better, vacant, none))
    ensures p < |xs| && xs[p] == Run(xs, better, vacant, none) && Unbeaten(xs, better, p)
  {
    var n := |xs| - 1;
    var before := Run(xs[..n], better, vacant, none);
    if vacant(before) || better(xs[n], before) {
      p := n;
    } else {
      p := HeldFrom(xs[..n], better, vacant, none);
      assert forall k :: p < k < n ==> xs[k] == xs[..n][k];
    }
  }

  /** The loop ends with an unbeaten element or a better one. */
  lemma {:induction false} UnbeatenStays<T(!new)>(
    xs: seq<T>, better: (T, T) -> bool, vacant: T -> bool, none: T, p: nat)
    requires IsTotalOrder(better) && p < |xs| && !vacant(xs[p]) && Unbeaten(xs, better, p)
    ensures var held := Run(xs, better, vacant, none); !vacant(held) && (held == xs[p] || better(held, xs[p]))
  {
    var n := |xs| - 1;
    if p < n {
      assert forall k :: p <= k < n ==> xs[..n][k] == xs[k];
      UnbeatenStays(xs[..n], better, vacant, none, p);
    }
  }

  /** The loop ends with the last element exactly when no earlier one outlasts it. */
  lemma RunIsLastIff<T(!new)>(xs: seq<T>, better: (T, T) -> bool, vacant: T -> bool, none: T)
    requires IsTotalOrder(better) && vacant(none) && xs != []
    ensures Run(xs, better, vacant, none) == xs[|xs| - 1]
       <==> forall p :: 0 <= p < |xs| ==> !Outlasts(xs, better, vacant, p)
  {
    var n := |xs| - 1;
    var before := Run(xs[..n], better, vacant, none);
    if !vacant(before) && better(before, xs[n]) {
      var p := HeldFrom(xs[..n], better, vacant, none);
      assert Outlasts(xs, better, vacant, p);
    }
    if p :| 0 <= p < |xs| && Outlasts(xs, better, vacant, p) {
      UnbeatenStays(xs[..n], better, vacant, none, p);
    }
  }

  /**
   What is shown of the result is shown of the best, exactly when the best does not look vacant, or the last
   element shows the same and nothing outlasts it.
   */
  lemma RunShowsBestIff<T(!new), V>(
    xs: seq<T>, better: (T, T) -> bool, vacant: T -> bool, none: T, best: T, shown: T -> V)
    requires IsTotalOrder(better) && vacant(none) && IsBest(xs, better, best)
    requires forall x, y :: shown(x) == shown(y) ==> vacant(x) == vacant(y)
    ensures shown(Run(xs, better, vacant, none)) == shown(best)
       <==> (!vacant(best)
             || (shown(xs[|xs| - 1]) == shown(best) && forall p :: 0 <= p < |xs| ==> !Outlasts(xs, better, vacant, p)))
  {
    if !vacant(best) {
      SolidBestWins(xs, better, vacant, none, best);
    } else {
      RunIsLastIff(xs, better, vacant, none);
      assert vacant(Run(xs, better, vacant, none)) ==> Run(xs, better, vacant, none) == xs[|xs| - 1];
    }
  }

  /** A solid best is found whatever the order. */
  lemma OrderDoesNotMatter<T(!new)>(xs: seq<T>, ys: seq<T>, better: (T, T) -> bool, vacant: T -> bool, none: T, best: T)
    requires IsTotalOrder(better) && vacant(none) && IsBest(xs, better, best) && !vacant(best)
    requires forall x :: x in xs <==> x in ys
    ensures Run(xs, better, vacant, none) == Run(ys, better, vacant, none) == best
  {
    SolidBestWins(xs, better, vacant, none, best);
    SolidBestWins(ys, better, vacant, none, best);
  }
}
