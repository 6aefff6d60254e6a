/** A value or its absence. */
module Wrappers {
  datatype Option<+T> = None | Some(value: T)
}

/** Account addresses. */
module Addresses {
  type Address = nat
}

/** A few facts about finite collections. */
module Collections {
  ghost predicate NoRepeats<T>(xs: seq<T>) {
    forall i, j :: 0 <= i < j < |xs| ==> xs[i] != xs[j]
  }

  function Flatten<T>(parts: seq<seq<T>>): seq<T> {
    if parts == [] then [] else Flatten(parts[..|parts| - 1]) + parts[|parts| - 1]
  }

  lemma SubsetSize<T>(a: set<T>, b: set<T>)
    requires a <= b
    ensures |a| <= |b|
  {
    assert a + (b - a) == b;
  }
}

/** Division of natural numbers, by the bounds that define it. */
module Naturals {
  function Quotient(n: nat, d: nat): (q: nat)
    requires d > 0
    ensures q * d <= n < q * d + d
  {
    DivisionIsBounded(n, d);
    n / d
  }

  function Remainder(n: nat, d: nat): (r: nat)
    requires d > 0
    ensures r < d && n == Quotient(n, d) * d + r
  {
    n - Quotient(n, d) * d
  }

  lemma DivisionIsBounded(n: nat, d: nat)
    requires d > 0
    ensures n / d >= 0 && (n / d) * d <= n < (n / d) * d + d
  {
  }

  lemma ScaleReflectsOrder(x: nat, y: nat, d: nat)
    requires x * d < y * d
    ensures x < y
  {
  }

  lemma ScaleKeepsOrder(x: nat, y: nat, d: nat)
    requires x <= y
    ensures x * d <= y * d
  {
  }

  lemma QuotientIsUnique(n: nat, d: nat, q: nat)
    requires d > 0 && q * d <= n < q * d + d
    ensures Quotient(n, d) == q
  {
    var p := Quotient(n, d);
    assert (q + 1) * d == q * d + d && (p + 1) * d == p * d + d;
    ScaleReflectsOrder(p, q + 1, d);
    ScaleReflectsOrder(q, p + 1, d);
  }

  lemma QuotientsInOrder(x: nat, y: nat, d: nat)
    requires d > 0 && x <= y
    ensures Quotient(x, d) <= Quotient(y, d) && Quotient(x, d) * d <= Quotient(y, d) * d
  {
    var p, q := Quotient(x, d), Quotient(y, d);
    assert (q + 1) * d == q * d + d;
    ScaleReflectsOrder(p, q + 1, d);
    ScaleKeepsOrder(p, q, d);
  }

  // Multiples of a step up to a number, counted in steps.
  lemma WholeSteps(k: nat, q: nat, step: nat, x: nat)
    requires step > 0 && q == Quotient(x, step)
    ensures k * step <= q * step <==> k <= q
    ensures k * step <= x <==> k <= q
  {
    assert (q + 1) * step == q * step + step;
    if k <= q {
      ScaleKeepsOrder(k, q, step);
    } else {
      ScaleKeepsOrder(q + 1, k, step);
    }
  }
}
