/**
 Weighted sums over sequences. A counter of the program is compared with the
 sum, over all threads, of what each thread has contributed to it so far.
 */
module Sums {
  /** The sum of `w(p, x)` over the elements `x` of `s`; `p` is a parameter handed to every weight. */
  function Sum<P, T>(w: (P, T) -> int, p: P, s: seq<T>): int {
    if s == [] then 0 else Sum(w, p, s[..|s| - 1]) + w(p, s[|s| - 1])
  }

  lemma SumAppend<P, T>(w: (P, T) -> int, p: P, s: seq<T>, x: T)
    ensures Sum(w, p, s + [x]) == Sum(w, p, s) + w(p, x)
  {
    assert (s + [x])[..|s|] == s;
  }

  lemma {:induction false} SumUpdate<P, T>(w: (P, T) -> int, p: P, s: seq<T>, i: nat, x: T)
    requires i < |s|
    ensures Sum(w, p, s[i := x]) == Sum(w, p, s) - w(p, s[i]) + w(p, x)
  {
    var last := |s| - 1;
    if i == last {
      assert s[i := x][..last] == s[..last];
    } else {
      assert s[i := x][..last] == s[..last][i := x];
      SumUpdate(w, p, s[..last], i, x);
    }
  }

  /** Two different elements of a non-negative sum contribute side by side. */
  lemma {:induction false} SumTwo<P, T>(w: (P, T) -> int, p: P, s: seq<T>, i: nat, j: nat)
    requires forall x <- s :: w(p, x) >= 0
    requires i <= j < |s|
    ensures Sum(w, p, s) >= if i == j then w(p, s[i]) else w(p, s[i]) + w(p, s[j])
  {
    var last := |s| - 1;
    if j < last {
      SumTwo(w, p, s[..last], i, j);
    } else if i < last {
      SumTwo(w, p, s[..last], i, i);
    } else {
      SumNonNegative(w, p, s[..last]);
    }
  }

  lemma {:induction false} SumNonNegative<P, T>(w: (P, T) -> int, p: P, s: seq<T>)
    requires forall x <- s :: w(p, x) >= 0
    ensures Sum(w, p, s) >= 0
  {
    if s != [] {
      SumNonNegative(w, p, s[..|s| - 1]);
    }
  }

  lemma {:induction false} SumZero<P, T>(w: (P, T) -> int, p: P, s: seq<T>)
    requires forall x <- s :: w(p, x) == 0
    ensures Sum(w, p, s) == 0
  {
    if s != [] {
      SumZero(w, p, s[..|s| - 1]);
    }
  }

  /** Two weights that add up to a third on every element add up to it in the sum. */
  lemma {:induction false} SumAdd<P, T>(v: (P, T) -> int, w: (P, T) -> int, total: (P, T) -> int, p: P, s: seq<T>)
    requires forall x <- s :: v(p, x) + w(p, x) == total(p, x)
    ensures Sum(v, p, s) + Sum(w, p, s) == Sum(total, p, s)
  {
    if s != [] {
      SumAdd(v, w, total, p, s[..|s| - 1]);
    }
  }

  lemma {:induction false} SumOnes<P, T>(w: (P, T) -> int, p: P, s: seq<T>)
    requires forall x <- s :: w(p, x) == 1
    ensures Sum(w, p, s) == |s|
  {
    if s != [] {
      SumOnes(w, p, s[..|s| - 1]);
    }
  }

  /** A positive sum of non-negative weights has a positive element. */
  lemma {:induction false} SumWitness<P, T>(w: (P, T) -> int, p: P, s: seq<T>) returns (i: nat)
    requires Sum(w, p, s) > 0
    ensures i < |s| && w(p, s[i]) > 0
  {
    var last := |s| - 1;
    if w(p, s[last]) > 0 {
      i := last;
    } else {
      i := SumWitness(w, p, s[..last]);
    }
  }
}
