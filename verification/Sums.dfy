/** Sums over sequences, and how one update changes them. */
module Sums {

  function Total<T>(weight: T -> int, xs: seq<T>): int {
    if xs == [] then 0 else weight(xs[0]) + Total(weight, xs[1..])
  }

  lemma {:induction false} TotalAfterUpdate<T>(weight: T -> int, xs: seq<T>, i: nat, x: T)
    requires i < |xs|
    ensures Total(weight, xs[i := x]) == Total(weight, xs) - weight(xs[i]) + weight(x)
  {
    if i == 0 {
      assert xs[i := x][1..] == xs[1..];
    } else {
      assert xs[i := x][1..] == xs[1..][i - 1 := x];
      TotalAfterUpdate(weight, xs[1..], i - 1, x);
    }
  }

  lemma {:induction false} TotalOfZeros<T>(weight: T -> int, xs: seq<T>)
    requires forall i :: 0 <= i < |xs| ==> weight(xs[i]) == 0
    ensures Total(weight, xs) == 0
  {
    if xs != [] {
      TotalOfZeros(weight, xs[1..]);
    }
  }

  lemma {:induction false} TotalIsNotNegative<T>(weight: T -> int, xs: seq<T>)
    requires forall i :: 0 <= i < |xs| ==> weight(xs[i]) >= 0
    ensures Total(weight, xs) >= 0
  {
    if xs != [] {
      TotalIsNotNegative(weight, xs[1..]);
    }
  }
}
