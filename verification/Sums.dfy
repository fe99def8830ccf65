/** Totals over the elements of a sequence, used to count threads by program counter. */
module Sums {

  /** The total of `f` over all elements of `s`. */
  ghost function Sum<T>(s: seq<T>, f: T -> nat): nat
  {
    if s == [] then 0 else f(s[0]) + Sum(s[1..], f)
  }

  lemma {:induction false} SumUpdate<T>(s: seq<T>, i: nat, x: T, f: T -> nat)
    requires i < |s|
    ensures Sum(s[i := x], f) + f(s[i]) == Sum(s, f) + f(x)
  {
    if i == 0 {
      assert s[i := x][1..] == s[1..];
    } else {
      assert s[i := x][1..] == s[1..][i - 1 := x];
      SumUpdate(s[1..], i - 1, x, f);
    }
  }

  /** A total depends only on the value of `f` at each position. */
  lemma {:induction false} SumPointwise<T>(s: seq<T>, t: seq<T>, f: T -> nat)
    requires |s| == |t|
    requires forall i :: 0 <= i < |s| ==> f(t[i]) == f(s[i])
    ensures Sum(t, f) == Sum(s, f)
  {
    if s != [] {
      SumPointwise(s[1..], t[1..], f);
    }
  }

  /** If `f` never exceeds `b` then the total never exceeds `b` per element. */
  lemma {:induction false} SumBound<T>(s: seq<T>, f: T -> nat, b: nat)
    requires forall x :: x in s ==> f(x) <= b
    ensures Sum(s, f) <= b * |s|
  {
    if s != [] {
      SumBound(s[1..], f, b);
    }
  }
}
