/** Sums of a weight over a sequence, and how they react to an update, a split or a removal. */
module Sums {

  function Sum<T>(f: T -> nat, xs: seq<T>): nat {
    if xs == [] then 0 else f(xs[0]) + Sum(f, xs[1..])
  }

  function Without<T>(xs: seq<T>, i: int): seq<T>
    requires 0 <= i < |xs|
  {
    xs[..i] + xs[i + 1..]
  }

  lemma {:induction false} SumAppend<T>(f: T -> nat, xs: seq<T>, ys: seq<T>)
    ensures Sum(f, xs + ys) == Sum(f, xs) + Sum(f, ys)
  {
    if xs == [] {
      assert xs + ys == ys;
    } else {
      assert (xs + ys)[1..] == xs[1..] + ys;
      SumAppend(f, xs[1..], ys);
    }
  }

  lemma SumAt<T>(f: T -> nat, xs: seq<T>, i: int)
    requires 0 <= i < |xs|
    ensures Sum(f, xs) == Sum(f, xs[..i]) + f(xs[i]) + Sum(f, xs[i + 1..])
  {
    assert xs == xs[..i] + xs[i..];
    SumAppend(f, xs[..i], xs[i..]);
  }

  lemma SumTake<T>(f: T -> nat, xs: seq<T>, i: int)
    requires 0 <= i < |xs|
    ensures Sum(f, xs[..i + 1]) == Sum(f, xs[..i]) + f(xs[i])
  {
    assert xs[..i + 1] == xs[..i] + [xs[i]];
    SumAppend(f, xs[..i], [xs[i]]);
  }

  lemma SumUpdate<T>(f: T -> nat, xs: seq<T>, i: int, x: T)
    requires 0 <= i < |xs|
    ensures Sum(f, xs[i := x]) + f(xs[i]) == Sum(f, xs) + f(x)
  {
    SumAt(f, xs, i);
    SumAt(f, xs[i := x], i);
    assert xs[i := x][..i] == xs[..i];
    assert xs[i := x][i + 1..] == xs[i + 1..];
  }

  lemma SumWithout<T>(f: T -> nat, xs: seq<T>, i: int)
    requires 0 <= i < |xs|
    ensures Sum(f, xs) == Sum(f, Without(xs, i)) + f(xs[i])
  {
    SumAt(f, xs, i);
    SumAppend(f, xs[..i], xs[i + 1..]);
  }

  lemma {:induction false} SumSplit<T>(f: T -> nat, g: T -> nat, h: T -> nat, xs: seq<T>)
    requires forall x | x in xs :: f(x) + g(x) == h(x)
    ensures Sum(f, xs) + Sum(g, xs) == Sum(h, xs)
  {
    if xs != [] {
      SumSplit(f, g, h, xs[1..]);
    }
  }

  lemma {:induction false} SumZero<T>(f: T -> nat, xs: seq<T>)
    ensures Sum(f, xs) == 0 <==> forall x | x in xs :: f(x) == 0
  {
    if xs != [] {
      SumZero(f, xs[1..]);
      assert xs == [xs[0]] + xs[1..];
      assert forall x :: x in xs <==> x == xs[0] || x in xs[1..];
    }
  }

  lemma {:induction false} SumBounded<T>(f: T -> nat, xs: seq<T>)
    requires forall x | x in xs :: f(x) <= 1
    ensures Sum(f, xs) <= |xs|
  {
    if xs != [] {
      SumBounded(f, xs[1..]);
    }
  }

  lemma {:induction false} SumSame<T, U>(f: T -> nat, xs: seq<T>, g: U -> nat, ys: seq<U>)
    requires |xs| == |ys| && forall i | 0 <= i < |xs| :: f(xs[i]) == g(ys[i])
    ensures Sum(f, xs) == Sum(g, ys)
  {
    if xs != [] {
      forall i | 0 <= i < |xs| - 1 ensures f(xs[1..][i]) == g(ys[1..][i]) {
        assert xs[1..][i] == xs[i + 1];
      }
      SumSame(f, xs[1..], g, ys[1..]);
    }
  }
}
