/** Repeated application, and the two algebraic facts the checksum needs of it. */
module Folds {

  function Iterate<S>(f: S -> S, s: S, times: nat): S
    decreases times
  {
    if times == 0 then s else Iterate(f, f(s), times - 1)
  }

  function Fold<S, E>(f: (S, E) -> S, s: S, items: seq<E>): S
    decreases |items|
  {
    if items == [] then s else Fold(f, f(s, items[0]), items[1..])
  }

  ghost predicate Injective<S(!new)>(f: S -> S) {
    forall x, y :: f(x) == f(y) ==> x == y
  }

  ghost predicate Additive<S(!new)>(f: S -> S, plus: (S, S) -> S) {
    forall x, y :: f(plus(x, y)) == plus(f(x), f(y))
  }

  lemma {:induction false} IterateIsAdditive<S(!new)>(f: S -> S, plus: (S, S) -> S, a: S, b: S, times: nat)
    requires Additive(f, plus)
    ensures Iterate(f, plus(a, b), times) == plus(Iterate(f, a, times), Iterate(f, b, times))
    decreases times
  {
    if times > 0 {
      IterateIsAdditive(f, plus, f(a), f(b), times - 1);
    }
  }

  lemma {:induction false} IterateIsInjective<S(!new)>(f: S -> S, a: S, b: S, times: nat)
    requires Injective(f) && Iterate(f, a, times) == Iterate(f, b, times)
    ensures a == b
    decreases times
  {
    if times > 0 {
      IterateIsInjective(f, f(a), f(b), times - 1);
    }
  }

  lemma {:induction false} IterateTwice<S>(f: S -> S, s: S, first: nat, second: nat)
    ensures Iterate(f, s, first + second) == Iterate(f, Iterate(f, s, first), second)
    decreases first
  {
    if first > 0 {
      IterateTwice(f, f(s), first - 1, second);
    }
  }

  lemma {:induction false} IterateAlong<S>(f: S -> S, path: seq<S>)
    requires path != [] && forall i :: 0 <= i < |path| - 1 ==> f(path[i]) == path[i + 1]
    ensures Iterate(f, path[0], |path| - 1) == path[|path| - 1]
    decreases |path|
  {
    if |path| > 1 {
      IterateAlong(f, path[1..]);
    }
  }

  lemma {:induction false} FoldOfConcat<S, E>(f: (S, E) -> S, s: S, first: seq<E>, second: seq<E>)
    ensures Fold(f, s, first + second) == Fold(f, Fold(f, s, first), second)
    decreases |first|
  {
    if first == [] {
      assert first + second == second;
    } else {
      FoldOfConcat(f, f(s, first[0]), first[1..], second);
      assert (first + second)[1..] == first[1..] + second;
    }
  }

  /** Adding the states and the items pointwise adds the results. */
  lemma {:induction false} FoldIsAdditive<S(!new), E(!new)>(f: (S, E) -> S, plus: (S, S) -> S, add: (E, E) -> E,
                                                            a: S, b: S, x: seq<E>, y: seq<E>, sum: seq<E>)
    requires forall r, s, d, e :: f(plus(r, s), add(d, e)) == plus(f(r, d), f(s, e))
    requires |x| == |y| == |sum| && forall i :: 0 <= i < |x| ==> sum[i] == add(x[i], y[i])
    ensures Fold(f, plus(a, b), sum) == plus(Fold(f, a, x), Fold(f, b, y))
    decreases |x|
  {
    if x != [] {
      FoldIsAdditive(f, plus, add, f(a, x[0]), f(b, y[0]), x[1..], y[1..], sum[1..]);
    }
  }

  lemma {:induction false} FoldIsInjective<S(!new), E(!new)>(f: (S, E) -> S, a: S, b: S, items: seq<E>)
    requires forall r, s, e :: f(r, e) == f(s, e) ==> r == s
    requires Fold(f, a, items) == Fold(f, b, items)
    ensures a == b
    decreases |items|
  {
    if items != [] {
      FoldIsInjective(f, f(a, items[0]), f(b, items[0]), items[1..]);
    }
  }
}
