/** The contract of `qsort`, and how much of the result it fixes. */
module Sorting {

  ghost predicate TotalPreorder<T(!new)>(le: (T, T) -> bool) {
    && (forall x, y :: le(x, y) || le(y, x))
    && (forall x, y, z :: le(x, y) && le(y, z) ==> le(x, z))
  }

  ghost predicate Antisymmetric<T(!new)>(le: (T, T) -> bool) {
    forall x, y :: le(x, y) && le(y, x) ==> x == y
  }

  ghost predicate SortedBy<T(!new)>(le: (T, T) -> bool, s: seq<T>) {
    forall i, j :: 0 <= i < j < |s| ==> le(s[i], s[j])
  }

  /** All that a caller may rely on: `after` is an ordered rearrangement of `before`. */
  ghost predicate SortOf<T(!new)>(le: (T, T) -> bool, before: seq<T>, after: seq<T>) {
    SortedBy(le, after) && multiset(after) == multiset(before)
  }

  function Insert<T(!new)>(le: (T, T) -> bool, x: T, s: seq<T>): (r: seq<T>)
    ensures multiset(r) == multiset(s) + multiset{x}
  {
    if s == [] || le(x, s[0]) then [x] + s else
      assert s == [s[0]] + s[1..];
      [s[0]] + Insert(le, x, s[1..])
  }

  lemma {:induction false} InsertKeepsOrder<T(!new)>(le: (T, T) -> bool, x: T, s: seq<T>)
    requires TotalPreorder(le) && SortedBy(le, s)
    ensures SortedBy(le, Insert(le, x, s))
  {
    if s != [] && !le(x, s[0]) {
      var rest := Insert(le, x, s[1..]);
      InsertKeepsOrder(le, x, s[1..]);
      forall y | y in rest
        ensures le(s[0], y)
      {
        assert y in multiset(s[1..]) + multiset{x};
      }
    }
  }

  function Sorted<T(!new)>(le: (T, T) -> bool, s: seq<T>): (r: seq<T>)
    ensures multiset(r) == multiset(s)
  {
    if s == [] then [] else
      assert s == [s[0]] + s[1..];
      Insert(le, s[0], Sorted(le, s[1..]))
  }

  lemma {:induction false} SortedIsSorted<T(!new)>(le: (T, T) -> bool, s: seq<T>)
    requires TotalPreorder(le)
    ensures SortOf(le, s, Sorted(le, s))
  {
    if s != [] {
      SortedIsSorted(le, s[1..]);
      InsertKeepsOrder(le, s[0], Sorted(le, s[1..]));
    }
  }

  function SortedCopy<T(!new)>(le: (T, T) -> bool, s: seq<T>): (r: seq<T>)
    requires TotalPreorder(le)
    ensures SortOf(le, s, r) && |r| == |s|
  {
    SortedIsSorted(le, s);
    assert |multiset(Sorted(le, s))| == |multiset(s)|;
    Sorted(le, s)
  }

  /** `qsort(a + lo, hi - lo, ...)`: ties may end in any order, so none is promised. */
  method Qsort<T(!new)>(a: array<T>, lo: nat, hi: nat, le: (T, T) -> bool)
    requires lo <= hi <= a.Length && TotalPreorder(le)
    modifies a
    ensures SortOf(le, old(a[lo..hi]), a[lo..hi])
    ensures a[..lo] == old(a[..lo]) && a[hi..] == old(a[hi..])
  {
    hide TotalPreorder, SortOf, Sorted;
    var s := SortedCopy(le, a[lo..hi]);
    for i := 0 to hi - lo
      invariant a[lo..lo + i] == s[..i]
      invariant a[..lo] == old(a[..lo]) && a[hi..] == old(a[hi..])
    {
      a[lo + i] := s[i];
    }
    assert s[..hi - lo] == s;
  }

  lemma MultisetOfTail<T>(s: seq<T>)
    requires s != []
    ensures multiset(s[1..]) == multiset(s) - multiset{s[0]}
  {
    assert s == [s[0]] + s[1..];
  }

  /** With an antisymmetric order nothing is left open: there is one ordered rearrangement. */
  lemma {:induction false} SortIsUnique<T(!new)>(le: (T, T) -> bool, s: seq<T>, t: seq<T>)
    requires Antisymmetric(le) && TotalPreorder(le)
    requires SortedBy(le, s) && SortOf(le, s, t)
    ensures s == t
  {
    assert |multiset(s)| == |multiset(t)|;
    if s != [] {
      assert s[0] in multiset(t) && t[0] in multiset(s);
      assert le(s[0], t[0]) && le(t[0], s[0]);
      MultisetOfTail(s);
      MultisetOfTail(t);
      SortIsUnique(le, s[1..], t[1..]);
      assert s == [s[0]] + s[1..] && t == [t[0]] + t[1..];
    }
  }
}
