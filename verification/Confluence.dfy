/** How much of the index depends on the order in which, and how often, books arrive. */
module Confluence {
  import opened CStrings
  import opened Sorting
  import opened StringOrder
  import opened WireFormat
  import opened Index

  ghost predicate SameBooks(s: seq<Book>, t: seq<Book>) {
    forall b :: b in s <==> b in t
  }

  /** Equal keys carry equal names. */
  ghost predicate Consistent(stream: seq<Book>) {
    forall b, c :: b in stream && c in stream && KeyOf(b) == KeyOf(c) ==> b == c
  }

  ghost predicate DistinctNames(stream: seq<Book>) {
    forall b, c :: b in stream && c in stream && b.name == c.name ==> b == c
  }

  function Names(books: seq<Book>): (names: seq<CString>)
    ensures |names| == |books|
  {
    seq(|books|, i requires 0 <= i < |books| => books[i].name)
  }

  lemma FirstsAreTheBooks(stream: seq<Book>)
    requires Consistent(stream)
    ensures DistinctKeys(Firsts(stream)) && SameBooks(Firsts(stream), stream)
  {
    FirstsHaveTheKeys(stream);
    forall b | b in stream
      ensures b in Firsts(stream)
    {
      var c :| c in Firsts(stream) && KeyOf(c) == KeyOf(b);
      assert c in stream;
    }
  }

  lemma SameBooksSameCounts(x: seq<Book>, y: seq<Book>)
    requires DistinctKeys(x) && DistinctKeys(y) && SameBooks(x, y)
    ensures multiset(x) == multiset(y)
  {
    forall b
      ensures multiset(x)[b] == multiset(y)[b]
    {
      if b in x {
        CountsOnce(x, b);
        CountsOnce(y, b);
      } else {
        assert b !in multiset(x) && b !in multiset(y);
      }
    }
  }

  lemma NamesWithout(books: seq<Book>, j: nat)
    requires j < |books|
    ensures multiset(Names(books)) == multiset(Names(books[..j] + books[j + 1..])) + multiset{books[j].name}
  {
    CountAround(Names(books), j);
    assert Names(books[..j] + books[j + 1..]) == Names(books)[..j] + Names(books)[j + 1..];
  }

  lemma NamesOfTail(books: seq<Book>)
    requires books != []
    ensures multiset(Names(books)) == multiset(Names(books[1..])) + multiset{books[0].name}
  {
    assert Names(books) == [books[0].name] + Names(books[1..]);
  }

  lemma {:induction false} NamesAnyOrder(x: seq<Book>, y: seq<Book>)
    requires multiset(x) == multiset(y)
    ensures multiset(Names(x)) == multiset(Names(y))
    decreases |x|
  {
    hide Names;
    SameMembers(x, y);
    if x != [] {
      assert x[0] in y;
      var j :| 0 <= j < |y| && y[j] == x[0];
      var others := y[..j] + y[j + 1..];
      assert multiset(x[1..]) == multiset(others) by {
        CountAround(y, j);
        MultisetOfTail(x);
      }
      NamesAnyOrder(x[1..], others);
      NamesOfTail(x);
      NamesWithout(y, j);
    } else {
      assert y == [];
    }
  }

  lemma SortedNames(books: seq<Book>)
    ensures SortedBy(NameLe, books) <==> SortedBy(StrLe, Names(books))
  {
    forall i, j | 0 <= i < j < |books|
      ensures NameLe(books[i], books[j]) <==> StrLe(Names(books)[i], Names(books)[j])
    {}
  }

  /** Two orderings of the same books differ at most in the order under one name. */
  lemma OrderedTwice(x: seq<Book>, y: seq<Book>)
    requires multiset(x) == multiset(y) && SortedBy(NameLe, x) && SortedBy(NameLe, y)
    ensures Names(x) == Names(y)
    ensures DistinctNames(x) ==> x == y
  {
    NamesAnyOrder(x, y);
    SortedNames(x);
    SortedNames(y);
    StringOrderIsAntisymmetric();
    SortIsUnique(StrLe, Names(x), Names(y));
    SameMembers(x, y);
    if DistinctNames(x) {
      forall i | 0 <= i < |x|
        ensures x[i] == y[i]
      {
        assert x[i].name == Names(x)[i] == Names(y)[i] == y[i].name;
        assert x[i] in x && y[i] in x;
      }
    }
  }

  /** Any order and any repetition leave the same books and the same sequence of names. */
  lemma IndexIsConfluent(s: seq<Book>, t: seq<Book>, x: seq<Book>, y: seq<Book>)
    requires SameBooks(s, t) && Consistent(s) && Leaves(s, x) && Leaves(t, y)
    ensures multiset(x) == multiset(y) && Names(x) == Names(y)
    ensures SameBooks(x, s)
  {
    LeavesExactly(s, x);
    LeavesExactly(t, y);
    SameFirsts(s, t);
    SameMembers(x, Firsts(s));
    FirstsAreTheBooks(s);
    OrderedTwice(x, y);
  }

  lemma SameFirsts(s: seq<Book>, t: seq<Book>)
    requires SameBooks(s, t) && Consistent(s)
    ensures multiset(Firsts(s)) == multiset(Firsts(t))
  {
    FirstsAreTheBooks(s);
    FirstsAreTheBooks(t);
    SameBooksSameCounts(Firsts(s), Firsts(t));
  }

  lemma DistinctNamesOfSame(s: seq<Book>, t: seq<Book>)
    requires SameBooks(s, t)
    ensures DistinctNames(s) <==> DistinctNames(t)
  {}

  /** Without any assumption on keys: the first book of each key decides what two servers have in common. */
  lemma IndexesAgreeExactlyWhen(s: seq<Book>, t: seq<Book>, x: seq<Book>, y: seq<Book>)
    requires Leaves(s, x) && Leaves(t, y)
    ensures multiset(x) == multiset(y) <==> multiset(Firsts(s)) == multiset(Firsts(t))
    ensures multiset(x) == multiset(y) ==> Names(x) == Names(y)
    ensures multiset(x) == multiset(y) && DistinctNames(Firsts(s)) ==> x == y
  {
    LeavesExactly(s, x);
    LeavesExactly(t, y);
    if multiset(x) == multiset(y) {
      OrderedTwice(x, y);
      SameMembers(x, Firsts(s));
      DistinctNamesOfSame(x, Firsts(s));
    }
  }

  lemma OneIndexWhenNamesDiffer(s: seq<Book>, t: seq<Book>, x: seq<Book>, y: seq<Book>)
    requires SameBooks(s, t) && Consistent(s) && Leaves(s, x) && Leaves(t, y) && DistinctNames(s)
    ensures x == y
  {
    SameFirsts(s, t);
    FirstsAreTheBooks(s);
    DistinctNamesOfSame(Firsts(s), s);
    IndexesAgreeExactlyWhen(s, t, x, y);
  }

  lemma Swapped(x: seq<Book>, i: nat, j: nat)
    requires i < |x| && j < |x| && x[i].name == x[j].name
    ensures multiset(x[i := x[j]][j := x[i]]) == multiset(x)
    ensures Names(x[i := x[j]][j := x[i]]) == Names(x)
  {}

  lemma SomethingIsLeft(stream: seq<Book>) returns (index: seq<Book>)
    ensures Leaves(stream, index)
  {
    NamesAreOrdered();
    SortedIsSorted(NameLe, Firsts(stream));
    index := Sorted(NameLe, Firsts(stream));
    LeavesExactly(stream, index);
  }

  /** Two indexed books under one name: the tie can fall either way. */
  lemma TwoIndexesWhenNamesCoincide(s: seq<Book>) returns (x: seq<Book>, y: seq<Book>)
    requires !DistinctNames(Firsts(s))
    ensures Leaves(s, x) && Leaves(s, y) && x != y
  {
    var b, c :| b in Firsts(s) && c in Firsts(s) && b.name == c.name && b != c;
    x := SomethingIsLeft(s);
    LeavesExactly(s, x);
    SameMembers(x, Firsts(s));
    var i :| 0 <= i < |x| && x[i] == b;
    var j :| 0 <= j < |x| && x[j] == c;
    y := x[i := c][j := b];
    Swapped(x, i, j);
    SortedNames(x);
    SortedNames(y);
    LeavesExactly(s, y);
    assert y[j] == b;
  }

  lemma {:induction false} FirstsAreNoLonger(stream: seq<Book>)
    ensures |Firsts(stream)| <= |stream|
  {
    if stream != [] {
      FirstsAreNoLonger(stream[..|stream| - 1]);
    }
  }

  lemma LeftIsCountable(stream: seq<Book>, index: seq<Book>)
    requires Countable(stream) && Leaves(stream, index)
    ensures Countable(index)
  {
    LeavesExactly(stream, index);
    SameMembers(index, Firsts(stream));
    FirstsAreNoLonger(stream);
  }

  ghost predicate AlwaysSameSnapshot(s: seq<Book>, t: seq<Book>) {
    forall x, y :: Leaves(s, x) && Leaves(t, y) && Countable(x) && Countable(y) ==>
      EncodeLibrary(x) == EncodeLibrary(y)
  }

  lemma SnapshotFollowsIndex(x: seq<Book>, y: seq<Book>)
    requires Countable(x) && Countable(y)
    ensures EncodeLibrary(x) == EncodeLibrary(y) <==> x == y
  {
    EncodingsAreApart(x, y, [], []);
    assert EncodeLibrary(x) + [] == EncodeLibrary(x);
    assert EncodeLibrary(y) + [] == EncodeLibrary(y);
  }

  lemma TwoSnapshots(s: seq<Book>, t: seq<Book>, x: seq<Book>, x': seq<Book>, y: seq<Book>)
    requires Leaves(s, x) && Leaves(s, x') && Leaves(t, y) && x != x'
    requires Countable(x) && Countable(x') && Countable(y)
    ensures !AlwaysSameSnapshot(s, t)
  {
    hide EncodeLibrary, Leaves;
    SnapshotFollowsIndex(x, x');
    assert EncodeLibrary(x) != EncodeLibrary(y) || EncodeLibrary(x') != EncodeLibrary(y);
  }

  lemma TwoSnapshotsWhenNamesCoincide(s: seq<Book>, t: seq<Book>)
    requires Countable(s) && Countable(t) && !DistinctNames(Firsts(s))
    ensures !AlwaysSameSnapshot(s, t)
  {
    hide EncodeLibrary, Leaves, DistinctNames, AlwaysSameSnapshot;
    var x, x' := TwoIndexesWhenNamesCoincide(s);
    var y := SomethingIsLeft(t);
    LeftIsCountable(s, x);
    LeftIsCountable(s, x');
    LeftIsCountable(t, y);
    TwoSnapshots(s, t, x, x', y);
  }

  /**
   * Snapshots are byte-for-byte fixed exactly when the two streams agree on the first book of each key and
   * those books have pairwise distinct names.
   */
  lemma SnapshotIsFixedExactlyWhen(s: seq<Book>, t: seq<Book>)
    requires Countable(s) && Countable(t)
    ensures AlwaysSameSnapshot(s, t) <==> multiset(Firsts(s)) == multiset(Firsts(t)) && DistinctNames(Firsts(s))
  {
    hide EncodeLibrary, Leaves, DistinctNames;
    if !DistinctNames(Firsts(s)) {
      TwoSnapshotsWhenNamesCoincide(s, t);
    } else if multiset(Firsts(s)) == multiset(Firsts(t)) {
      forall x, y | Leaves(s, x) && Leaves(t, y)
        ensures x == y
      {
        IndexesAgreeExactlyWhen(s, t, x, y);
      }
    } else {
      var x := SomethingIsLeft(s);
      var y := SomethingIsLeft(t);
      IndexesAgreeExactlyWhen(s, t, x, y);
      LeftIsCountable(s, x);
      LeftIsCountable(t, y);
      SnapshotFollowsIndex(x, y);
    }
  }

  /** Where a key determines its book: exactly when the names of the books are pairwise distinct. */
  lemma SetOfBooksFixesSnapshotExactlyWhen(s: seq<Book>, t: seq<Book>)
    requires SameBooks(s, t) && Consistent(s) && Countable(s) && Countable(t)
    ensures AlwaysSameSnapshot(s, t) <==> DistinctNames(s)
  {
    hide AlwaysSameSnapshot, DistinctNames, Consistent;
    SnapshotIsFixedExactlyWhen(s, t);
    SameFirsts(s, t);
    FirstsAreTheBooks(s);
    DistinctNamesOfSame(Firsts(s), s);
  }

  /** Where it does not, even distinct names leave the winner to the order of arrival. */
  lemma FirstArrivalWins(b: Book, c: Book)
    requires KeyOf(b) == KeyOf(c) && b.name != c.name
    ensures SameBooks([b, c], [c, b]) && DistinctNames([b, c])
    ensures Leaves([b, c], [b]) && Leaves([c, b], [c]) && !AlwaysSameSnapshot([b, c], [c, b])
  {
    hide AlwaysSameSnapshot;
    FirstOfTwo(b, c);
    FirstOfTwo(c, b);
    SnapshotIsFixedExactlyWhen([b, c], [c, b]);
    assert b in multiset([b]) && b !in multiset([c]);
  }

  lemma FirstOfTwo(b: Book, c: Book)
    requires KeyOf(b) == KeyOf(c)
    ensures Firsts([b, c]) == [b] && Leaves([b, c], [b])
  {
    assert [b, c][..1] == [b] && [b][..0] == [];
    assert Firsts([]) == [];
    assert Firsts([b]) == [b];
    LeavesExactly([b, c], [b]);
  }
}
