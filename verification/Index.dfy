/** The server's index as a value: what one `addBook` does, and what a whole stream of them leaves. */
module Index {
  import opened CStrings
  import opened Sorting
  import opened WireFormat

  datatype Key = Key(n: int32, m: int32, k: int32)

  function KeyOf(book: Book): Key {
    Key(book.n, book.m, book.k)
  }

  ghost predicate HasKey(books: seq<Book>, key: Key) {
    exists b :: b in books && KeyOf(b) == key
  }

  /** `bookComparator`. */
  predicate NameLe(a: Book, b: Book) {
    StrLe(a.name, b.name)
  }

  ghost predicate DistinctKeys(books: seq<Book>) {
    forall i, j :: 0 <= i < j < |books| ==> KeyOf(books[i]) != KeyOf(books[j])
  }

  ghost predicate IsIndex(books: seq<Book>) {
    SortedBy(NameLe, books) && DistinctKeys(books)
  }

  /** A known key changes nothing; a new book goes in and everything is sorted again, ties in any order. */
  ghost predicate AddedTo(before: seq<Book>, book: Book, after: seq<Book>) {
    if HasKey(before, KeyOf(book)) then after == before
    else SortOf(NameLe, before + [book], after)
  }

  lemma NamesAreOrdered()
    ensures TotalPreorder(NameLe)
  {
    forall a, b
      ensures NameLe(a, b) || NameLe(b, a)
    {
      StrcmpFlips(a.name, b.name);
    }
    forall a, b, c | NameLe(a, b) && NameLe(b, c)
      ensures NameLe(a, c)
    {
      StrLeTransitive(a.name, b.name, c.name);
    }
  }

  lemma SameMembers<T>(s: seq<T>, t: seq<T>)
    requires multiset(s) == multiset(t)
    ensures |s| == |t| && forall x :: x in s <==> x in t
  {
    assert |multiset(s)| == |multiset(t)|;
    assert forall x :: x in s <==> x in multiset(s);
    assert forall x :: x in t <==> x in multiset(t);
  }

  lemma CountAround<T>(s: seq<T>, i: nat)
    requires i < |s|
    ensures multiset(s) == multiset(s[..i]) + multiset(s[i + 1..]) + multiset{s[i]}
  {
    assert s == s[..i] + [s[i]] + s[i + 1..];
  }

  lemma CountsOnce(books: seq<Book>, b: Book)
    requires DistinctKeys(books) && b in books
    ensures multiset(books)[b] == 1
  {
    var i :| 0 <= i < |books| && books[i] == b;
    CountAround(books, i);
    assert b !in books[..i] && b !in books[i + 1..];
  }

  lemma CountsTwice<T>(s: seq<T>, i: nat, j: nat)
    requires i < j < |s| && s[i] == s[j]
    ensures multiset(s)[s[i]] >= 2
  {
    CountAround(s, j);
    assert s[..j][i] == s[i];
  }

  /** Distinctness of keys does not depend on the order. */
  lemma DistinctKeysAnyOrder(before: seq<Book>, after: seq<Book>)
    requires multiset(before) == multiset(after) && DistinctKeys(before)
    ensures DistinctKeys(after)
  {
    SameMembers(before, after);
    forall i, j | 0 <= i < j < |after|
      ensures KeyOf(after[i]) != KeyOf(after[j])
    {
      assert after[i] in before && after[j] in before;
      if after[i] == after[j] {
        CountsTwice(after, i, j);
        CountsOnce(before, after[i]);
      }
    }
  }

  /** What every `addBook` keeps and gains. */
  lemma AddKeepsIndex(before: seq<Book>, book: Book, after: seq<Book>)
    requires IsIndex(before) && AddedTo(before, book, after)
    ensures IsIndex(after) && HasKey(after, KeyOf(book))
    ensures multiset(before) <= multiset(after)
    ensures forall b :: b in after ==> b in before || b == book
  {
    if !HasKey(before, KeyOf(book)) {
      SameMembers(before + [book], after);
      forall b | b in before
        ensures KeyOf(b) != KeyOf(book)
      {}
      DistinctKeysAnyOrder(before + [book], after);
      assert book in after;
    }
  }

  // Streams of additions.

  /** The first book of each key, in order of arrival. */
  function Firsts(stream: seq<Book>): seq<Book> {
    if stream == [] then [] else
      var earlier, last := Firsts(stream[..|stream| - 1]), stream[|stream| - 1];
      if exists i :: 0 <= i < |earlier| && KeyOf(earlier[i]) == KeyOf(last) then earlier else earlier + [last]
  }

  /** Handling `stream`, book by book, from an empty library can leave `index`. */
  ghost predicate Leaves(stream: seq<Book>, index: seq<Book>) {
    if stream == [] then index == [] else
      exists middle {:trigger AddedTo(middle, stream[|stream| - 1], index)} ::
        && Leaves(stream[..|stream| - 1], middle)
        && AddedTo(middle, stream[|stream| - 1], index)
  }

  lemma {:induction false} FirstsHaveTheKeys(stream: seq<Book>)
    ensures DistinctKeys(Firsts(stream))
    ensures forall b :: b in Firsts(stream) ==> b in stream
    ensures forall b :: b in stream ==> HasKey(Firsts(stream), KeyOf(b))
  {
    if stream != [] {
      var earlier, last := stream[..|stream| - 1], stream[|stream| - 1];
      FirstsHaveTheKeys(earlier);
      assert stream == earlier + [last];
      forall b | b in stream
        ensures HasKey(Firsts(stream), KeyOf(b))
      {
        if b in earlier {
          var c :| c in Firsts(earlier) && KeyOf(c) == KeyOf(b);
          assert c in Firsts(stream);
        } else {
          assert last in Firsts(stream) || HasKey(Firsts(earlier), KeyOf(last));
        }
      }
    }
  }

  lemma HasKeyAnyOrder(x: seq<Book>, y: seq<Book>, key: Key)
    requires multiset(x) == multiset(y)
    ensures HasKey(x, key) <==> HasKey(y, key)
  {
    SameMembers(x, y);
  }

  /** Exactly the ordered rearrangements of the first book of each key, and nothing else, can be left. */
  lemma {:induction false} LeavesExactly(stream: seq<Book>, index: seq<Book>)
    ensures Leaves(stream, index) <==> SortOf(NameLe, Firsts(stream), index)
    decreases |stream|
  {
    if stream == [] {
      assert |index| == |multiset(index)|;
    } else {
      var earlier, last := stream[..|stream| - 1], stream[|stream| - 1];
      if Leaves(stream, index) {
        var middle :| Leaves(earlier, middle) && AddedTo(middle, last, index);
        LeavesExactly(earlier, middle);
        HasKeyAnyOrder(middle, Firsts(earlier), KeyOf(last));
      }
      if SortOf(NameLe, Firsts(stream), index) {
        if HasKey(Firsts(earlier), KeyOf(last)) {
          LeavesExactly(earlier, index);
          HasKeyAnyOrder(index, Firsts(earlier), KeyOf(last));
          assert AddedTo(index, last, index);
        } else {
          NamesAreOrdered();
          var middle := Sorted(NameLe, Firsts(earlier));
          SortedIsSorted(NameLe, Firsts(earlier));
          LeavesExactly(earlier, middle);
          HasKeyAnyOrder(middle, Firsts(earlier), KeyOf(last));
          assert AddedTo(middle, last, index);
        }
      }
    }
  }
}
