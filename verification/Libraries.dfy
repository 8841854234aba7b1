/** bhw4/liblibrary: the library object, its serializers and `addBook`, in place. */
module Libraries {
  import opened Options
  import opened CStrings
  import opened Sorting
  import opened Buffers
  import opened WireFormat
  import opened Index

  method SerializeBook(book: Book, dest: array<byte>, at: nat) returns (used: nat)
    requires at + |EncodeBook(book)| <= dest.Length
    modifies dest
    ensures dest[..] == Splice(old(dest[..]), at, EncodeBook(book))
    ensures used == |EncodeBook(book)|
  {
    ghost var before := dest[..];
    var n, m, k := EncodeInt(book.n), EncodeInt(book.m), EncodeInt(book.k);
    CopyInto(dest, at, n);
    CopyInto(dest, at + 4, m);
    SpliceTwice(before, at, n, m);
    CopyInto(dest, at + 8, k);
    SpliceTwice(before, at, n + m, k);
    var terminated := book.name + [NUL];
    CopyInto(dest, at + 12, terminated);
    SpliceTwice(before, at, n + m + k, terminated);
    assert EncodeBook(book) == n + m + k + terminated;
    used := 12 + |terminated|;
  }

  method DeserializeBook(source: array<byte>, at: nat) returns (book: Book, used: nat)
    requires at <= source.Length && DecodeBook(source[at..]).Some?
    ensures DecodeBook(source[at..]) == Some(Decoded(book, used))
  {
    var n, m, k := DecodeInt(source[at..]), DecodeInt(source[at..][4..]), DecodeInt(source[at..][8..]);
    var length := Strlen(source[at..][12..]);
    book := Book(n, m, k, source[at..][12..][..length]);
    used := 12 + length + 1;
  }

  class Library {
    var n: int32
    var books: seq<Book>

    /** A deserialized count may be negative; such a library holds no book. */
    ghost predicate Valid()
      reads this
    {
      |books| == if n < 0 then 0 else n as nat
    }

    constructor ()
      ensures Valid() && n == 0 && books == []
    {
      n := 0;
      books := [];
    }

    method Serialize(dest: array<byte>, at: nat) returns (used: nat)
      requires Valid() && n >= 0
      requires at + |EncodeLibrary(books)| <= dest.Length
      modifies dest
      ensures dest[..] == Splice(old(dest[..]), at, EncodeLibrary(books))
      ensures used == |EncodeLibrary(books)|
    {
      hide EncodeBook, EncodeBooks, EncodeInt, Splice;
      ghost var before := dest[..];
      ghost var done := EncodeInt(n);
      CopyInto(dest, at, EncodeInt(n));
      used := 4;
      assert books[0..] == books;
      for i := 0 to n as int
        invariant used == |done| && EncodeLibrary(books) == done + EncodeBooks(books[i..])
        invariant dest[..] == Splice(before, at, done)
      {
        EncodeFrom(books, i, done);
        var bookUsed := SerializeBook(books[i], dest, at + used);
        SpliceTwice(before, at, done, EncodeBook(books[i]));
        done := done + EncodeBook(books[i]);
        used := used + bookUsed;
      }
      EncodeNothing(books[n as int..]);
      assert done + [] == done;
    }

    method AddBook(book: Book)
      requires Valid() && 0 <= n < 0x7FFF_FFFF
      modifies this
      ensures Valid() && n >= 0
      ensures AddedTo(old(books), book, books)
    {
      for i := 0 to n as int
        invariant forall j :: 0 <= j < i ==> KeyOf(books[j]) != KeyOf(book)
      {
        if book.n == books[i].n && book.m == books[i].m && book.k == books[i].k {
          assert books[i] in books;
          return;
        }
      }
      n := n + 1;
      var grown := books + [book];
      var pointers := new Book[n](i requires 0 <= i < |grown| => grown[i]);
      assert pointers[..] == pointers[0..pointers.Length] == grown;
      NamesAreOrdered();
      Qsort(pointers, 0, pointers.Length, NameLe);
      books := pointers[..];
      assert books == pointers[0..pointers.Length];
      SameMembers(grown, books);
    }
  }

  lemma EncodeNothing(books: seq<Book>)
    requires books == []
    ensures EncodeBooks(books) == []
  {}

  lemma EncodeFrom(books: seq<Book>, i: nat, done: seq<byte>)
    requires i < |books|
    ensures done + EncodeBooks(books[i..]) == done + EncodeBook(books[i]) + EncodeBooks(books[i + 1..])
  {
    hide EncodeBook;
    assert books[i..][1..] == books[i + 1..];
  }

  /** The library that results once `count` more books are read from `source`. */
  ghost function Completed(books: seq<Book>, used: nat, count: int, source: seq<byte>): Option<Decoded<seq<Book>>> {
    match DecodeBooks(count, source)
    case None => None
    case Some(rest) => Some(Decoded(books + rest.value, used + rest.used))
  }

  lemma CompletedAtStart(source: seq<byte>)
    requires |source| >= 4
    ensures Completed([], 4, DecodeInt(source) as int, source[4..]) == DecodeLibrary(source)
  {
    hide DecodeBooks, DecodeInt;
    match DecodeBooks(DecodeInt(source) as int, source[4..])
    case None =>
    case Some(rest) => assert [] + rest.value == rest.value;
  }

  lemma CompletedStep(books: seq<Book>, used: nat, count: int, source: seq<byte>)
    requires count > 0 && Completed(books, used, count, source).Some?
    ensures DecodeBook(source).Some?
    ensures
      var first := DecodeBook(source).value;
      Completed(books + [first.value], used + first.used, count - 1, source[first.used..])
      == Completed(books, used, count, source)
  {
    hide DecodeBook;
    var first := DecodeBook(source).value;
    var rest := DecodeBooks(count - 1, source[first.used..]).value;
    assert books + [first.value] + rest.value == books + ([first.value] + rest.value);
  }

  method DeserializeLibrary(source: array<byte>, at: nat) returns (library: Library, used: nat)
    requires at <= source.Length && DecodeLibrary(source[at..]).Some?
    ensures fresh(library) && library.Valid() && library.n == DecodeInt(source[at..])
    ensures DecodeLibrary(source[at..]) == Some(Decoded(library.books, used))
  {
    hide DecodeInt, DecodeBook, DecodeBooks;
    var bytes := source[at..];
    var n := DecodeInt(bytes);
    used := 4;
    var books: seq<Book> := [];
    CompletedAtStart(bytes);
    ghost var whole := DecodeLibrary(bytes);
    for i := 0 to if n < 0 then 0 else n as int
      invariant |books| == i && used <= |bytes|
      invariant Completed(books, used, n as int - i, bytes[used..]) == whole
    {
      CompletedStep(books, used, n as int - i, bytes[used..]);
      assert bytes[used..] == source[at + used..];
      var book, bookUsed := DeserializeBook(source, at + used);
      assert bytes[used..][bookUsed..] == bytes[used + bookUsed..];
      books := books + [book];
      used := used + bookUsed;
    }
    CompletedAtEnd(books, used, if n < 0 then n as int else 0, bytes[used..]);
    library := new Library();
    library.n := n;
    library.books := books;
  }

  lemma CompletedAtEnd(books: seq<Book>, used: nat, count: int, source: seq<byte>)
    requires count <= 0
    ensures Completed(books, used, count, source) == Some(Decoded(books, used))
  {
    assert books + [] == books;
  }
}
