/** Books, libraries and the bytes they travel as. */
module WireFormat {
  import opened Options
  import opened CStrings

  newtype int32 = x: int | -0x8000_0000 <= x < 0x8000_0000

  datatype Book = Book(n: int32, m: int32, k: int32, name: CString)

  // Little-endian words.

  function ByteValue(b: byte): (value: nat)
    ensures value < 256
  {
    b as int
  }

  lemma NextByte(b: byte)
    requires b != 255
    ensures ByteValue(b + 1) == ByteValue(b) + 1
  {}

  lemma ByteIsItsValue(a: byte, b: byte)
    ensures ByteValue(a) == ByteValue(b) ==> a == b
  {
    assert (a as int) as byte == a && (b as int) as byte == b;
  }

  /** The byte with the given value. */
  function ByteOf(value: nat): (b: byte)
    requires value < 256
    ensures ByteValue(b) == value
  {
    if value == 0 then 0 else
      var previous := ByteOf(value - 1);
      NextByte(previous);
      previous + 1
  }

  function EncodeWord(value: nat): (bytes: seq<byte>)
    requires value < UINT_RANGE
    ensures |bytes| == 4
  {
    [ByteOf(value % 256), ByteOf(value / 256 % 256), ByteOf(value / 65536 % 256), ByteOf(value / 16777216)]
  }

  function DecodeWord(bytes: seq<byte>): (value: nat)
    requires |bytes| >= 4
    ensures value < UINT_RANGE
  {
    ByteValue(bytes[0]) + 256 * ByteValue(bytes[1]) + 65536 * ByteValue(bytes[2]) + 16777216 * ByteValue(bytes[3])
  }

  lemma Base256(value: nat)
    ensures value == value % 256 + 256 * (value / 256 % 256) + 65536 * (value / 65536 % 256)
                   + 16777216 * (value / 16777216)
  {
    assert value / 65536 == value / 256 / 256 && value / 16777216 == value / 256 / 256 / 256;
  }

  lemma WordPrefix(bytes: seq<byte>, size: nat)
    requires 4 <= size <= |bytes|
    ensures DecodeWord(bytes[..size]) == DecodeWord(bytes)
  {}

  lemma WordRoundTrip(value: nat, rest: seq<byte>)
    requires value < UINT_RANGE
    ensures DecodeWord(EncodeWord(value) + rest) == value
  {
    hide ByteOf, ByteValue;
    Base256(value);
    var bytes := EncodeWord(value);
    assert DecodeWord(bytes + rest) == DecodeWord(bytes);
  }

  lemma WordsAreDistinct(x: seq<byte>, y: seq<byte>)
    requires |x| == |y| == 4 && DecodeWord(x) == DecodeWord(y)
    ensures x == y
  {
    hide ByteValue;
    DigitsAreDistinct(ByteValue(x[0]), ByteValue(x[1]), ByteValue(x[2]), ByteValue(x[3]),
                      ByteValue(y[0]), ByteValue(y[1]), ByteValue(y[2]), ByteValue(y[3]));
    ByteIsItsValue(x[0], y[0]);
    ByteIsItsValue(x[1], y[1]);
    ByteIsItsValue(x[2], y[2]);
    ByteIsItsValue(x[3], y[3]);
  }

  lemma DigitsAreDistinct(a: nat, b: nat, c: nat, d: nat, e: nat, f: nat, g: nat, h: nat)
    requires a < 256 && b < 256 && c < 256 && e < 256 && f < 256 && g < 256
    requires a + 256 * b + 65536 * c + 16777216 * d == e + 256 * f + 65536 * g + 16777216 * h
    ensures a == e && b == f && c == g && d == h
  {
    LowDigit(a, b + 256 * c + 65536 * d, e, f + 256 * g + 65536 * h);
    LowDigit(b, c + 256 * d, f, g + 256 * h);
    LowDigit(c, d, g, h);
  }

  lemma LowDigit(low: nat, high: nat, low': nat, high': nat)
    requires low < 256 && low' < 256 && low + 256 * high == low' + 256 * high'
    ensures low == low' && high == high'
  {}

  function Unsigned(x: int32): (u: nat)
    ensures u < UINT_RANGE
  {
    if x < 0 then x as int + UINT_RANGE else x as int
  }

  function Signed(u: nat): (x: int32)
    requires u < UINT_RANGE
    ensures Unsigned(x) == u
  {
    if u < 0x8000_0000 then u as int32 else (u - UINT_RANGE) as int32
  }

  function EncodeInt(x: int32): (bytes: seq<byte>)
    ensures |bytes| == 4
  {
    EncodeWord(Unsigned(x))
  }

  function DecodeInt(bytes: seq<byte>): int32
    requires |bytes| >= 4
  {
    Signed(DecodeWord(bytes))
  }

  lemma IntRoundTrip(x: int32, rest: seq<byte>)
    ensures DecodeInt(EncodeInt(x) + rest) == x
  {
    WordRoundTrip(Unsigned(x), rest);
  }

  // Books.

  function EncodeBook(book: Book): (bytes: seq<byte>)
    ensures |bytes| == 13 + |book.name|
  {
    EncodeInt(book.n) + EncodeInt(book.m) + EncodeInt(book.k) + book.name + [NUL]
  }

  /** A decoded value and the number of bytes it took. */
  datatype Decoded<+T> = Decoded(value: T, used: nat)

  /** None where the source would read past the bytes it was given. */
  function DecodeBook(source: seq<byte>): (decoded: Option<Decoded<Book>>)
    ensures decoded.Some? ==> 13 <= decoded.value.used <= |source|
  {
    if |source| < 12 || NUL !in source[12..] then None else
      var length := Strlen(source[12..]);
      var book := Book(DecodeInt(source), DecodeInt(source[4..]), DecodeInt(source[8..]), source[12..][..length]);
      Some(Decoded(book, 12 + length + 1))
  }

  lemma BookRoundTrip(book: Book, rest: seq<byte>)
    ensures DecodeBook(EncodeBook(book) + rest) == Some(Decoded(book, |EncodeBook(book)|))
  {
    hide EncodeInt, DecodeInt, Strlen;
    var source := EncodeBook(book) + rest;
    var tail := book.name + [NUL] + rest;
    assert source == EncodeInt(book.n) + (EncodeInt(book.m) + EncodeInt(book.k) + tail);
    assert source[4..] == EncodeInt(book.m) + (EncodeInt(book.k) + tail);
    assert source[8..] == EncodeInt(book.k) + tail;
    assert source[12..] == tail;
    IntRoundTrip(book.n, EncodeInt(book.m) + EncodeInt(book.k) + tail);
    IntRoundTrip(book.m, EncodeInt(book.k) + tail);
    IntRoundTrip(book.k, tail);
    StrlenOfTerminated(book.name, rest);
    assert tail[..|book.name|] == book.name;
  }

  // Libraries.

  function EncodeBooks(books: seq<Book>): seq<byte> {
    if books == [] then [] else EncodeBook(books[0]) + EncodeBooks(books[1..])
  }

  /** The book count is an `int32_t`. */
  predicate Countable(books: seq<Book>) {
    |books| < 0x8000_0000
  }

  function EncodeLibrary(books: seq<Book>): (bytes: seq<byte>)
    requires Countable(books)
    ensures |bytes| >= 4
  {
    EncodeInt(|books| as int32) + EncodeBooks(books)
  }

  /** A zero or negative count reads no book. */
  function DecodeBooks(count: int, source: seq<byte>): (decoded: Option<Decoded<seq<Book>>>)
    ensures decoded.Some? ==> decoded.value.used <= |source|
    ensures decoded.Some? ==> |decoded.value.value| == if count <= 0 then 0 else count
    decreases if count <= 0 then 0 else count
  {
    if count <= 0 then Some(Decoded([], 0)) else
      match DecodeBook(source)
      case None => None
      case Some(first) =>
        match DecodeBooks(count - 1, source[first.used..])
        case None => None
        case Some(rest) => Some(Decoded([first.value] + rest.value, first.used + rest.used))
  }

  function DecodeLibrary(source: seq<byte>): (decoded: Option<Decoded<seq<Book>>>)
    ensures decoded.Some? ==> 4 <= decoded.value.used <= |source|
  {
    if |source| < 4 then None else
      match DecodeBooks(DecodeInt(source) as int, source[4..])
      case None => None
      case Some(books) => Some(Decoded(books.value, 4 + books.used))
  }

  lemma DecodeOneMore(count: int, source: seq<byte>, first: Decoded<Book>, rest: Decoded<seq<Book>>)
    requires count > 0 && DecodeBook(source) == Some(first) && first.used <= |source|
    requires DecodeBooks(count - 1, source[first.used..]) == Some(rest)
    ensures DecodeBooks(count, source) == Some(Decoded([first.value] + rest.value, first.used + rest.used))
  {
    hide DecodeBook;
  }

  lemma {:induction false} BooksRoundTrip(books: seq<Book>, rest: seq<byte>)
    ensures DecodeBooks(|books|, EncodeBooks(books) + rest) == Some(Decoded(books, |EncodeBooks(books)|))
    decreases |books|
  {
    hide EncodeBook, DecodeBook;
    if books != [] {
      hide DecodeBooks;
      var first, others := EncodeBook(books[0]), EncodeBooks(books[1..]);
      var source := EncodeBooks(books) + rest;
      assert source == first + (others + rest);
      BookRoundTrip(books[0], others + rest);
      BooksRoundTrip(books[1..], rest);
      assert source[|first|..] == others + rest;
      DecodeOneMore(|books|, source, Decoded(books[0], |first|), Decoded(books[1..], |others|));
      assert books == [books[0]] + books[1..];
    }
  }

  /** Decoding gives the library back and stops exactly where it ends, whatever follows it. */
  lemma LibraryRoundTrip(books: seq<Book>, rest: seq<byte>)
    requires Countable(books)
    ensures DecodeLibrary(EncodeLibrary(books) + rest) == Some(Decoded(books, |EncodeLibrary(books)|))
  {
    hide EncodeInt, DecodeInt, EncodeBooks, DecodeBooks;
    var source := EncodeLibrary(books) + rest;
    assert source == EncodeInt(|books| as int32) + (EncodeBooks(books) + rest);
    assert source[4..] == EncodeBooks(books) + rest;
    IntRoundTrip(|books| as int32, EncodeBooks(books) + rest);
    BooksRoundTrip(books, rest);
  }

  /** Two buffers that start with encodings and agree hold the same library: injective and prefix-free. */
  lemma EncodingsAreApart(x: seq<Book>, y: seq<Book>, afterX: seq<byte>, afterY: seq<byte>)
    requires Countable(x) && Countable(y)
    ensures EncodeLibrary(x) + afterX == EncodeLibrary(y) + afterY <==> x == y && afterX == afterY
  {
    hide EncodeLibrary, DecodeLibrary;
    if EncodeLibrary(x) + afterX == EncodeLibrary(y) + afterY {
      LibraryRoundTrip(x, afterX);
      LibraryRoundTrip(y, afterY);
      assert (EncodeLibrary(x) + afterX)[|EncodeLibrary(x)|..] == afterX;
      assert (EncodeLibrary(y) + afterY)[|EncodeLibrary(y)|..] == afterY;
    }
  }

  // Sizes.

  lemma {:induction false} EncodedSize(books: seq<Book>, longest: nat)
    requires forall b :: b in books ==> |b.name| <= longest
    ensures |EncodeBooks(books)| <= |books| * (13 + longest)
  {
    hide EncodeBook;
    if books != [] {
      EncodedSize(books[1..], longest);
      assert books[0] in books;
      assert |books| * (13 + longest) == (|books| - 1) * (13 + longest) + (13 + longest);
    }
  }
}
