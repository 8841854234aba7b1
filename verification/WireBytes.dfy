/** The datagrams byte by byte, in plain numbers and in terms of the standard CRC-32. */
module WireBytes {
  import opened CStrings
  import opened Checksum
  import opened ChecksumTheorems
  import opened WireFormat
  import opened Messages

  /** Four bytes that hold `value`, least significant byte first. */
  predicate LittleEndian(bytes: seq<byte>, value: nat) {
    && |bytes| == 4
    && bytes[0] as int == value % 256 && bytes[1] as int == value / 256 % 256
    && bytes[2] as int == value / 65536 % 256 && bytes[3] as int == value / 16777216 % 256
  }

  lemma WordIsLittleEndian(value: nat)
    requires value < 0x1_0000_0000
    ensures LittleEndian(EncodeWord(value), value)
  {
    hide ByteOf;
    assert value / 16777216 % 256 == value / 16777216;
  }

  lemma OneWordOfBytes(bytes: seq<byte>, value: nat)
    requires value < 0x1_0000_0000
    ensures LittleEndian(bytes, value) <==> bytes == EncodeWord(value)
  {
    hide EncodeWord;
    WordIsLittleEndian(value);
    if LittleEndian(bytes, value) {
      SameDigits(bytes, EncodeWord(value));
    }
  }

  lemma SameDigits(x: seq<byte>, y: seq<byte>)
    requires |x| == |y| == 4 && forall i :: 0 <= i < 4 ==> x[i] as int == y[i] as int
    ensures x == y
  {
    forall i | 0 <= i < 4
      ensures x[i] == y[i]
    {
      ByteIsItsValue(x[i], y[i]);
    }
  }

  /** An `int32_t` as four bytes in two's complement. */
  predicate TwosComplement(bytes: seq<byte>, x: int32) {
    LittleEndian(bytes, x as int % 0x1_0000_0000)
  }

  lemma IntIsTwosComplement(x: int32)
    ensures TwosComplement(EncodeInt(x), x)
  {
    hide EncodeWord, LittleEndian;
    assert Unsigned(x) == x as int % 0x1_0000_0000;
    WordIsLittleEndian(Unsigned(x));
  }

  /** Row, shelf and position, then the name and a zero byte. */
  lemma BookLayout(book: Book)
    ensures
      var bytes := EncodeBook(book);
      && |bytes| == 13 + |book.name|
      && TwosComplement(bytes[0..4], book.n) && TwosComplement(bytes[4..8], book.m)
      && TwosComplement(bytes[8..12], book.k) && bytes[12..] == book.name + [0]
  {
    hide EncodeInt, TwosComplement;
    IntIsTwosComplement(book.n);
    IntIsTwosComplement(book.m);
    IntIsTwosComplement(book.k);
    var bytes := EncodeBook(book);
    assert bytes[0..4] == EncodeInt(book.n) && bytes[4..8] == EncodeInt(book.m) && bytes[8..12] == EncodeInt(book.k);
  }

  lemma {:induction false} BooksFollowEachOther(x: seq<Book>, y: seq<Book>)
    ensures EncodeBooks(x + y) == EncodeBooks(x) + EncodeBooks(y)
    decreases |x|
  {
    hide EncodeBook;
    if x == [] {
      assert x + y == y;
    } else {
      BooksFollowEachOther(x[1..], y);
      assert (x + y)[1..] == x[1..] + y;
    }
  }

  lemma OneBookAlone(book: Book)
    ensures EncodeBooks([book]) == EncodeBook(book)
  {
    hide EncodeBook;
    assert EncodeBooks([book][1..]) == [];
    assert EncodeBooks([book]) == EncodeBook(book) + [];
  }

  /** The number of books. */
  lemma LibraryStartsWithCount(books: seq<Book>)
    requires Countable(books)
    ensures TwosComplement(EncodeLibrary(books)[..4], |books| as int32)
  {
    hide EncodeInt, TwosComplement, EncodeBooks;
    IntIsTwosComplement(|books| as int32);
    assert EncodeLibrary(books)[..4] == EncodeInt(|books| as int32);
  }

  /** Behind it every book stands behind the books before it. */
  lemma BooksInOrder(books: seq<Book>, i: nat)
    requires Countable(books) && i < |books|
    ensures EncodeLibrary(books)[4..] == EncodeBooks(books[..i]) + EncodeBook(books[i]) + EncodeBooks(books[i + 1..])
  {
    hide EncodeInt, EncodeBook, EncodeBooks;
    assert books == books[..i] + ([books[i]] + books[i + 1..]);
    BooksFollowEachOther(books[..i], [books[i]] + books[i + 1..]);
    BooksFollowEachOther([books[i]], books[i + 1..]);
    OneBookAlone(books[i]);
    assert EncodeLibrary(books)[4..] == EncodeBooks(books);
  }

  /** The bytes are the complement of the standard CRC-32 over the even offsets of `message`. */
  predicate Checks(bytes: seq<byte>, message: seq<byte>) {
    LittleEndian(bytes, !RfcCrc(EvenBytes(message)) as int)
  }

  lemma CrcBytesCheck(bytes: seq<byte>, message: seq<byte>)
    ensures Checks(bytes, message) <==> bytes == CrcBytes(message)
  {
    hide EncodeWord, Crc, RfcCrc, LittleEndian;
    CrcIsComplementedRfcCrcOfEvenBytes(message);
    OneWordOfBytes(bytes, Crc(message) as int);
  }

  /** A checksum over all that follows, a zero byte, the book. */
  lemma AddRequestLayout(book: Book)
    ensures
      var request := AddRequest(book);
      |request| == 18 + |book.name| && Checks(request[..4], request[4..]) && request[4] == 0
      && request[5..] == EncodeBook(book)
  {
    hide EncodeBook, CrcBytes, Checks;
    var body := [ADD] + EncodeBook(book);
    CrcBytesCheck(CrcBytes(body), body);
    assert AddRequest(book)[..4] == CrcBytes(body) && AddRequest(book)[4..] == body;
  }

  /** A checksum over the one byte that follows. */
  lemma ViewRequestLayout()
    ensures |ViewRequest()| == 5 && Checks(ViewRequest()[..4], [1]) && ViewRequest()[4] == 1
  {
    hide CrcBytes, Checks;
    CrcBytesCheck(CrcBytes([VIEW]), [VIEW]);
    assert ViewRequest()[..4] == CrcBytes([VIEW]);
  }

  lemma SnapshotLayout(books: seq<Book>)
    requires Countable(books)
    ensures Checks(Snapshot(books)[..4], EncodeLibrary(books)) && Snapshot(books)[4..] == EncodeLibrary(books)
  {
    hide CrcBytes, Checks, EncodeLibrary;
    CrcBytesCheck(CrcBytes(EncodeLibrary(books)), EncodeLibrary(books));
    assert Snapshot(books)[..4] == CrcBytes(EncodeLibrary(books));
  }

  /** The server acknowledges, and the client accepts, the checksum of the whole request, its own checksum included. */
  lemma AcknowledgementIsChecksumOfAll(request: seq<byte>, reply: seq<byte>)
    ensures reply == Ack(request) <==> Checks(reply, request)
    ensures Acknowledges(request, reply) <==> Checks(reply, request)
  {
    hide CrcBytes, Checks, Acknowledges;
    CrcBytesCheck(reply, request);
    AckIsTheAcceptedReply(request, reply);
  }

  /** Client, server and observer mean the same by a valid checksum: the first four bytes check the rest. */
  lemma PassesExactlyWhen(datagram: seq<byte>)
    ensures Passes(datagram) <==> |datagram| >= 4 && Checks(datagram[..4], datagram[4..])
  {
    hide CrcBytes, Checks, Passes;
    if |datagram| >= 4 {
      var body := datagram[4..];
      CrcBytesCheck(datagram[..4], body);
      assert datagram[..4] + body == datagram;
      if datagram[..4] != CrcBytes(body) {
        WrongChecksumFails(datagram[..4], body);
      } else {
        SealedPasses(body);
      }
    } else {
      TooShortFails(datagram);
    }
  }

  lemma TooShortFails(datagram: seq<byte>)
    requires |datagram| < 4
    ensures !Passes(datagram)
  {}

  /** If only four consecutive hashed bytes behind the checksum were altered, the datagram is turned away. */
  lemma AlteredDatagramFails(datagram: seq<byte>, altered: seq<byte>, start: nat)
    requires Passes(datagram) && |altered| == |datagram| && altered[..4] == datagram[..4]
    requires start <= |EvenBytes(datagram[4..])| && DifferWithin(datagram[4..], altered[4..], start, 4)
    ensures Passes(altered) <==> EvenBytes(altered[4..]) == EvenBytes(datagram[4..])
  {
    hide DecodeWord, Crc, EvenBytes, DifferWithin;
    BurstIsDetected(datagram[4..], altered[4..], start);
    WordPrefix(datagram, 4);
    WordPrefix(altered, 4);
    SameNumber(Crc(datagram[4..]), Crc(altered[4..]));
  }

  lemma SameNumber(a: bv32, b: bv32)
    ensures a as int == b as int <==> a == b
  {
    assert (a as int) as bv32 == a && (b as int) as bv32 == b;
  }

  function TotalSize(books: seq<Book>): nat {
    if books == [] then 0 else 13 + |books[0].name| + TotalSize(books[1..])
  }

  lemma {:induction false} SizeOfBooks(books: seq<Book>)
    ensures |EncodeBooks(books)| == TotalSize(books)
  {
    hide EncodeBook;
    if books != [] {
      SizeOfBooks(books[1..]);
    }
  }

  /** A snapshot is 8 bytes and 13 a book longer than its names, and 65535 bytes can be received. */
  lemma SnapshotFitsExactlyWhen(books: seq<Book>)
    requires Countable(books)
    ensures |Snapshot(books)| == 8 + TotalSize(books)
    ensures SnapshotFits(books) <==> 8 + TotalSize(books) <= 65535
  {
    hide EncodeBooks, CrcBytes;
    SizeOfBooks(books);
  }
}
