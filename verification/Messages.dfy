/** The datagrams of the UDP library protocol and how each end reads them. */
module Messages {
  import opened Options
  import opened CStrings
  import opened Checksum
  import opened WireFormat
  import opened Index

  const ADD: byte := 0
  const VIEW: byte := 1

  /** Message buffers of all three programs. */
  const BUFFER_SIZE: nat := 65536

  /** The most that a `recvfrom` accepts, one less than the buffer. */
  const RECEIVE_LIMIT: nat := 65535

  /** How often clients and observers try before they give up. */
  const RETRIES: nat := 5

  function CrcBytes(message: seq<byte>): (bytes: seq<byte>)
    ensures |bytes| == 4
  {
    EncodeWord(Crc(message) as int)
  }

  /** A body behind its checksum. */
  function Sealed(body: seq<byte>): seq<byte> {
    CrcBytes(body) + body
  }

  function AddRequest(book: Book): seq<byte> {
    Sealed([ADD] + EncodeBook(book))
  }

  function ViewRequest(): (bytes: seq<byte>)
    ensures |bytes| == 5
  {
    Sealed([VIEW])
  }

  /** The server answers an addition with the checksum of the whole request. */
  function Ack(request: seq<byte>): seq<byte> {
    CrcBytes(request)
  }

  function Snapshot(books: seq<Book>): seq<byte>
    requires Countable(books)
  {
    Sealed(EncodeLibrary(books))
  }

  ghost predicate SnapshotFits(books: seq<Book>) {
    Countable(books) && |Snapshot(books)| <= RECEIVE_LIMIT
  }

  /** `sendBook` returns 0 on this reply. */
  predicate Acknowledges(request: seq<byte>, reply: seq<byte>) {
    |reply| == 4 && DecodeWord(reply) == Crc(request) as int
  }

  /** `reciveLibrary` decodes this reply. */
  predicate Passes(reply: seq<byte>) {
    |reply| >= 4 && DecodeWord(reply) == Crc(reply[4..]) as int
  }

  /**
   * One request at the server. `buffer` is the message buffer with the `size` received bytes in front
   * of whatever was left there. The checksum is compared and reported but decides nothing.
   */
  ghost predicate Handles(index: seq<Book>, buffer: seq<byte>, size: nat, index': seq<Book>, reply: Option<seq<byte>>)
    requires 5 <= |buffer| && size <= |buffer|
  {
    if size < 5 then
      index' == index && reply == None
    else if buffer[4] == ADD then
      && DecodeBook(buffer[5..]).Some?
      && AddedTo(index, DecodeBook(buffer[5..]).value.value, index')
      && reply == Some(Ack(buffer[..size]))
    else if buffer[4] == VIEW then
      index' == index && Countable(index) && reply == Some(Snapshot(index))
    else
      index' == index && reply == None
  }

  lemma SealedPasses(body: seq<byte>)
    ensures Passes(Sealed(body))
  {
    hide EncodeWord, DecodeWord, Crc;
    var reply := Sealed(body);
    WordRoundTrip(Crc(body) as int, body);
    assert reply[4..] == body;
  }

  /** Requests pass the check, so the server reports none of them as broken. */
  lemma RequestsPass(book: Book)
    ensures Passes(AddRequest(book)) && Passes(ViewRequest())
  {
    SealedPasses([ADD] + EncodeBook(book));
    SealedPasses([VIEW]);
  }

  /** The server's answer to an addition is the one answer its client accepts. */
  lemma AckIsTheAcceptedReply(request: seq<byte>, reply: seq<byte>)
    ensures Acknowledges(request, reply) <==> reply == Ack(request)
  {
    hide EncodeWord, DecodeWord, Crc;
    if reply == Ack(request) {
      WordRoundTrip(Crc(request) as int, []);
      assert reply + [] == reply;
    }
    if Acknowledges(request, reply) {
      WordRoundTrip(Crc(request) as int, []);
      assert Ack(request) + [] == Ack(request);
      WordsAreDistinct(reply, Ack(request));
    }
  }

  lemma AddIsDecoded(book: Book, rest: seq<byte>)
    ensures
      var buffer := AddRequest(book) + rest;
      && |AddRequest(book)| >= 5 && buffer[4] == ADD
      && buffer[..|AddRequest(book)|] == AddRequest(book)
      && DecodeBook(buffer[5..]) == Some(Decoded(book, |EncodeBook(book)|))
  {
    hide EncodeBook, DecodeBook, CrcBytes;
    BookRoundTrip(book, rest);
    var buffer := AddRequest(book) + rest;
    assert buffer[5..] == EncodeBook(book) + rest;
  }

  lemma ViewIsRecognised(rest: seq<byte>)
    ensures |ViewRequest()| == 5 && (ViewRequest() + rest)[4] == VIEW
  {
    hide CrcBytes;
  }

  /** Whatever follows it in the buffer, an intact snapshot is read back as the index it was made from. */
  lemma SnapshotIsDecoded(books: seq<Book>, rest: seq<byte>)
    requires Countable(books)
    ensures Passes(Snapshot(books))
    ensures DecodeLibrary((Snapshot(books) + rest)[4..]) == Some(Decoded(books, |EncodeLibrary(books)|))
  {
    hide EncodeLibrary, DecodeLibrary, CrcBytes, Passes;
    SealedPasses(EncodeLibrary(books));
    LibraryRoundTrip(books, rest);
    assert (Snapshot(books) + rest)[4..] == EncodeLibrary(books) + rest;
  }

  /** A reply carries at most one index. */
  lemma SnapshotsAreApart(x: seq<Book>, y: seq<Book>)
    requires Countable(x) && Countable(y) && Snapshot(x) == Snapshot(y)
    ensures x == y
  {
    SnapshotIsDecoded(x, []);
    SnapshotIsDecoded(y, []);
  }

  /** Whatever the four checksum bytes are, the same request moves the index in the same ways, to one reply each. */
  lemma ChecksumDoesNotGate(index: seq<Book>, buffer: seq<byte>, other: seq<byte>, size: nat, index': seq<Book>,
                            reply: Option<seq<byte>>)
    requires 5 <= size <= |buffer| && |other| == |buffer| && other[4..] == buffer[4..]
    requires Handles(index, buffer, size, index', reply)
    ensures forall reply' ::
              Handles(index, other, size, index', reply')
              <==> reply' == if buffer[4] == ADD then Some(Ack(other[..size])) else reply
  {
    hide DecodeBook, Ack, Snapshot, AddedTo;
    assert other[4] == other[4..][0] && buffer[4] == buffer[4..][0];
    assert other[5..] == other[4..][1..] && buffer[5..] == buffer[4..][1..];
  }

  /** Less than five bytes, or any type byte but 0 and 1, and nothing happens at all. */
  lemma ShortOrUnknownIsIgnored(index: seq<Book>, buffer: seq<byte>, size: nat, index': seq<Book>,
                                reply: Option<seq<byte>>)
    requires 5 <= |buffer| && size <= |buffer| && (size < 5 || (buffer[4] != 0 && buffer[4] != 1))
    ensures Handles(index, buffer, size, index', reply) <==> index' == index && reply == None
  {
    hide DecodeBook, Ack, Snapshot, AddedTo;
  }

  /** A name that is not terminated in its datagram goes on with what the buffer held before. */
  lemma NameGoesOnInBuffer(index: seq<Book>, book: Book, crc: seq<byte>, i: nat, rest: seq<byte>, index': seq<Book>)
    requires |crc| == 4 && i <= |EncodeBook(book)|
    ensures
      var datagram, stale := crc + ([ADD] + EncodeBook(book)[..i]), EncodeBook(book)[i..] + rest;
      Handles(index, datagram + stale, |datagram|, index', Some(Ack(datagram))) <==> AddedTo(index, book, index')
  {
    hide EncodeBook, DecodeBook, Ack, AddedTo;
    var bytes := EncodeBook(book);
    var datagram, stale := crc + ([ADD] + bytes[..i]), bytes[i..] + rest;
    var buffer := datagram + stale;
    assert buffer[4] == ADD;
    assert buffer[..|datagram|] == datagram;
    assert bytes == bytes[..i] + bytes[i..];
    assert buffer[5..] == bytes + rest;
    BookRoundTrip(book, rest);
  }

  lemma AddChangesExactlyWhen(before: seq<Book>, book: Book, after: seq<Book>)
    requires AddedTo(before, book, after)
    ensures after == before <==> HasKey(before, KeyOf(book))
  {
    if !HasKey(before, KeyOf(book)) {
      SameMembers(before + [book], after);
    }
  }

  /**
   * A broken request is really discarded, without reply or effect, exactly when its type is unknown; the
   * index stays as it is exactly when the request adds nothing or a key that is already known.
   */
  lemma BrokenIsDiscardedExactlyWhen(index: seq<Book>, buffer: seq<byte>, size: nat, index': seq<Book>,
                                     reply: Option<seq<byte>>)
    requires 5 <= size <= |buffer| && !Passes(buffer[..size])
    requires Handles(index, buffer, size, index', reply)
    ensures index' == index && reply == None <==> buffer[4] != ADD && buffer[4] != VIEW
    ensures index' == index <==> buffer[4] != ADD || HasKey(index, KeyOf(DecodeBook(buffer[5..]).value.value))
  {
    hide DecodeBook, Ack, Snapshot, AddedTo, HasKey, Passes;
    if buffer[4] == ADD {
      AddChangesExactlyWhen(index, DecodeBook(buffer[5..]).value.value, index');
    }
  }

  /** An addition whose checksum was replaced by any wrong one is stored like the intact one, and acknowledged. */
  lemma BrokenAdditionIsStored(index: seq<Book>, book: Book, wrong: seq<byte>, index': seq<Book>)
    requires |wrong| == 4 && wrong != CrcBytes([ADD] + EncodeBook(book))
    ensures
      var request := wrong + ([ADD] + EncodeBook(book));
      && !Passes(request)
      && (Handles(index, request, |request|, index', Some(Ack(request))) <==> AddedTo(index, book, index'))
  {
    hide EncodeBook, DecodeBook, CrcBytes, Ack, AddedTo;
    var body := [ADD] + EncodeBook(book);
    var request := wrong + body;
    assert request[4..] == body && request[5..] == EncodeBook(book);
    WrongChecksumFails(wrong, body);
    BookRoundTrip(book, []);
    assert EncodeBook(book) + [] == EncodeBook(book);
    assert request[..|request|] == request;
  }

  lemma WrongChecksumFails(wrong: seq<byte>, body: seq<byte>)
    requires |wrong| == 4 && wrong != CrcBytes(body)
    ensures !Passes(wrong + body)
  {
    hide EncodeWord, DecodeWord, Crc;
    assert (wrong + body)[4..] == body;
    WordPrefix(wrong + body, 4);
    assert (wrong + body)[..4] == wrong;
    if Passes(wrong + body) {
      WordRoundTrip(Crc(body) as int, []);
      assert CrcBytes(body) + [] == CrcBytes(body);
      WordsAreDistinct(wrong, CrcBytes(body));
    }
  }

  /** Such a request: it is stored, though the server reports that it discards it. */
  lemma SomeBrokenAdditionIsStored() returns (request: seq<byte>, book: Book)
    ensures |request| == 18 && !Passes(request)
    ensures Handles([], request, |request|, [book], Some(Ack(request)))
  {
    hide EncodeBook, CrcBytes, Passes, Handles, Ack;
    book := Book(0, 0, 0, []);
    var right := CrcBytes([ADD] + EncodeBook(book));
    var wrong: seq<byte> := if right == [0, 0, 0, 0] then [1, 0, 0, 0] else [0, 0, 0, 0];
    request := wrong + ([ADD] + EncodeBook(book));
    assert AddedTo([], book, [book]) by {
      assert [] + [book] == [book];
    }
    BrokenAdditionIsStored([], book, wrong, [book]);
  }
}
