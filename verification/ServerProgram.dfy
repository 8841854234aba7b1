/** bhw4/server.c: one request of the endless loop, over the object it updates. */
module ServerProgram {
  import opened Options
  import opened CStrings
  import opened Checksum
  import opened Buffers
  import opened WireFormat
  import opened Index
  import opened Libraries
  import opened Messages

  /** What the loop needs of its surroundings: a readable book, and room for the snapshot it writes. */
  ghost predicate Handleable(books: seq<Book>, buffer: seq<byte>, size: nat)
    requires 5 <= |buffer|
  {
    && (size >= 5 && buffer[4] == ADD ==> DecodeBook(buffer[5..]).Some? && |books| < 0x7FFF_FFFF)
    && (size >= 5 && buffer[4] == VIEW ==> Countable(books) && |Snapshot(books)| <= |buffer|)
  }

  class Server {
    const library: Library
    const buffer: array<byte>

    ghost predicate Valid()
      reads this, library
    {
      library.Valid() && library.n >= 0 && buffer.Length == BUFFER_SIZE
    }

    constructor ()
      ensures Valid() && library.books == [] && fresh(library) && fresh(buffer) && buffer.Length == 65536
    {
      library := new Library();
      buffer := new byte[BUFFER_SIZE];
    }

    /** Compares the received checksum; the result is printed and nothing else follows from it. */
    method ReportChecksum(size: nat) returns (reportedBroken: bool)
      requires Valid() && 5 <= size <= RECEIVE_LIMIT
      ensures reportedBroken <==> !Passes(buffer[..size])
    {
      hide DecodeWord, Crc;
      var calculated := Crc32b(buffer, 4, size - 4);
      reportedBroken := calculated as int != DecodeWord(buffer[..4]);
      assert buffer[4..4 + (size - 4)] == buffer[..size][4..];
      assert buffer[..size][..4] == buffer[..4];
      WordPrefix(buffer[..size], 4);
    }

    method HandleAdd(size: nat) returns (reply: seq<byte>)
      requires Valid() && 5 <= size <= RECEIVE_LIMIT
      requires DecodeBook(buffer[5..]).Some? && |library.books| < 0x7FFF_FFFF
      modifies library
      ensures Valid()
      ensures AddedTo(old(library.books), DecodeBook(buffer[5..]).value.value, library.books)
      ensures reply == Ack(buffer[..size])
    {
      hide DecodeBook, EncodeWord, Crc, AddedTo;
      var book, _ := DeserializeBook(buffer, 5);
      library.AddBook(book);
      var full := Crc32b(buffer, 0, size);
      assert buffer[0..0 + size] == buffer[..size];
      reply := EncodeWord(full as int);
    }

    method HandleView() returns (reply: seq<byte>)
      requires Valid() && Countable(library.books) && |Snapshot(library.books)| <= buffer.Length
      modifies buffer
      ensures Valid()
      ensures reply == Snapshot(library.books)
      ensures buffer[..] == Splice(old(buffer[..]), 0, reply)
    {
      hide EncodeLibrary, EncodeWord, Crc;
      ghost var bytes := EncodeLibrary(library.books);
      var written := library.Serialize(buffer, 4);
      assert buffer[4..4 + written] == bytes;
      var crc := Crc32b(buffer, 4, written);
      CopyInto(buffer, 0, EncodeWord(crc as int));
      reply := buffer[..written + 4];
      assert reply == EncodeWord(crc as int) + bytes;
    }

    /** `reportedBroken` is the line the server prints about the checksum. */
    method Handle(datagram: seq<byte>) returns (reply: Option<seq<byte>>, reportedBroken: bool)
      requires Valid() && |datagram| <= RECEIVE_LIMIT
      requires Handleable(library.books, Splice(buffer[..], 0, datagram), |datagram|)
      modifies library, buffer
      ensures Valid()
      ensures Handles(old(library.books), Splice(old(buffer[..]), 0, datagram), |datagram|, library.books, reply)
      ensures reportedBroken <==> |datagram| >= 5 && !Passes(datagram)
      ensures
        var received := Splice(old(buffer[..]), 0, datagram);
        buffer[..] == if |datagram| >= 5 && datagram[4] == VIEW then Splice(received, 0, reply.value) else received
    {
      hide DecodeBook, EncodeLibrary, CrcBytes, Passes, AddedTo, Snapshot, Ack;
      CopyInto(buffer, 0, datagram);
      ghost var received := buffer[..];
      assert received[..|datagram|] == datagram;
      reply, reportedBroken := None, false;
      if |datagram| < 5 {
        return;
      }
      reportedBroken := ReportChecksum(|datagram|);
      assert buffer[..|datagram|] == datagram;
      if buffer[4] == ADD {
        assert buffer[5..] == received[5..];
        var ack := HandleAdd(|datagram|);
        reply := Some(ack);
      } else if buffer[4] == VIEW {
        var snapshot := HandleView();
        reply := Some(snapshot);
      }
    }
  }
}
