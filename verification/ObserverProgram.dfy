/** bhw4/observer.c: one checked read of the index, and the retries around it. */
module ObserverProgram {
  import opened Options
  import opened CStrings
  import opened Checksum
  import opened Buffers
  import opened WireFormat
  import opened Libraries
  import opened Messages

  /** The buffer after the request was built in front of it and a reply was received over that. */
  ghost function Received(buffer: seq<byte>, reply: seq<byte>): (received: seq<byte>)
    requires |buffer| == BUFFER_SIZE && |reply| <= RECEIVE_LIMIT
    ensures |received| == BUFFER_SIZE
  {
    reply + (ViewRequest() + buffer[|ViewRequest()|..])[|reply|..]
  }

  /**
   * `reciveLibrary`, with `reply` for what `recvfrom` yields before the timeout, if anything.
   * The library is assigned only when the result is 0.
   */
  method ReceiveLibrary(buf: array<byte>, reply: Option<seq<byte>>)
    returns (res: int, sent: seq<byte>, library: Library?)
    requires buf.Length == BUFFER_SIZE
    requires reply.Some? ==> |reply.value| <= RECEIVE_LIMIT
    requires reply.Some? && Passes(reply.value) ==> DecodeLibrary(Received(buf[..], reply.value)[4..]).Some?
    modifies buf
    ensures sent == ViewRequest()
    ensures res == if reply.Some? && Passes(reply.value) then 0 else 1
    ensures res == 0 ==> library != null && fresh(library) && library.Valid()
    ensures res == 0 ==>
              exists used ::
                DecodeLibrary(Received(old(buf[..]), reply.value)[4..]) == Some(Decoded(library.books, used))
  {
    hide EncodeWord, DecodeWord, Crc, DecodeLibrary;
    ghost var before := buf[..];
    library := null;
    buf[4] := VIEW;
    var crc := Crc32b(buf, 4, 1);
    assert buf[4..4 + 1] == [VIEW];
    CopyInto(buf, 0, EncodeWord(crc as int));
    sent := buf[..5];
    assert sent == EncodeWord(crc as int) + [VIEW] == ViewRequest();
    assert buf[5..] == before[5..];
    assert buf[..] == sent + before[5..];
    if reply.None? {
      return 1, sent, null;
    }
    var size := |reply.value|;
    CopyInto(buf, 0, reply.value);
    ghost var received := buf[..];
    assert received == Received(before, reply.value);
    if size < 4 {
      return 1, sent, null;
    }
    var calculated := Crc32b(buf, 4, size - 4);
    assert buf[4..4 + (size - 4)] == reply.value[4..];
    assert received[..size] == reply.value;
    WordPrefix(buf[..], size);
    if calculated as int != DecodeWord(buf[..]) {
      return 1, sent, null;
    }
    assert buf[4..] == received[4..];
    var read, used := DeserializeLibrary(buf, 4);
    res, library := 0, read;
  }

  /** A reply the server made from `books`. */
  ghost predicate MadeFrom(reply: Option<seq<byte>>, books: seq<Book>) {
    reply.Some? && SnapshotFits(books) && reply.value == Snapshot(books)
  }

  /** `reciveLibrary` returns 0 on this answer. */
  predicate Accepted(answer: Option<seq<byte>>) {
    answer.Some? && Passes(answer.value)
  }

  /** What the source needs of an answer: if it is decoded, then inside the buffer, whatever that held before. */
  ghost predicate Harmless(answer: Option<seq<byte>>) {
    answer.Some? ==>
      && |answer.value| <= RECEIVE_LIMIT
      && (Passes(answer.value) ==>
            forall buffer :: |buffer| == BUFFER_SIZE ==> DecodeLibrary(Received(buffer, answer.value)[4..]).Some?)
  }

  /** `shown` is what the buffer holds once it received this answer. */
  ghost predicate DecodesTo(answer: Option<seq<byte>>, shown: seq<Book>) {
    && answer.Some? && |answer.value| <= RECEIVE_LIMIT
    && exists buffer, used ::
         |buffer| == BUFFER_SIZE && DecodeLibrary(Received(buffer, answer.value)[4..]) == Some(Decoded(shown, used))
  }

  /** One round of `main`: the first of five attempts whose answer passes decides what is shown. */
  method ObserveOnce(buf: array<byte>, answers: seq<Option<seq<byte>>>) returns (res: int, library: Library?, used: nat)
    requires buf.Length == BUFFER_SIZE && |answers| >= RETRIES
    requires forall a :: a in answers ==> Harmless(a)
    modifies buf
    ensures res == 0 || res == 1
    ensures res == 0 <==> exists i :: 0 <= i < RETRIES && Accepted(answers[i])
    ensures used <= RETRIES && (res == 0 ==> 0 < used && Accepted(answers[used - 1]))
    ensures forall i :: 0 <= i < (if res == 0 then used - 1 else RETRIES) ==> !Accepted(answers[i])
    ensures res == 0 ==> library != null && library.Valid() && DecodesTo(answers[used - 1], library.books)
  {
    hide Passes, DecodeLibrary, Received, ViewRequest, Harmless, DecodesTo;
    res, library, used := 1, null, 0;
    for i := 0 to RETRIES
      invariant used == i && res == 1
      invariant forall j :: 0 <= j < i ==> !Accepted(answers[j])
    {
      ghost var before := buf[..];
      assert Harmless(answers[i]);
      HarmlessCanBeRead(before, answers[i]);
      var request;
      res, request, library := ReceiveLibrary(buf, answers[i]);
      used := used + 1;
      if res == 0 {
        ItIsDecoded(before, answers[i], library.books);
        return;
      }
    }
  }

  lemma HarmlessCanBeRead(buffer: seq<byte>, answer: Option<seq<byte>>)
    requires |buffer| == BUFFER_SIZE && Harmless(answer)
    ensures answer.Some? ==> |answer.value| <= RECEIVE_LIMIT
    ensures Accepted(answer) ==> DecodeLibrary(Received(buffer, answer.value)[4..]).Some?
  {
    hide Passes, DecodeLibrary, Received;
  }

  lemma ItIsDecoded(buffer: seq<byte>, answer: Option<seq<byte>>, shown: seq<Book>)
    requires |buffer| == BUFFER_SIZE && answer.Some? && |answer.value| <= RECEIVE_LIMIT
    requires exists used :: DecodeLibrary(Received(buffer, answer.value)[4..]) == Some(Decoded(shown, used))
    ensures DecodesTo(answer, shown)
  {
    hide DecodeLibrary, Received;
  }

  /** A snapshot made by the server is harmless and accepted, and shows exactly the index it was made from. */
  lemma ServerRepliesAreShown(answer: Option<seq<byte>>, books: seq<Book>, shown: seq<Book>)
    requires MadeFrom(answer, books)
    ensures Harmless(answer) && Accepted(answer)
    ensures DecodesTo(answer, shown) <==> shown == books
  {
    hide Snapshot, Passes, DecodeLibrary, Received, SnapshotFits, EncodeLibrary;
    FittingReply(answer.value, books);
    forall buffer: seq<byte> | |buffer| == BUFFER_SIZE
      ensures Passes(answer.value)
      ensures DecodeLibrary(Received(buffer, answer.value)[4..]) == Some(Decoded(books, |EncodeLibrary(books)|))
    {
      IntactReplyIsDecoded(buffer, answer.value, books);
    }
    var zeros: seq<byte> := seq(BUFFER_SIZE, _ => 0);
    assert |zeros| == BUFFER_SIZE;
    assert DecodeLibrary(Received(zeros, answer.value)[4..]) == Some(Decoded(books, |EncodeLibrary(books)|));
  }

  lemma FittingReply(reply: seq<byte>, books: seq<Book>)
    requires SnapshotFits(books) && reply == Snapshot(books)
    ensures |reply| <= RECEIVE_LIMIT && Countable(books)
  {
    hide Snapshot;
  }

  lemma IntactReplyIsDecoded(buffer: seq<byte>, reply: seq<byte>, books: seq<Book>)
    requires |buffer| == BUFFER_SIZE && SnapshotFits(books) && reply == Snapshot(books)
    ensures Passes(reply)
    ensures DecodeLibrary(Received(buffer, reply)[4..]) == Some(Decoded(books, |EncodeLibrary(books)|))
  {
    hide Snapshot, DecodeLibrary, Passes, ViewRequest, EncodeLibrary;
    SnapshotIsDecoded(books, (ViewRequest() + buffer[|ViewRequest()|..])[|reply|..]);
  }
}
