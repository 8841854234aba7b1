/** bhw4/client.c: one attempt, and the loops over shelves, lines and retries around it. */
module ClientProgram {
  import opened Options
  import opened CStrings
  import opened Checksum
  import opened Buffers
  import opened WireFormat
  import opened Libraries
  import opened Messages
  import opened Shelves
  import opened Attempts

  /**
   * Fills `buf`, sends it and reads one reply into the same buffer.
   * `reply` is what `recvfrom` yields before the timeout, if anything.
   */
  method SendBook(book: Book, buf: array<byte>, reply: Option<seq<byte>>) returns (res: int, sent: seq<byte>)
    requires buf.Length == BUFFER_SIZE && |EncodeBook(book)| + 5 <= BUFFER_SIZE
    requires reply.Some? ==> |reply.value| <= RECEIVE_LIMIT
    modifies buf
    ensures sent == AddRequest(book)
    ensures res == if Answered(sent, reply) then 0 else 1
  {
    hide EncodeBook, EncodeWord, DecodeWord, Crc;
    buf[4] := ADD;
    var wrote := SerializeBook(book, buf, 5);
    ghost var body := [ADD] + EncodeBook(book);
    assert buf[4..4 + (wrote + 1)] == body;
    var crc := Crc32b(buf, 4, wrote + 1);
    CopyInto(buf, 0, EncodeWord(crc as int));
    sent := buf[..wrote + 5];
    assert sent == EncodeWord(crc as int) + body;

    var expected := Crc32b(buf, 0, wrote + 5);
    assert buf[0..0 + (wrote + 5)] == sent;
    if reply.None? {
      return 1, sent;
    }
    CopyInto(buf, 0, reply.value);
    if |reply.value| != 4 {
      return 1, sent;
    }
    assert buf[..4] == reply.value;
    res := if expected as int != DecodeWord(buf[..4]) then 1 else 0;
  }

  /** The retry loop. `answers` are the replies to come; the first `used` of them are consumed. */
  method SendWithRetries(ghost books: seq<Book>, ghost cur: nat, book: Book, buf: array<byte>,
                         answers: seq<Option<seq<byte>>>)
    returns (res: int, used: nat, sent: seq<seq<byte>>)
    requires cur < |books| && books[cur] == book && |book.name| <= LINE_LIMIT
    requires buf.Length == BUFFER_SIZE && |answers| >= RETRIES
    requires forall a :: a in answers && a.Some? ==> |a.value| <= RECEIVE_LIMIT
    modifies buf
    ensures used <= RETRIES && used <= |answers|
    ensures res == 0 || res == 1
    ensures res == 0 ==> AcknowledgedBy(AddRequest(book), answers, used)
    ensures res == 1 ==> used == 5 && FiveWrong(AddRequest(book), answers)
    ensures sent == Copies(AddRequest(book), used)
    ensures
      var next := if res == 0 then At(books, cur + 1) else Failed(cur);
      && Outcome(books, Sending(cur, 0), answers) == Outcome(books, next, answers[used..])
      && Attempted(books, Sending(cur, 0), answers) == sent + Attempted(books, next, answers[used..])
  {
    hide AddRequest, Answered, EncodeBook, Outcome, Attempted;
    used, sent := 0, [];
    res := 1;
    assert answers[0..] == answers;
    for i := 0 to RETRIES
      invariant used == i && res == 1 && sent == Copies(AddRequest(book), i)
      invariant forall j :: 0 <= j < i ==> !Answered(AddRequest(book), answers[j])
      invariant
        var next := if i == RETRIES then Failed(cur) else Sending(cur, i);
        && Outcome(books, Sending(cur, 0), answers) == Outcome(books, next, answers[used..])
        && Attempted(books, Sending(cur, 0), answers) == sent + Attempted(books, next, answers[used..])
    {
      assert answers[used] in answers;
      OneTry(books, Sending(cur, i), answers[used..]);
      assert answers[used..][1..] == answers[used + 1..];
      var request;
      res, request := SendBook(book, buf, answers[used]);
      used := used + 1;
      sent := sent + [request];
      if res == 0 {
        return;
      }
    }
  }

  /** The client's `main` after its directory is opened: exit code and the datagrams it sent, in order. */
  method SendRow(row: int32, shelves: seq<Shelf>, buf: array<byte>, answers: seq<Option<seq<byte>>>)
    returns (code: int, sent: seq<seq<byte>>)
    requires buf.Length == BUFFER_SIZE
    requires |answers| >= RETRIES * |RowBooks(row, shelves)|
    requires forall a :: a in answers && a.Some? ==> |a.value| <= RECEIVE_LIMIT
    modifies buf
    ensures RowSent(RowBooks(row, shelves), answers, code, sent)
    ensures
      var books := RowBooks(row, shelves);
      && sent == Attempted(books, At(books, 0), answers)
      && (code == 0 <==> Outcome(books, At(books, 0), answers).Finished?)
      && (code == 1 <==> Outcome(books, At(books, 0), answers).Failed?)
  {
    hide RowBooks, ShelfBooks, Outcome, Attempted, Reached, LineLength, Chomp;
    hide AcknowledgedBy, FiveWrong, RowSent, AddRequest;
    ghost var books := RowBooks(row, shelves);
    ghost var done := 0;
    var used: nat := 0;
    sent := [];
    NothingSentYet(books, answers);
    assert shelves[0..] == shelves && books[0..] == books;
    for s := 0 to |shelves|
      invariant done <= |books| && used <= RETRIES * done
      invariant books[done..] == RowBooks(row, shelves[s..])
      invariant Reached(books, answers, done, used, sent)
    {
      var text, cur := shelves[s].text, 0;
      RowStep(row, shelves, s);
      while text != []
        invariant cur + |text| < 0x8000_0000
        invariant done <= |books| && used <= RETRIES * done
        invariant books[done..] == ShelfBooks(row, shelves[s].number, cur, text) + RowBooks(row, shelves[s + 1..])
        invariant Reached(books, answers, done, used, sent)
        decreases |text|
      {
        var length := LineLength(text, LINE_LIMIT);
        var book := Book(row, shelves[s].number, cur as int32, Chomp(text[..length]));
        LineStep(row, shelves[s].number, cur, text, books[done..], RowBooks(row, shelves[s + 1..]));
        assert books[done..][0] == book && books[done..][1..] == books[done + 1..];
        LaterAnswers(answers, used);
        var res, more, requests := SendWithRetries(books, done, book, buf, answers[used..]);
        AfterOneBook(books, answers, done, used, sent, res, more, requests);
        used := used + more;
        sent := sent + requests;
        if res != 0 {
          RowIsSent(books, answers, 1, sent);
          return 1, sent;
        }
        done := done + 1;
        cur := cur + 1;
        text := text[length..];
      }
      NoMoreLines(row, shelves[s].number, cur);
    }
    NoMoreShelves(row, shelves[|shelves|..]);
    AllBooksSent(books, answers, used, sent);
    RowIsSent(books, answers, 0, sent);
    code := 0;
  }

  /**
   * Exit code 0 when every book is acknowledged within five answers, 1 when one gets five wrong ones; one copy
   * of a book's request is sent for each answer up to there, book after book, and nothing else.
   */
  ghost predicate RowSent(books: seq<Book>, answers: seq<Option<seq<byte>>>, code: int, sent: seq<seq<byte>>) {
    && (code == 0 || code == 1)
    && (code == 0 <==> exists counts :: RowPasses(books, answers, counts))
    && (code == 1 <==> exists counts :: RowFails(books, answers, counts))
    && (forall counts :: RowPasses(books, answers, counts) ==> sent == Shares(books, 0, counts))
    && (forall counts :: RowFails(books, answers, counts) ==>
          sent == Shares(books, 0, counts) + Copies(AddRequest(books[|counts|]), 5))
  }

  lemma RowIsSent(books: seq<Book>, answers: seq<Option<seq<byte>>>, code: int, sent: seq<seq<byte>>)
    requires |answers| >= RETRIES * |books| && sent == Attempted(books, At(books, 0), answers)
    requires code == 0 || code == 1
    requires if code == 0 then Outcome(books, At(books, 0), answers).Finished?
             else Outcome(books, At(books, 0), answers).Failed?
    ensures RowSent(books, answers, code, sent)
  {
    hide Outcome, Attempted, AddRequest, Transcript, FiveWrong;
    RowFailsExactlyWhen(books, answers);
    forall counts | RowPasses(books, answers, counts)
      ensures sent == Shares(books, 0, counts)
    {
      PassingRow(books, answers, counts);
    }
    forall counts | RowFails(books, answers, counts)
      ensures sent == Shares(books, 0, counts) + Copies(AddRequest(books[|counts|]), 5)
    {
      FailingRow(books, answers, counts);
    }
  }

  /** After `used` answers the first `done` books are acknowledged and `sent` has been sent. */
  ghost predicate Reached(books: seq<Book>, answers: seq<Option<seq<byte>>>, done: nat, used: nat,
                          sent: seq<seq<byte>>)
    requires done <= |books|
  {
    && used <= |answers|
    && Outcome(books, At(books, 0), answers) == Outcome(books, At(books, done), answers[used..])
    && Attempted(books, At(books, 0), answers) == sent + Attempted(books, At(books, done), answers[used..])
  }

  lemma NothingSentYet(books: seq<Book>, answers: seq<Option<seq<byte>>>)
    ensures Reached(books, answers, 0, 0, [])
  {
    assert answers[0..] == answers;
  }

  lemma LaterAnswers<T>(answers: seq<T>, used: nat)
    requires used <= |answers|
    ensures forall a :: a in answers[used..] ==> a in answers
  {}

  lemma AfterOneBook(books: seq<Book>, answers: seq<Option<seq<byte>>>, done: nat, used: nat,
                     sent: seq<seq<byte>>, res: int, more: nat, requests: seq<seq<byte>>)
    requires done < |books| && Reached(books, answers, done, used, sent) && used + more <= |answers|
    requires
      var next := if res == 0 then At(books, done + 1) else Failed(done);
      && Outcome(books, Sending(done, 0), answers[used..]) == Outcome(books, next, answers[used..][more..])
      && Attempted(books, Sending(done, 0), answers[used..])
         == requests + Attempted(books, next, answers[used..][more..])
    ensures res == 0 ==> Reached(books, answers, done + 1, used + more, sent + requests)
    ensures res != 0 ==>
      && Outcome(books, At(books, 0), answers) == Failed(done)
      && Attempted(books, At(books, 0), answers) == sent + requests
  {
    hide Outcome, Attempted;
    var next := if res == 0 then At(books, done + 1) else Failed(done);
    assert answers[used..][more..] == answers[used + more..];
    var rest := Attempted(books, next, answers[used + more..]);
    assert sent + (requests + rest) == (sent + requests) + rest;
    if res != 0 {
      NothingAfterEnd(books, next, answers[used + more..]);
    }
  }

  lemma AllBooksSent(books: seq<Book>, answers: seq<Option<seq<byte>>>, used: nat, sent: seq<seq<byte>>)
    requires Reached(books, answers, |books|, used, sent)
    ensures Outcome(books, At(books, 0), answers) == Finished
    ensures Attempted(books, At(books, 0), answers) == sent
  {
    hide Outcome, Attempted;
    NothingAfterEnd(books, Finished, answers[used..]);
  }

  lemma LineStep(row: int32, shelf: int32, cur: nat, text: Text, books: seq<Book>, later: seq<Book>)
    requires text != [] && cur + |text| < 0x8000_0000
    requires books == ShelfBooks(row, shelf, cur, text) + later
    ensures
      var length := LineLength(text, LINE_LIMIT);
      && books != []
      && books[0] == Book(row, shelf, cur as int32, Chomp(text[..length]))
      && books[1..] == ShelfBooks(row, shelf, cur + 1, text[length..]) + later
  {
    hide ShelfBooks, LineLength, Chomp;
    ShelfStep(row, shelf, cur, text);
  }

  lemma RowStep(row: int32, shelves: seq<Shelf>, s: nat)
    requires s < |shelves|
    ensures RowBooks(row, shelves[s..])
         == ShelfBooks(row, shelves[s].number, 0, shelves[s].text) + RowBooks(row, shelves[s + 1..])
  {
    hide ShelfBooks;
    assert shelves[s..][1..] == shelves[s + 1..];
  }

  lemma ShelfStep(row: int32, shelf: int32, cur: nat, text: Text)
    requires text != [] && cur + |text| < 0x8000_0000
    ensures
      var length := LineLength(text, LINE_LIMIT);
      ShelfBooks(row, shelf, cur, text)
      == [Book(row, shelf, cur as int32, Chomp(text[..length]))] + ShelfBooks(row, shelf, cur + 1, text[length..])
  {}

  lemma NoMoreLines(row: int32, shelf: int32, cur: nat)
    requires cur < 0x8000_0000
    ensures ShelfBooks(row, shelf, cur, []) == []
  {}

  lemma NoMoreShelves(row: int32, shelves: seq<Shelf>)
    requires shelves == []
    ensures RowBooks(row, shelves) == []
  {}
}
