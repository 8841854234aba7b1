/** A client's progress through its row: up to five attempts for each book. */
module Attempts {
  import opened Options
  import opened CStrings
  import opened WireFormat
  import opened Messages

  datatype Progress =
    | Sending(cur: nat, tries: nat)
    | Finished
    | Failed(cur: nat)

  /** The first attempt for the book at `cur`, or the normal end. */
  function At(books: seq<Book>, cur: nat): Progress
    requires cur <= |books|
  {
    if cur == |books| then Finished else Sending(cur, 0)
  }

  ghost predicate Proper(books: seq<Book>, progress: Progress) {
    match progress
    case Sending(cur, tries) => cur < |books| && tries < RETRIES
    case Finished => true
    case Failed(cur) => cur < |books|
  }

  function AfterAttempt(books: seq<Book>, progress: Progress, acknowledged: bool): (next: Progress)
    requires progress.Sending? && Proper(books, progress)
    ensures Proper(books, next)
  {
    if acknowledged then At(books, progress.cur + 1)
    else if progress.tries + 1 == RETRIES then Failed(progress.cur)
    else Sending(progress.cur, progress.tries + 1)
  }

  /** No reply before the timeout is the same as a wrong one. */
  predicate Answered(request: seq<byte>, reply: Option<seq<byte>>) {
    reply.Some? && Acknowledges(request, reply.value)
  }

  /** Where the row ends up when the attempts receive `answers` one after the other. */
  function Outcome(books: seq<Book>, progress: Progress, answers: seq<Option<seq<byte>>>): (end: Progress)
    requires Proper(books, progress)
    decreases |answers|
  {
    if !progress.Sending? || answers == [] then progress else
      var acknowledged := Answered(AddRequest(books[progress.cur]), answers[0]);
      Outcome(books, AfterAttempt(books, progress, acknowledged), answers[1..])
  }

  /** The requests that are sent on the way there. */
  function Attempted(books: seq<Book>, progress: Progress, answers: seq<Option<seq<byte>>>): (sent: seq<seq<byte>>)
    requires Proper(books, progress)
    decreases |answers|
  {
    if !progress.Sending? || answers == [] then [] else
      var request := AddRequest(books[progress.cur]);
      [request] + Attempted(books, AfterAttempt(books, progress, Answered(request, answers[0])), answers[1..])
  }

  /** How many attempts can still be made. */
  function AttemptsLeft(books: seq<Book>, progress: Progress): nat
    requires Proper(books, progress)
  {
    if progress.Sending? then RETRIES * (|books| - progress.cur) - progress.tries else 0
  }

  /** Five attempts a book always decide: the row is sent, or some book got five wrong answers. */
  lemma {:induction false} EnoughAttemptsDecide(books: seq<Book>, progress: Progress, answers: seq<Option<seq<byte>>>)
    requires Proper(books, progress) && |answers| >= AttemptsLeft(books, progress)
    ensures !Outcome(books, progress, answers).Sending?
    ensures |Attempted(books, progress, answers)| <= AttemptsLeft(books, progress)
    decreases |answers|
  {
    hide AddRequest, Answered;
    if progress.Sending? {
      var acknowledged := Answered(AddRequest(books[progress.cur]), answers[0]);
      EnoughAttemptsDecide(books, AfterAttempt(books, progress, acknowledged), answers[1..]);
    }
  }

  /** A normal end means that every book from here on was acknowledged by some answer. */
  lemma {:induction false} FinishedMeansAnswered(books: seq<Book>, progress: Progress, answers: seq<Option<seq<byte>>>,
                                                 i: nat)
    requires Proper(books, progress) && progress.Sending? && progress.cur <= i < |books|
    requires Outcome(books, progress, answers).Finished?
    ensures exists a :: a in answers && Answered(AddRequest(books[i]), a)
    decreases |answers|
  {
    hide AddRequest, Answered;
    var acknowledged := Answered(AddRequest(books[progress.cur]), answers[0]);
    if acknowledged && progress.cur == i {
      assert answers[0] in answers;
    } else {
      FinishedMeansAnswered(books, AfterAttempt(books, progress, acknowledged), answers[1..], i);
      var a :| a in answers[1..] && Answered(AddRequest(books[i]), a);
      assert a in answers;
    }
  }

  // The same, told by the answers alone.

  /** The `n`-th answer is the first to acknowledge `request`, and `n` is at most five. */
  ghost predicate AcknowledgedBy(request: seq<byte>, answers: seq<Option<seq<byte>>>, n: nat) {
    && 1 <= n <= 5 && n <= |answers| && Answered(request, answers[n - 1])
    && forall i :: 0 <= i < n - 1 ==> !Answered(request, answers[i])
  }

  /** None of the first five answers acknowledges `request`. */
  ghost predicate FiveWrong(request: seq<byte>, answers: seq<Option<seq<byte>>>) {
    |answers| >= 5 && forall i :: 0 <= i < 5 ==> !Answered(request, answers[i])
  }

  function Copies(request: seq<byte>, n: nat): (sent: seq<seq<byte>>)
    ensures |sent| == n && forall i :: 0 <= i < n ==> sent[i] == request
  {
    seq(n, _ => request)
  }

  lemma OneTry(books: seq<Book>, progress: Progress, answers: seq<Option<seq<byte>>>)
    requires progress.Sending? && Proper(books, progress) && answers != []
    ensures
      var request := AddRequest(books[progress.cur]);
      var next := AfterAttempt(books, progress, Answered(request, answers[0]));
      && Outcome(books, progress, answers) == Outcome(books, next, answers[1..])
      && Attempted(books, progress, answers) == [request] + Attempted(books, next, answers[1..])
  {
    hide AddRequest, Answered;
  }

  /** Wrong answers as far as they go, short of the fifth: one copy is sent for each of them. */
  lemma {:induction false} TriesGoOn(books: seq<Book>, cur: nat, answers: seq<Option<seq<byte>>>, n: nat)
    requires cur < |books| && n < 5 && n <= |answers|
    requires forall i :: 0 <= i < n ==> !Answered(AddRequest(books[cur]), answers[i])
    ensures Outcome(books, Sending(cur, 0), answers) == Outcome(books, Sending(cur, n), answers[n..])
    ensures Attempted(books, Sending(cur, 0), answers)
         == Copies(AddRequest(books[cur]), n) + Attempted(books, Sending(cur, n), answers[n..])
    decreases n
  {
    hide AddRequest, Answered, Outcome, Attempted;
    if n == 0 {
      assert answers[0..] == answers;
    } else {
      TriesGoOn(books, cur, answers, n - 1);
      OneTry(books, Sending(cur, n - 1), answers[n - 1..]);
      assert answers[n - 1..][1..] == answers[n..];
      assert Copies(AddRequest(books[cur]), n)
          == Copies(AddRequest(books[cur]), n - 1) + [AddRequest(books[cur])];
    }
  }

  /** The first of at most five answers that acknowledges takes the client on; nothing is sent after it. */
  lemma BookIsAcknowledged(books: seq<Book>, cur: nat, answers: seq<Option<seq<byte>>>, n: nat)
    requires cur < |books| && AcknowledgedBy(AddRequest(books[cur]), answers, n)
    ensures Outcome(books, Sending(cur, 0), answers) == Outcome(books, At(books, cur + 1), answers[n..])
    ensures Attempted(books, Sending(cur, 0), answers)
         == Copies(AddRequest(books[cur]), n) + Attempted(books, At(books, cur + 1), answers[n..])
  {
    hide AddRequest, Answered, Outcome, Attempted;
    TriesGoOn(books, cur, answers, n - 1);
    OneTry(books, Sending(cur, n - 1), answers[n - 1..]);
    assert answers[n - 1..][1..] == answers[n..];
    assert Copies(AddRequest(books[cur]), n) == Copies(AddRequest(books[cur]), n - 1) + [AddRequest(books[cur])];
  }

  /** Five wrong answers, and only they, end the row there, after five copies. */
  lemma BookFails(books: seq<Book>, cur: nat, answers: seq<Option<seq<byte>>>)
    requires cur < |books| && FiveWrong(AddRequest(books[cur]), answers)
    ensures Outcome(books, Sending(cur, 0), answers) == Failed(cur)
    ensures Attempted(books, Sending(cur, 0), answers) == Copies(AddRequest(books[cur]), 5)
  {
    hide AddRequest, Answered, Outcome, Attempted;
    TriesGoOn(books, cur, answers, 4);
    OneTry(books, Sending(cur, 4), answers[4..]);
    NothingAfterEnd(books, Failed(cur), answers[4..][1..]);
    assert Copies(AddRequest(books[cur]), 5) == Copies(AddRequest(books[cur]), 4) + [AddRequest(books[cur])];
  }

  lemma NothingAfterEnd(books: seq<Book>, end: Progress, answers: seq<Option<seq<byte>>>)
    requires Proper(books, end) && !end.Sending?
    ensures Outcome(books, end, answers) == end && Attempted(books, end, answers) == []
  {}

  lemma {:induction false} FirstOrNone(request: seq<byte>, answers: seq<Option<seq<byte>>>, k: nat)
    returns (n: nat)
    requires |answers| >= 5 && k <= 5 && forall i :: 0 <= i < k ==> !Answered(request, answers[i])
    ensures if n == 0 then FiveWrong(request, answers) else AcknowledgedBy(request, answers, n)
    decreases 5 - k
  {
    hide Answered;
    if k == 5 {
      n := 0;
    } else if Answered(request, answers[k]) {
      n := k + 1;
    } else {
      n := FirstOrNone(request, answers, k + 1);
    }
  }

  function Spent(counts: seq<nat>): nat {
    if counts == [] then 0 else counts[0] + Spent(counts[1..])
  }

  /** From book `cur` on the next |counts| books are acknowledged, each by its own share of the answers. */
  ghost predicate Transcript(books: seq<Book>, cur: nat, answers: seq<Option<seq<byte>>>, counts: seq<nat>)
    decreases |counts|
  {
    counts != [] ==>
      && cur < |books| && AcknowledgedBy(AddRequest(books[cur]), answers, counts[0])
      && Transcript(books, cur + 1, answers[counts[0]..], counts[1..])
  }

  /** The copies of requests that go with these shares, book after book. */
  function Shares(books: seq<Book>, cur: nat, counts: seq<nat>): seq<seq<byte>>
    requires cur + |counts| <= |books|
    decreases |counts|
  {
    if counts == [] then [] else Copies(AddRequest(books[cur]), counts[0]) + Shares(books, cur + 1, counts[1..])
  }

  lemma {:induction false} TranscriptIsFollowed(books: seq<Book>, cur: nat, answers: seq<Option<seq<byte>>>,
                                                counts: seq<nat>)
    requires cur <= |books| && Transcript(books, cur, answers, counts)
    ensures cur + |counts| <= |books| && Spent(counts) <= |answers|
    ensures Outcome(books, At(books, cur), answers)
         == Outcome(books, At(books, cur + |counts|), answers[Spent(counts)..])
    ensures Attempted(books, At(books, cur), answers)
         == Shares(books, cur, counts) + Attempted(books, At(books, cur + |counts|), answers[Spent(counts)..])
    decreases |counts|
  {
    hide AddRequest, AcknowledgedBy, Outcome, Attempted;
    if counts == [] {
      assert answers[0..] == answers;
    } else {
      var n := counts[0];
      ShareFits(AddRequest(books[cur]), answers, n);
      TranscriptIsFollowed(books, cur + 1, answers[n..], counts[1..]);
      BookIsAcknowledged(books, cur, answers, n);
      assert answers[n..][Spent(counts[1..])..] == answers[Spent(counts)..];
    }
  }

  lemma ShareFits(request: seq<byte>, answers: seq<Option<seq<byte>>>, n: nat)
    requires AcknowledgedBy(request, answers, n)
    ensures 1 <= n <= 5 && n <= |answers|
  {}

  /** Some book gets five wrong answers in a row after the books before it were acknowledged. */
  ghost predicate RowFails(books: seq<Book>, answers: seq<Option<seq<byte>>>, counts: seq<nat>) {
    && |counts| < |books| && Transcript(books, 0, answers, counts) && Spent(counts) <= |answers|
    && FiveWrong(AddRequest(books[|counts|]), answers[Spent(counts)..])
  }

  ghost predicate RowPasses(books: seq<Book>, answers: seq<Option<seq<byte>>>, counts: seq<nat>) {
    |counts| == |books| && Transcript(books, 0, answers, counts)
  }

  lemma FailingRow(books: seq<Book>, answers: seq<Option<seq<byte>>>, counts: seq<nat>)
    requires RowFails(books, answers, counts)
    ensures Outcome(books, At(books, 0), answers) == Failed(|counts|)
    ensures Attempted(books, At(books, 0), answers)
         == Shares(books, 0, counts) + Copies(AddRequest(books[|counts|]), 5)
  {
    hide AddRequest, FiveWrong, Outcome, Attempted, Transcript;
    TranscriptIsFollowed(books, 0, answers, counts);
    BookFails(books, |counts|, answers[Spent(counts)..]);
  }

  lemma PassingRow(books: seq<Book>, answers: seq<Option<seq<byte>>>, counts: seq<nat>)
    requires RowPasses(books, answers, counts)
    ensures Outcome(books, At(books, 0), answers) == Finished
    ensures Attempted(books, At(books, 0), answers) == Shares(books, 0, counts)
  {
    hide AddRequest, Outcome, Attempted, Transcript;
    TranscriptIsFollowed(books, 0, answers, counts);
    NothingAfterEnd(books, Finished, answers[Spent(counts)..]);
    assert Shares(books, 0, counts) + [] == Shares(books, 0, counts);
  }

  /** With five answers a book one of the two is the case. */
  lemma {:induction false} TranscriptExists(books: seq<Book>, cur: nat, answers: seq<Option<seq<byte>>>)
    returns (counts: seq<nat>)
    requires cur <= |books| && |answers| >= 5 * (|books| - cur)
    ensures Transcript(books, cur, answers, counts) && cur + |counts| <= |books| && Spent(counts) <= |answers|
    ensures cur + |counts| < |books| ==> FiveWrong(AddRequest(books[cur + |counts|]), answers[Spent(counts)..])
    decreases |books| - cur
  {
    hide AddRequest, AcknowledgedBy, FiveWrong;
    counts := [];
    if cur < |books| {
      var n := FirstOrNone(AddRequest(books[cur]), answers, 0);
      if n == 0 {
        assert answers[0..] == answers;
      } else {
        ShareFits(AddRequest(books[cur]), answers, n);
        var rest := TranscriptExists(books, cur + 1, answers[n..]);
        counts := [n] + rest;
        assert counts[1..] == rest;
        assert answers[n..][Spent(rest)..] == answers[Spent(counts)..];
      }
    }
  }

  /** The row fails exactly when some book gets five wrong answers in a row, and else every book is acknowledged. */
  lemma RowFailsExactlyWhen(books: seq<Book>, answers: seq<Option<seq<byte>>>)
    requires |answers| >= 5 * |books|
    ensures Outcome(books, At(books, 0), answers).Failed? <==> exists counts :: RowFails(books, answers, counts)
    ensures Outcome(books, At(books, 0), answers).Finished? <==> exists counts :: RowPasses(books, answers, counts)
  {
    hide Outcome, Transcript, FiveWrong, RowFails, RowPasses;
    forall counts | RowFails(books, answers, counts)
      ensures Outcome(books, At(books, 0), answers).Failed?
    {
      FailingRow(books, answers, counts);
    }
    forall counts | RowPasses(books, answers, counts)
      ensures Outcome(books, At(books, 0), answers).Finished?
    {
      PassingRow(books, answers, counts);
    }
    var counts := TranscriptExists(books, 0, answers);
    EitherRow(books, answers, counts);
  }

  lemma EitherRow(books: seq<Book>, answers: seq<Option<seq<byte>>>, counts: seq<nat>)
    requires Transcript(books, 0, answers, counts) && |counts| <= |books| && Spent(counts) <= |answers|
    requires |counts| < |books| ==> FiveWrong(AddRequest(books[|counts|]), answers[Spent(counts)..])
    ensures RowFails(books, answers, counts) || RowPasses(books, answers, counts)
  {}
}
