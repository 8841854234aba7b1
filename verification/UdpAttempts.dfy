/** Clients and observers of the machine make exactly the attempts that their programs make. */
module UdpAttempts {
  import opened Options
  import opened CStrings
  import opened WireFormat
  import opened Messages
  import opened Shelves
  import opened Attempts
  import opened UdpProtocol
  import opened UdpInvariants
  import opened UdpRuns

  /** What an attempt of client `c` that ends with this action was answered. */
  function AnswerTo(a: Action, c: nat): seq<Option<seq<byte>>> {
    if a.ClientReceive? && a.c == c then [Some(a.reply)]
    else if a == ClientTimeout(c) then [None]
    else []
  }

  function AnswersTo(actions: seq<Action>, c: nat): seq<Option<seq<byte>>> {
    if actions == [] then [] else AnswersTo(actions[..|actions| - 1], c) + AnswerTo(actions[|actions| - 1], c)
  }

  /** The requests that client `c` sends in the first `i` steps. */
  function SentBy(states: seq<State>, actions: seq<Action>, c: nat, i: nat): seq<seq<byte>>
    requires i <= |actions| < |states|
  {
    if i == 0 then []
    else SentBy(states, actions, c, i - 1)
         + if actions[i - 1] == ClientSend(c) && c in states[i - 1].clients then NextRequest(states[i - 1].clients[c]) else []
  }

  /** The request of the book that a client is working on, if there is one. */
  function NextRequest(client: Client): seq<seq<byte>> {
    if client.progress.Sending? && client.progress.cur < |client.Books()| then [AddRequest(Current(client))] else []
  }

  function UnderWay(client: Client): seq<seq<byte>> {
    if client.sock.Some? then NextRequest(client) else []
  }

  lemma {:induction false} OneMoreAnswer(books: seq<Book>, progress: Progress, answers: seq<Option<seq<byte>>>,
                                         answer: Option<seq<byte>>)
    requires Proper(books, progress) && Outcome(books, progress, answers).Sending?
    ensures Proper(books, Outcome(books, progress, answers))
    ensures
      var before := Outcome(books, progress, answers);
      var request := AddRequest(books[before.cur]);
      && Outcome(books, progress, answers + [answer]) == AfterAttempt(books, before, Answered(request, answer))
      && Attempted(books, progress, answers + [answer]) == Attempted(books, progress, answers) + [request]
    decreases |answers|
  {
    hide AddRequest, Answered;
    if answers == [] {
      assert [] + [answer] == [answer];
      NoAnswers(books, AfterAttempt(books, progress, Answered(AddRequest(books[progress.cur]), answer)));
      OneTry(books, progress, [answer]);
    } else {
      var request := AddRequest(books[progress.cur]);
      OneMoreAnswer(books, AfterAttempt(books, progress, Answered(request, answers[0])), answers[1..], answer);
      OneTry(books, progress, answers);
      OneTry(books, progress, answers + [answer]);
      assert (answers + [answer])[1..] == answers[1..] + [answer];
    }
  }

  lemma NoAnswers(books: seq<Book>, progress: Progress)
    requires Proper(books, progress)
    ensures Outcome(books, progress, []) == progress && Attempted(books, progress, []) == []
  {}

  /** One step, seen from one client. */
  lemma ClientStep(s: State, a: Action, s': State, c: nat)
    requires Step(s, a, s') && c in s.clients
    ensures c in s'.clients && s'.clients[c].Books() == s.clients[c].Books()
    ensures
      var client, client' := s.clients[c], s'.clients[c];
      if AnswerTo(a, c) != [] then
        && client.sock.Some? && client.progress.Sending? && Proper(client.Books(), client.progress)
        && client' == AttemptEnds(client, Answered(AddRequest(Current(client)), AnswerTo(a, c)[0]))
      else if a == ClientSend(c) then
        && client.sock.None? && client.progress.Sending? && Proper(client.Books(), client.progress)
        && client'.sock.Some? && client'.progress == client.progress
      else client' == client
  {
    hide AddRequest, ViewRequest, Passes, DecodeLibrary, RowBooks, Handles, DecodeBook, AfterAttempt, Acknowledges;
  }

  lemma AnswersOneMore(actions: seq<Action>, c: nat, i: nat)
    requires 0 < i <= |actions|
    ensures AnswersTo(actions[..i], c) == AnswersTo(actions[..i - 1], c) + AnswerTo(actions[i - 1], c)
  {
    assert actions[..i][..i - 1] == actions[..i - 1];
  }

  /** The client follows its program. */
  ghost predicate Follows(client: Client, answers: seq<Option<seq<byte>>>, sent: seq<seq<byte>>) {
    && client.progress == Outcome(client.Books(), At(client.Books(), 0), answers)
    && sent == Attempted(client.Books(), At(client.Books(), 0), answers) + UnderWay(client)
  }

  lemma EndFollows(client: Client, client': Client, answers: seq<Option<seq<byte>>>, sent: seq<seq<byte>>,
                   answer: Option<seq<byte>>)
    requires Follows(client, answers, sent) && client.sock.Some? && client.progress.Sending?
    requires Proper(client.Books(), client.progress)
    requires client' == AttemptEnds(client, Answered(AddRequest(Current(client)), answer))
    requires client'.Books() == client.Books()
    ensures Follows(client', answers + [answer], sent)
  {
    hide AddRequest, Answered, RowBooks, AfterAttempt, Outcome, Attempted;
    OneMoreAnswer(client.Books(), At(client.Books(), 0), answers, answer);
    assert sent + [] == sent;
  }

  lemma SendFollows(client: Client, client': Client, answers: seq<Option<seq<byte>>>, sent: seq<seq<byte>>)
    requires Follows(client, answers, sent) && client.sock.None? && client.progress.Sending?
    requires Proper(client.Books(), client.progress)
    requires client'.sock.Some? && client'.progress == client.progress && client'.Books() == client.Books()
    ensures Follows(client', answers, sent + NextRequest(client))
  {
    hide AddRequest, RowBooks, Outcome, Attempted;
    var attempted := Attempted(client.Books(), At(client.Books(), 0), answers);
    assert attempted + [] == attempted;
  }

  /** In every run a client is where its loops take it on the answers it got, and sent what they send. */
  lemma {:induction false} ClientsFollowTheirProgram(states: seq<State>, actions: seq<Action>, c: nat, i: nat)
    requires IsRun(states, actions) && i < |states| && c in states[0].clients
    ensures c in states[i].clients
    ensures Follows(states[i].clients[c], AnswersTo(actions[..i], c), SentBy(states, actions, c, i))
  {
    hide Init, Step, Follows, AttemptEnds, RowBooks, NextRequest, AddRequest, Answered;
    if i == 0 {
      StartFollows(states[0], c);
      assert actions[..0] == [];
    } else {
      ClientsFollowTheirProgram(states, actions, c, i - 1);
      var a := actions[i - 1];
      ClientStep(states[i - 1], a, states[i], c);
      var client, client' := states[i - 1].clients[c], states[i].clients[c];
      AnswersOneMore(actions, c, i);
      var answers, sent := AnswersTo(actions[..i - 1], c), SentBy(states, actions, c, i - 1);
      if AnswerTo(a, c) != [] {
        EndFollows(client, client', answers, sent, AnswerTo(a, c)[0]);
        assert AnswerTo(a, c) == [AnswerTo(a, c)[0]];
        assert sent + [] == sent;
      } else {
        assert answers + [] == answers;
        if a == ClientSend(c) {
          SendFollows(client, client', answers, sent);
        } else {
          assert sent + [] == sent;
        }
      }
    }
  }

  lemma StartFollows(s: State, c: nat)
    requires Init(s) && c in s.clients
    ensures Follows(s.clients[c], [], [])
  {
    hide RowBooks;
    NoAnswers(s.clients[c].Books(), At(s.clients[c].Books(), 0));
  }

  // Observers.

  function Sends(actions: seq<Action>, o: nat): nat {
    if actions == [] then 0
    else Sends(actions[..|actions| - 1], o) + if actions[|actions| - 1] == ObserverSend(o) then 1 else 0
  }

  /** Attempts since the last view: those that failed and the one under way. */
  function Fruitless(observer: Observer): nat {
    observer.tries + if observer.sock.Some? then 1 else 0
  }

  /** The observer takes a reply that passes. */
  predicate Shows(a: Action, o: nat) {
    a.ObserverReceive? && a.o == o && Passes(a.reply)
  }

  lemma ObserverCounts(s: State, a: Action, s': State, o: nat)
    requires Step(s, a, s') && o in s.observers && Fruitless(s.observers[o]) <= 5
    ensures o in s'.observers && Fruitless(s'.observers[o]) <= 5
    ensures Fruitless(s'.observers[o])
         == if Shows(a, o) then 0 else Fruitless(s.observers[o]) + if a == ObserverSend(o) then 1 else 0
  {
    hide AddRequest, ViewRequest, Passes, DecodeLibrary, RowBooks, Handles, DecodeBook, AfterAttempt, Acknowledges;
  }

  lemma {:induction false} FiveAtMost(states: seq<State>, actions: seq<Action>, o: nat, i: nat)
    requires IsRun(states, actions) && i < |states| && o in states[0].observers
    ensures o in states[i].observers && Fruitless(states[i].observers[o]) <= 5
  {
    hide Init, Step, Fruitless;
    if i == 0 {
      NoneAtFirst(states[0], o);
    } else {
      FiveAtMost(states, actions, o, i - 1);
      ObserverCounts(states[i - 1], actions[i - 1], states[i], o);
    }
  }

  lemma NoneAtFirst(s: State, o: nat)
    requires Init(s) && o in s.observers
    ensures Fruitless(s.observers[o]) == 0
  {}

  /** Between two views an observer makes at most five attempts, and each of them counts once. */
  lemma {:induction false} FruitlessAttempts(states: seq<State>, actions: seq<Action>, o: nat, i: nat, j: nat)
    requires IsRun(states, actions) && i <= j < |states| && o in states[0].observers
    requires forall h :: i <= h < j ==> !Shows(actions[h], o)
    ensures o in states[i].observers && o in states[j].observers
    ensures Fruitless(states[j].observers[o]) == Fruitless(states[i].observers[o]) + Sends(actions[i..j], o) <= 5
    decreases j - i
  {
    hide Init, Step, Fruitless;
    FiveAtMost(states, actions, o, i);
    FiveAtMost(states, actions, o, j);
    if i == j {
      assert actions[i..j] == [];
    } else {
      FruitlessAttempts(states, actions, o, i, j - 1);
      ObserverCounts(states[j - 1], actions[j - 1], states[j], o);
      assert actions[i..j][..j - i - 1] == actions[i..j - 1];
    }
  }

  /** An observer goes on to its next attempt exactly until five have failed. */
  lemma ObserverGoesOnExactlyWhen(s: State, o: nat)
    requires o in s.observers && s.observers[o].sock.None?
    ensures (exists s' :: Step(s, ObserverSend(o), s')) <==> Fruitless(s.observers[o]) < 5
  {
    hide ViewRequest;
    if Fruitless(s.observers[o]) < 5 {
      var s' := s.(observers := s.observers[o := s.observers[o].(sock := Some(s.nextSock))],
                   requests := s.requests + {Datagram(s.nextSock, ViewRequest())},
                   nextSock := s.nextSock + 1);
      assert Step(s, ObserverSend(o), s');
    }
  }

  /** A client goes on to its next book exactly in the steps that count as acknowledgements. */
  lemma AdvancesExactlyWhenAcknowledged(states: seq<State>, actions: seq<Action>, a: nat, c: nat)
    requires IsRun(states, actions) && a < |actions| && c in states[a].clients
    requires states[a].clients[c].progress.Sending? && states[a].clients[c].progress.cur < |states[a].clients[c].Books()|
    ensures c in states[a + 1].clients
    ensures states[a + 1].clients[c].progress == At(states[a].clients[c].Books(), states[a].clients[c].progress.cur + 1)
            <==> AcknowledgedAt(states, actions, a, c)
  {
    hide Init, Step, Inv, RowBooks, AddRequest, Acknowledges;
    assert Step(states[a], actions[a], states[a + 1]);
    ClientStep(states[a], actions[a], states[a + 1], c);
  }
}
