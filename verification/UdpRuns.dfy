/** Safety of the UDP library system over whole runs. */
module UdpRuns {
  import opened Sorting
  import opened WireFormat
  import opened Index
  import opened Messages
  import opened Shelves
  import opened Attempts
  import opened UdpProtocol
  import opened UdpInvariants

  ghost predicate IsRun(states: seq<State>, actions: seq<Action>) {
    && |states| == |actions| + 1
    && Init(states[0])
    && forall i :: 0 <= i < |actions| ==> Step(states[i], actions[i], states[i + 1])
  }

  lemma {:induction false} RunKeepsInv(states: seq<State>, actions: seq<Action>, i: nat)
    requires IsRun(states, actions) && i < |states|
    ensures Inv(states[i])
  {
    hide Inv, Init, Step;
    if i == 0 {
      InitInv(states[0]);
    } else {
      RunKeepsInv(states, actions, i - 1);
      StepKeepsInv(states[i - 1], actions[i - 1], states[i]);
    }
  }

  // Nothing is ever taken back.

  ghost predicate Grows(s: State, s': State) {
    && s.nextSock <= s'.nextSock && s.requests <= s'.requests
    && multiset(s.index) <= multiset(s'.index)
  }

  lemma StepGrows(s: State, a: Action, s': State)
    requires Inv(s) && Step(s, a, s')
    ensures Grows(s, s')
  {
    hide AddRequest, ViewRequest, Passes, DecodeLibrary, AttemptEnds, RowBooks, Handles, DecodeBook, AddedTo, Ack;
    hide RepliesInv, ClientsInv, ObserversInv, Leaves, IsIndex, Snapshot;
    if a.ServerHandle? {
      if a.request.bytes == ViewRequest() {
        ServerShows(s, a.request, a.stale, a.answer, s');
      } else {
        var b :| Offered(s, b) && a.request.bytes == AddRequest(b);
        ServerStep(s, a.request, a.stale, a.answer, s', b);
        AddKeepsIndex(s.index, b, s'.index);
      }
    }
  }

  lemma {:induction false} RunGrows(states: seq<State>, actions: seq<Action>, i: nat, j: nat)
    requires IsRun(states, actions) && i <= j < |states|
    ensures Grows(states[i], states[j])
    decreases j - i
  {
    hide Inv, Init, Step;
    if i < j {
      RunGrows(states, actions, i, j - 1);
      RunKeepsInv(states, actions, j - 1);
      StepGrows(states[j - 1], actions[j - 1], states[j]);
    }
  }

  /** The same clients, each with the same row. */
  ghost predicate SameClients(s: State, s': State) {
    && s'.clients.Keys == s.clients.Keys
    && forall c :: c in s.clients ==>
         s'.clients[c].row == s.clients[c].row && s'.clients[c].shelves == s.clients[c].shelves
  }

  lemma StepKeepsClients(s: State, a: Action, s': State)
    requires Step(s, a, s')
    ensures SameClients(s, s')
  {
    hide AddRequest, ViewRequest, Passes, DecodeLibrary, RowBooks, Handles, DecodeBook, AfterAttempt, Acknowledges;
  }

  lemma {:induction false} RunKeepsClients(states: seq<State>, actions: seq<Action>, i: nat, j: nat)
    requires IsRun(states, actions) && i <= j < |states|
    ensures SameClients(states[i], states[j])
    decreases j - i
  {
    hide Init, Step;
    if i < j {
      RunKeepsClients(states, actions, i, j - 1);
      StepKeepsClients(states[j - 1], actions[j - 1], states[j]);
    }
  }

  lemma HasKeyInLarger(x: seq<Book>, y: seq<Book>, key: Key)
    requires multiset(x) <= multiset(y) && HasKey(x, key)
    ensures HasKey(y, key)
  {
    var b :| b in x && KeyOf(b) == key;
    assert b in multiset(x);
    assert b in multiset(y);
  }

  // Acknowledged means stored.

  /** At step `a` client `c` takes a reply that makes `sendBook` return 0. */
  ghost predicate AcknowledgedAt(states: seq<State>, actions: seq<Action>, a: nat, c: nat)
    requires IsRun(states, actions)
  {
    && a < |actions| && actions[a].ClientReceive? && actions[a].c == c && Busy(states[a], c)
    && Acknowledges(AddRequest(Current(states[a].clients[c])), actions[a].reply)
  }

  /** From that moment on the index holds one book, and only one, under the acknowledged key. */
  lemma AcknowledgedStaysStored(states: seq<State>, actions: seq<Action>, a: nat, c: nat, j: nat)
    requires IsRun(states, actions) && AcknowledgedAt(states, actions, a, c) && a <= j < |states|
    ensures HasKey(states[j].index, KeyOf(Current(states[a].clients[c])))
    ensures DistinctKeys(states[j].index)
  {
    hide Acknowledges, AddRequest, RowBooks, HasKey, Init, Leaves, AttemptEnds;
    RunKeepsInv(states, actions, a);
    assert Step(states[a], actions[a], states[a + 1]);
    AcceptedMeansStored(states[a], c, actions[a].reply);
    RunGrows(states, actions, a, j);
    HasKeyInLarger(states[a].index, states[j].index, KeyOf(Current(states[a].clients[c])));
    RunKeepsInv(states, actions, j);
  }

  /** A client that ends normally has every one of its keys in the index, then and later. */
  lemma FinishedRowIsStored(states: seq<State>, actions: seq<Action>, i: nat, c: nat, j: nat, b: Book)
    requires IsRun(states, actions) && i <= j < |states|
    requires c in states[i].clients && states[i].clients[c].progress.Finished?
    requires b in states[i].clients[c].Books()
    ensures HasKey(states[j].index, KeyOf(b))
  {
    hide Init, Step, RowBooks, HasKey, RequestsInv, RepliesInv, ObserversInv, IndexInv;
    RunKeepsInv(states, actions, i);
    assert ClientInv(states[i], c);
    RunGrows(states, actions, i, j);
    HasKeyInLarger(states[i].index, states[j].index, KeyOf(b));
  }

  /** The index over all runs: ordered, one book per key, the first handled one, offered by some client. */
  lemma IndexOverAllRuns(states: seq<State>, actions: seq<Action>, i: nat)
    requires IsRun(states, actions) && i < |states|
    ensures IsIndex(states[i].index)
    ensures SortOf(NameLe, Firsts(states[i].handled), states[i].index)
    ensures forall b :: b in states[i].handled || b in states[i].index ==>
              Offered(states[i], b) && WasRequested(states[i], b)
  {
    hide Init, Step, RequestsInv, RepliesInv, ObserversInv, ClientsInv, Offered, WasRequested, Leaves, IsIndex;
    RunKeepsInv(states, actions, i);
    LeavesExactly(states[i].handled, states[i].index);
    SameMembers(Firsts(states[i].handled), states[i].index);
    FirstsHaveTheKeys(states[i].handled);
    forall b | b in states[i].handled
      ensures WasRequested(states[i], b)
    {
      HandledWasRequested(states, actions, i, b);
    }
  }

  /** Every request that was ever sent passes its check, so the server reports none of them as broken. */
  lemma EveryRequestPasses(states: seq<State>, actions: seq<Action>, i: nat, d: Datagram)
    requires IsRun(states, actions) && i < |states| && d in states[i].requests
    ensures Passes(d.bytes)
  {
    hide Init, Step, AddRequest, ViewRequest, Passes, Offered, RepliesInv, ClientsInv, ObserversInv, IndexInv;
    RunKeepsInv(states, actions, i);
    if d.bytes == ViewRequest() {
      RequestsPass(Book(0, 0, 0, []));
    } else {
      var b :| Offered(states[i], b) && d.bytes == AddRequest(b);
      RequestsPass(b);
    }
  }

  ghost predicate WasRequested(s: State, b: Book) {
    exists d :: d in s.requests && d.bytes == AddRequest(b)
  }

  lemma NewlyHandled(s: State, a: Action, s': State, b: Book)
    requires Inv(s) && Step(s, a, s') && b in s'.handled && b !in s.handled
    ensures WasRequested(s, b)
  {
    hide AddRequest, ViewRequest, Passes, DecodeLibrary, AttemptEnds, RowBooks, Handles, DecodeBook, AddedTo, Ack;
    hide RepliesInv, ClientsInv, ObserversInv, Leaves, IsIndex, Snapshot, IndexInv, Offered;
    assert a.ServerHandle?;
    if a.request.bytes == ViewRequest() {
      ServerShows(s, a.request, a.stale, a.answer, s');
    } else {
      var x :| Offered(s, x) && a.request.bytes == AddRequest(x);
      ServerStep(s, a.request, a.stale, a.answer, s', x);
    }
  }

  /** Every indexed book was the content of a request that some client sent. */
  lemma {:induction false} HandledWasRequested(states: seq<State>, actions: seq<Action>, i: nat, b: Book)
    requires IsRun(states, actions) && i < |states| && b in states[i].handled
    ensures WasRequested(states[i], b)
  {
    hide Init, Step, Inv, AddRequest;
    RunKeepsInv(states, actions, i);
    if i == 0 {
      NothingHandledAtFirst(states[0]);
    } else {
      RunKeepsInv(states, actions, i - 1);
      RunGrows(states, actions, i - 1, i);
      if b in states[i - 1].handled {
        HandledWasRequested(states, actions, i - 1, b);
      } else {
        NewlyHandled(states[i - 1], actions[i - 1], states[i], b);
      }
    }
  }

  lemma NothingHandledAtFirst(s: State)
    requires Init(s)
    ensures s.handled == []
  {}

  // What an observer sees.

  lemma NewReply(s: State, a: Action, s': State, p: Datagram)
    requires Step(s, a, s') && p in s'.replies && p !in s.replies
    ensures a.ServerHandle? && a.request in s.requests && a.request.sock == p.sock
    ensures s'.requests == s.requests
  {
    hide AddRequest, ViewRequest, Passes, DecodeLibrary, AttemptEnds, RowBooks, Handles, DecodeBook;
  }

  /** Every reply was made in a step that handled the request whose socket it goes to. */
  lemma {:induction false} ReplyHasItsStep(states: seq<State>, actions: seq<Action>, j: nat, d: Datagram, p: Datagram)
    returns (t: nat)
    requires IsRun(states, actions) && j < |states|
    requires p in states[j].replies && d in states[j].requests && d.sock == p.sock
    ensures t < j && d in states[t].requests && actions[t].ServerHandle? && actions[t].request == d
    ensures p !in states[t].replies && p in states[t + 1].replies
  {
    hide Init, Step, ViewRequest, ClientsInv, ObserversInv, IndexInv, AddRequest, Offered, HasKey;
    if j == 0 {
      EmptyAtFirst(states[0]);
    } else {
      RunKeepsInv(states, actions, j);
      RunKeepsInv(states, actions, j - 1);
      RunGrows(states, actions, j - 1, j);
      if p in states[j - 1].replies {
        var e :| e in states[j - 1].requests && e.sock == p.sock;
        t := ReplyHasItsStep(states, actions, j - 1, d, p);
      } else {
        NewReply(states[j - 1], actions[j - 1], states[j], p);
        t := j - 1;
      }
    }
  }

  /** A reply to a view request is a snapshot of the index at some moment after that request was sent. */
  lemma ReplyShowsAnIndex(states: seq<State>, actions: seq<Action>, j: nat, d: Datagram, p: Datagram)
    returns (t: nat)
    requires IsRun(states, actions) && j < |states|
    requires p in states[j].replies && d in states[j].requests && d.sock == p.sock && d.bytes == ViewRequest()
    ensures t <= j && d in states[t].requests
    ensures SnapshotFits(states[t].index) && p.bytes == Snapshot(states[t].index)
  {
    hide Init, Step, ViewRequest, SnapshotFits, Snapshot;
    t := ReplyHasItsStep(states, actions, j, d, p);
    var a := actions[t];
    StepOfServer(states[t], a, states[t + 1]);
    ServerShows(states[t], a.request, a.stale, a.answer, states[t + 1]);
  }

  /** A client's attempt can only be answered by the one reply it accepts, so a book fails by timeouts alone. */
  lemma ReplyAcknowledges(states: seq<State>, actions: seq<Action>, j: nat, d: Datagram, b: Book, p: Datagram)
    requires IsRun(states, actions) && j < |states|
    requires p in states[j].replies && d in states[j].requests && d.sock == p.sock && d.bytes == AddRequest(b)
    ensures p.bytes == Ack(d.bytes) && Acknowledges(d.bytes, p.bytes)
  {
    hide Init, Step, Acknowledges, AddRequest, Ack;
    AckIsTheAcceptedReply(d.bytes, p.bytes);
    var t := ReplyHasItsStep(states, actions, j, d, p);
    var a := actions[t];
    StepOfServer(states[t], a, states[t + 1]);
    ServerStep(states[t], a.request, a.stale, a.answer, states[t + 1], b);
  }

  lemma EmptyAtFirst(s: State)
    requires Init(s)
    ensures s.replies == {}
  {}

  lemma StepOfServer(s: State, a: Action, s': State)
    requires Step(s, a, s') && a.ServerHandle?
    ensures ServerHandles(s, a.request, a.stale, a.answer, s')
  {}
}
