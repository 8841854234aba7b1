/** A network that delivers lets every attempt succeed, whatever has happened before. */
module UdpProgress {
  import opened Options
  import opened CStrings
  import opened Sorting
  import opened WireFormat
  import opened Index
  import opened Messages
  import opened Shelves
  import opened Attempts
  import opened UdpProtocol
  import opened UdpInvariants
  import opened UdpRuns
  import opened UdpViews

  lemma AdditionIsPossible(index: seq<Book>, b: Book) returns (index': seq<Book>)
    ensures AddedTo(index, b, index')
  {
    NamesAreOrdered();
    SortedIsSorted(NameLe, index + [b]);
    index' := if HasKey(index, KeyOf(b)) then index else Sorted(NameLe, index + [b]);
  }

  /** A request that was ever sent can be handled now, for the first time or again, whatever the buffer holds. */
  lemma ServerCanAdd(s: State, request: Datagram, b: Book, stale: seq<byte>) returns (s': State)
    requires request in s.requests && request.bytes == AddRequest(b)
    requires |request.bytes| + |stale| == 65536
    ensures Step(s, ServerHandle(request, stale, Some(Ack(request.bytes))), s')
    ensures AddedTo(s.index, b, s'.index)
    ensures s' == s.(index := s'.index, handled := s.handled + [b],
                     replies := s.replies + {Datagram(request.sock, Ack(request.bytes))})
  {
    hide AddRequest, DecodeBook, EncodeBook, Ack, AddedTo, Snapshot, SnapshotFits;
    AddRequestIsAdd(b, stale);
    AddIsDecoded(b, stale);
    var index' := AdditionIsPossible(s.index, b);
    s' := s.(index := index', handled := s.handled + [b],
             replies := s.replies + {Datagram(request.sock, Ack(request.bytes))});
  }

  /** A view request too, unless the snapshot does not fit. */
  lemma ServerCanShow(s: State, request: Datagram, stale: seq<byte>) returns (s': State)
    requires request in s.requests && request.bytes == ViewRequest() && SnapshotFits(s.index)
    requires |request.bytes| + |stale| == 65536
    ensures Step(s, ServerHandle(request, stale, Some(Snapshot(s.index))), s')
    ensures s' == s.(replies := s.replies + {Datagram(request.sock, Snapshot(s.index))})
  {
    hide DecodeBook, ViewRequest, AddedTo, Ack, Snapshot;
    ViewIsRecognised(stale);
    ViewIsRecognised([]);
    assert ViewRequest() + [] == ViewRequest();
    s' := s.(replies := s.replies + {Datagram(request.sock, Snapshot(s.index))});
  }

  // What else may happen at any moment, as far as one client, one observer or the network decides it.

  /** A client between two attempts can begin the next; it sends the request of its current book. */
  lemma ClientCanSend(s: State, c: nat) returns (s': State)
    requires c in s.clients && s.clients[c].sock.None? && s.clients[c].progress.Sending?
    requires Proper(s.clients[c].Books(), s.clients[c].progress)
    ensures Step(s, ClientSend(c), s')
    ensures s'.requests == s.requests + {Datagram(s.nextSock, AddRequest(Current(s.clients[c])))}
    ensures s'.clients[c].sock == Some(s.nextSock)
  {
    hide AddRequest, RowBooks;
    s' := s.(clients := s.clients[c := s.clients[c].(sock := Some(s.nextSock))],
             requests := s.requests + {Datagram(s.nextSock, AddRequest(Current(s.clients[c])))},
             nextSock := s.nextSock + 1);
  }

  /** Any reply to the attempt under way can be the one that arrives, however many there are and however old. */
  lemma ClientCanReceive(s: State, c: nat, reply: seq<byte>) returns (s': State)
    requires Busy(s, c) && Datagram(s.clients[c].sock.value, reply) in s.replies
    ensures Step(s, ClientReceive(c, reply), s')
    ensures s'.clients[c] == AttemptEnds(s.clients[c], Acknowledges(AddRequest(Current(s.clients[c])), reply))
  {
    hide AddRequest, RowBooks, Acknowledges, AttemptEnds;
    s' := s.(clients := s.clients[c := AttemptEnds(s.clients[c], Acknowledges(AddRequest(Current(s.clients[c])), reply))]);
  }

  /** The network may lose everything: an attempt under way can always time out. */
  lemma ClientCanTimeOut(s: State, c: nat) returns (s': State)
    requires Busy(s, c)
    ensures Step(s, ClientTimeout(c), s') && s'.clients[c] == AttemptEnds(s.clients[c], false)
    ensures s'.requests == s.requests && s'.replies == s.replies && s'.index == s.index
  {
    hide AddRequest, RowBooks, AttemptEnds;
    s' := s.(clients := s.clients[c := AttemptEnds(s.clients[c], false)]);
  }

  lemma ObserverCanSend(s: State, o: nat) returns (s': State)
    requires o in s.observers && s.observers[o].sock.None? && s.observers[o].tries < 5
    ensures Step(s, ObserverSend(o), s')
    ensures s'.requests == s.requests + {Datagram(s.nextSock, ViewRequest())}
    ensures s'.observers[o].sock == Some(s.nextSock)
  {
    hide ViewRequest;
    s' := s.(observers := s.observers[o := s.observers[o].(sock := Some(s.nextSock))],
             requests := s.requests + {Datagram(s.nextSock, ViewRequest())},
             nextSock := s.nextSock + 1);
  }

  /** Any reply to an observer's attempt can be the one that arrives, into a buffer that holds anything. */
  lemma ObserverCanReceive(states: seq<State>, actions: seq<Action>, o: nat, reply: seq<byte>, stale: seq<byte>)
    returns (t: nat, s': State)
    requires IsRun(states, actions)
    requires
      var s := states[|actions|];
      && o in s.observers && s.observers[o].sock.Some?
      && Datagram(s.observers[o].sock.value, reply) in s.replies
    ensures
      var s := states[|actions|];
      && Step(s, ObserverReceive(o, reply, stale), s') && t < |states|
      && s'.observers[o] == Observer(0, None, s.observers[o].views + [states[t].index])
  {
    hide Init, Passes, DecodeLibrary, EncodeLibrary, Snapshot, ViewRequest, ClientsInv, RepliesInv, IndexInv;
    var s := states[|actions|];
    RunKeepsInv(states, actions, |actions|);
    var k := s.observers[o].sock.value;
    t := ReplyShowsAnIndex(states, actions, |actions|, Datagram(k, ViewRequest()), Datagram(k, reply));
    ObserversNeverReject(states, actions, |actions|, o, reply, stale);
    SnapshotIsDecoded(states[t].index, stale);
    SnapshotWithTail(reply, stale);
    s' := s.(observers := s.observers[o := Observer(0, None, s.observers[o].views + [states[t].index])]);
  }

  lemma ObserverCanTimeOut(s: State, o: nat) returns (s': State)
    requires o in s.observers && s.observers[o].sock.Some?
    ensures Step(s, ObserverTimeout(o), s')
    ensures s'.observers[o] == Observer(s.observers[o].tries + 1, None, s.observers[o].views)
  {
    s' := s.(observers := s.observers[o := Observer(s.observers[o].tries + 1, None, s.observers[o].views)]);
  }

  /** Any clients with any rows, and any number of observers, can start. */
  lemma AnyoneCanStart(rows: map<nat, (int32, seq<Shelf>)>, observers: set<nat>, nextSock: nat) returns (s: State)
    ensures Init(s) && s.clients.Keys == rows.Keys && s.observers.Keys == observers && s.nextSock == nextSock
    ensures forall c :: c in rows ==> s.clients[c].row == rows[c].0 && s.clients[c].shelves == rows[c].1
  {
    hide RowBooks;
    var clients := map c | c in rows :: Client(rows[c].0, rows[c].1, At(RowBooks(rows[c].0, rows[c].1), 0), None);
    s := State([], [], {}, {}, clients, map o | o in observers :: Observer(0, None, []), nextSock);
  }

  /** Send, handle, receive: the client moves on to its next book, and the book is stored. */
  lemma AttemptCanSucceed(s: State, c: nat) returns (stale: seq<byte>, sent: State, handled: State, done: State)
    requires c in s.clients && s.clients[c].sock.None? && s.clients[c].progress.Sending?
    requires Proper(s.clients[c].Books(), s.clients[c].progress)
    ensures Step(s, ClientSend(c), sent)
    ensures
      var request := Datagram(s.nextSock, AddRequest(Current(s.clients[c])));
      && Step(sent, ServerHandle(request, stale, Some(Ack(request.bytes))), handled)
      && Step(handled, ClientReceive(c, Ack(request.bytes)), done)
    ensures AddedTo(s.index, Current(s.clients[c]), done.index)
    ensures done.handled == s.handled + [Current(s.clients[c])]
    ensures done.clients == s.clients[c := s.clients[c].(
              progress := At(s.clients[c].Books(), s.clients[c].progress.cur + 1))]
  {
    hide AddRequest, Ack, AddedTo, RowBooks, Acknowledges, ServerHandles;
    var client := s.clients[c];
    var b := Current(client);
    var request := Datagram(s.nextSock, AddRequest(b));
    RequestSize(client.row, client.shelves, b);
    sent := s.(clients := s.clients[c := client.(sock := Some(s.nextSock))],
               requests := s.requests + {request}, nextSock := s.nextSock + 1);
    stale := seq(BUFFER_SIZE - |request.bytes|, _ => 0);
    handled := ServerCanAdd(sent, request, b, stale);
    AckIsTheAcceptedReply(request.bytes, Ack(request.bytes));
    done := handled.(clients := handled.clients[c := AttemptEnds(handled.clients[c], true)]);
  }

  /** Send, handle, receive: the observer accepts the index as it is. */
  lemma ObservationCanSucceed(s: State, o: nat) returns (stale: seq<byte>, sent: State, handled: State, done: State)
    requires o in s.observers && s.observers[o].sock.None? && s.observers[o].tries < RETRIES && SnapshotFits(s.index)
    ensures Step(s, ObserverSend(o), sent)
    ensures
      var request := Datagram(s.nextSock, ViewRequest());
      && Step(sent, ServerHandle(request, stale, Some(Snapshot(s.index))), handled)
      && Step(handled, ObserverReceive(o, Snapshot(s.index), []), done)
    ensures o in done.observers && done.observers[o] == Observer(0, None, s.observers[o].views + [s.index])
  {
    hide ViewRequest, Snapshot, ServerHandles, Passes, DecodeLibrary, EncodeLibrary;
    var request := Datagram(s.nextSock, ViewRequest());
    sent := s.(observers := s.observers[o := s.observers[o].(sock := Some(s.nextSock))],
               requests := s.requests + {request}, nextSock := s.nextSock + 1);
    stale := seq(BUFFER_SIZE - |request.bytes|, _ => 0);
    handled := ServerCanShow(sent, request, stale);
    SnapshotIsDecoded(s.index, []);
    SnapshotWithTail(Snapshot(s.index), []);
    done := handled.(observers := handled.observers[o := Observer(0, None, s.observers[o].views + [s.index])]);
  }

  // Whole rows.

  /** One client, about to send its first book. */
  function OneClient(row: int32, shelves: seq<Shelf>): State {
    State([], [], {}, {}, map[0 := Client(row, shelves, At(RowBooks(row, shelves), 0), None)], map[], 0)
  }

  lemma OneClientIsInit(row: int32, shelves: seq<Shelf>)
    ensures Init(OneClient(row, shelves))
  {
    hide RowBooks;
  }

  /** Its first `n` books are handled, in order and each once, and it goes on with the next. */
  ghost predicate HasSent(row: int32, shelves: seq<Shelf>, n: nat, s: State)
    requires n <= |RowBooks(row, shelves)|
  {
    && s.clients == map[0 := Client(row, shelves, At(RowBooks(row, shelves), n), None)]
    && s.handled == RowBooks(row, shelves)[..n]
  }

  lemma NextBookCanBeSent(row: int32, shelves: seq<Shelf>, n: nat, s: State)
    returns (a: Action, b: Action, c: Action, sent: State, handled: State, done: State)
    requires n < |RowBooks(row, shelves)| && HasSent(row, shelves, n, s)
    ensures Step(s, a, sent) && Step(sent, b, handled) && Step(handled, c, done)
    ensures HasSent(row, shelves, n + 1, done)
  {
    hide RowBooks, Step, AddRequest, AddedTo, Ack;
    var stale;
    stale, sent, handled, done := AttemptCanSucceed(s, 0);
    var request := Datagram(s.nextSock, AddRequest(Current(s.clients[0])));
    a, b, c := ClientSend(0), ServerHandle(request, stale, Some(Ack(request.bytes))), ClientReceive(0, Ack(request.bytes));
    var books := RowBooks(row, shelves);
    assert books[..n] + [books[n]] == books[..n + 1];
    assert done.clients == map[0 := Client(row, shelves, At(books, n + 1), None)];
  }

  lemma RunGoesOn(states: seq<State>, actions: seq<Action>, a: Action, s: State)
    requires IsRun(states, actions) && Step(states[|actions|], a, s)
    ensures IsRun(states + [s], actions + [a])
  {
    hide Init, Step;
    var more, acts := states + [s], actions + [a];
    forall i | 0 <= i < |acts|
      ensures Step(more[i], acts[i], more[i + 1])
    {
      if i < |actions| {
        assert Step(states[i], actions[i], states[i + 1]);
      }
    }
  }

  /** Any row of any shelves can be sent completely, in one attempt a book. */
  lemma {:induction false} RowCanBeSent(row: int32, shelves: seq<Shelf>, n: nat)
    returns (states: seq<State>, actions: seq<Action>)
    requires n <= |RowBooks(row, shelves)|
    ensures IsRun(states, actions) && |actions| == 3 * n && HasSent(row, shelves, n, states[|actions|])
  {
    hide Init, Step, RowBooks, HasSent;
    if n == 0 {
      OneClientIsInit(row, shelves);
      states, actions := [OneClient(row, shelves)], [];
      NothingIsSent(row, shelves);
    } else {
      states, actions := RowCanBeSent(row, shelves, n - 1);
      var a, b, c, sent, handled, done := NextBookCanBeSent(row, shelves, n - 1, states[|actions|]);
      RunGoesOn(states, actions, a, sent);
      states, actions := states + [sent], actions + [a];
      RunGoesOn(states, actions, b, handled);
      states, actions := states + [handled], actions + [b];
      RunGoesOn(states, actions, c, done);
      states, actions := states + [done], actions + [c];
    }
  }

  lemma NothingIsSent(row: int32, shelves: seq<Shelf>)
    ensures HasSent(row, shelves, 0, OneClient(row, shelves))
  {
    hide RowBooks;
  }

  lemma {:induction false} DistinctBooksComeFirst(books: seq<Book>)
    requires DistinctKeys(books)
    ensures Firsts(books) == books
  {
    if books != [] {
      var earlier := books[..|books| - 1];
      DistinctBooksComeFirst(earlier);
      assert books == earlier + [books[|books| - 1]];
    }
  }

  /**
   * For every number of books there is a run whose index has that many, all with the longest names. Its
   * snapshot fits exactly up to 63 books: one client with 64 long lines leads to one that overruns the buffer.
   */
  lemma LongestSnapshot(n: nat) returns (states: seq<State>, actions: seq<Action>)
    requires 1023 * n < 0x8000_0000
    ensures IsRun(states, actions) && |states[|actions|].index| == n && Countable(states[|actions|].index)
    ensures |Snapshot(states[|actions|].index)| == 8 + 1036 * n
    ensures SnapshotFits(states[|actions|].index) <==> n <= 63
    ensures |Snapshot(states[|actions|].index)| <= 65536 <==> n <= 63
  {
    hide EncodeBooks, CrcBytes, ShelfBooks, Leaves, Init, Step, IsIndex, Offered, WasRequested;
    var text := FullLines(n);
    var shelf := Shelf(0, text);
    var books := RowBooks(0, [shelf]);
    assert RowBooks(0, [shelf][1..]) == [];
    assert books == ShelfBooks(0, 0, 0, text) + [];
    FullLinesMakeFullBooks(0, n);
    states, actions := RowCanBeSent(0, [shelf], n);
    var s := states[|actions|];
    assert s.handled == books[..n] == books;
    IndexOverAllRuns(states, actions, |actions|);
    RowKeysAreDistinct(0, [shelf]);
    DistinctBooksComeFirst(books);
    SameMembers(books, s.index);
    ExactSize(s.index, LINE_LIMIT);
  }

  // Every run can go on to an acknowledgement and to a view.

  /** A client between two attempts can have its book acknowledged next. */
  lemma AnyRunCanAcknowledge(states: seq<State>, actions: seq<Action>, c: nat)
    returns (states': seq<State>, actions': seq<Action>)
    requires IsRun(states, actions)
    requires
      var s := states[|actions|];
      c in s.clients && s.clients[c].sock.None? && s.clients[c].progress.Sending?
    ensures IsRun(states', actions') && |actions'| == |actions| + 3 && states <= states' && actions <= actions'
    ensures AcknowledgedAt(states', actions', |actions| + 2, c)
    ensures
      var client, client' := states[|actions|].clients[c], states'[|actions| + 2].clients[c];
      client'.row == client.row && client'.shelves == client.shelves && client'.progress == client.progress
  {
    hide Init, Step, Inv, RowBooks, AddRequest, Ack, AddedTo, Acknowledges;
    var s := states[|actions|];
    RunKeepsInv(states, actions, |actions|);
    ClientIsProper(s, c);
    var stale, sent, handled, done := AttemptCanSucceed(s, c);
    var request := Datagram(s.nextSock, AddRequest(Current(s.clients[c])));
    var a, b, d := ClientSend(c), ServerHandle(request, stale, Some(Ack(request.bytes))), ClientReceive(c, Ack(request.bytes));
    RunGoesOn(states, actions, a, sent);
    RunGoesOn(states + [sent], actions + [a], b, handled);
    RunGoesOn(states + [sent] + [handled], actions + [a] + [b], d, done);
    states', actions' := states + [sent] + [handled] + [done], actions + [a] + [b] + [d];
    SocketWaits(s, c, sent, request, stale, handled);
    AckIsTheAcceptedReply(request.bytes, Ack(request.bytes));
    assert states'[|actions| + 2] == handled;
  }

  lemma ClientIsProper(s: State, c: nat)
    requires Inv(s) && c in s.clients
    ensures Proper(s.clients[c].Books(), s.clients[c].progress)
  {
    hide RowBooks, AddRequest;
    assert ClientInv(s, c);
  }

  lemma SocketWaits(s: State, c: nat, sent: State, request: Datagram, stale: seq<byte>, handled: State)
    requires c in s.clients && Step(s, ClientSend(c), sent)
    requires Step(sent, ServerHandle(request, stale, Some(Ack(request.bytes))), handled)
    ensures Busy(handled, c)
    ensures
      var client, client' := s.clients[c], handled.clients[c];
      client'.row == client.row && client'.shelves == client.shelves && client'.progress == client.progress
  {
    hide RowBooks, AddRequest, Handles, DecodeBook, Ack;
  }

  /** An observer between two attempts can be shown the index next, as long as its snapshot fits. */
  lemma AnyRunCanShow(states: seq<State>, actions: seq<Action>, o: nat)
    returns (states': seq<State>, actions': seq<Action>)
    requires IsRun(states, actions)
    requires
      var s := states[|actions|];
      && o in s.observers && s.observers[o].sock.None? && s.observers[o].tries < RETRIES && SnapshotFits(s.index)
    ensures IsRun(states', actions') && |actions'| == |actions| + 3 && states <= states' && actions <= actions'
    ensures Began(states', actions', o, |actions|, |actions| + 2)
    ensures AcceptedAt(states', actions', o, |actions| + 2, states[|actions|].index)
  {
    hide Init, Step, Inv, ViewRequest, Snapshot, Passes;
    var s := states[|actions|];
    var stale, sent, handled, done := ObservationCanSucceed(s, o);
    var request := Datagram(s.nextSock, ViewRequest());
    var a, b, d := ObserverSend(o), ServerHandle(request, stale, Some(Snapshot(s.index))),
                   ObserverReceive(o, Snapshot(s.index), []);
    RunGoesOn(states, actions, a, sent);
    RunGoesOn(states + [sent], actions + [a], b, handled);
    RunGoesOn(states + [sent] + [handled], actions + [a] + [b], d, done);
    states', actions' := states + [sent] + [handled] + [done], actions + [a] + [b] + [d];
    ShownIndex(s, o, sent, request, stale, handled, done);
    assert states'[|actions| + 1] == sent && states'[|actions| + 2] == handled && states'[|actions| + 3] == done;
    SnapshotIsDecoded(s.index, []);
    assert states'[|actions| + 2 + 1].observers
        == states'[|actions| + 2].observers[o := Observer(0, None, states'[|actions| + 2].observers[o].views + [s.index])];
  }

  lemma ShownIndex(s: State, o: nat, sent: State, request: Datagram, stale: seq<byte>, handled: State, done: State)
    requires SnapshotFits(s.index) && o in s.observers
    requires Step(s, ObserverSend(o), sent)
    requires Step(sent, ServerHandle(request, stale, Some(Snapshot(s.index))), handled)
    requires Step(handled, ObserverReceive(o, Snapshot(s.index), []), done)
    requires o in done.observers && done.observers[o] == Observer(0, None, s.observers[o].views + [s.index])
    ensures Waits(sent, o, s.nextSock) && Waits(handled, o, s.nextSock)
    ensures handled.observers[o].views == s.observers[o].views
    ensures done.observers == handled.observers[o := Observer(0, None, handled.observers[o].views + [s.index])]
  {
    hide ViewRequest, Handles, DecodeBook, Snapshot, DecodeLibrary, Passes, SnapshotFits;
  }
}
