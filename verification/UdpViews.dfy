/** What observers are shown, over whole runs, and when two servers show the same. */
module UdpViews {
  import opened Options
  import opened CStrings
  import opened WireFormat
  import opened Index
  import opened Confluence
  import opened Checksum
  import opened Messages
  import opened Shelves
  import opened UdpProtocol
  import opened UdpInvariants
  import opened UdpRuns

  ghost predicate Waits(s: State, o: nat, k: nat) {
    o in s.observers && s.observers[o].sock == Some(k)
  }

  /** The attempt that observer `o` has under way at `j` sent its request at step `i`. */
  ghost predicate Began(states: seq<State>, actions: seq<Action>, o: nat, i: nat, j: nat)
    requires IsRun(states, actions)
  {
    && i < j < |states| && actions[i] == ObserverSend(o)
    && forall h :: i < h <= j ==> Waits(states[h], o, states[i].nextSock)
  }

  lemma ObserverStep(s: State, a: Action, s': State, o: nat)
    requires Step(s, a, s') && o in s'.observers
    ensures o in s.observers
    ensures s'.observers[o].sock.Some? ==>
              if a == ObserverSend(o) then s'.observers[o].sock == Some(s.nextSock)
              else s'.observers[o] == s.observers[o]
  {
    hide AddRequest, ViewRequest, Passes, DecodeLibrary, AttemptEnds, RowBooks, Handles, DecodeBook;
  }

  /** Every attempt under way has a step at which it began. */
  lemma {:induction false} AttemptBegan(states: seq<State>, actions: seq<Action>, o: nat, j: nat) returns (i: nat)
    requires IsRun(states, actions) && j < |states|
    requires o in states[j].observers && states[j].observers[o].sock.Some?
    ensures Began(states, actions, o, i, j)
    decreases j
  {
    hide Init, Step;
    if j == 0 {
      NoAttemptAtFirst(states[0], o);
    } else {
      ObserverStep(states[j - 1], actions[j - 1], states[j], o);
      if actions[j - 1] == ObserverSend(o) {
        i := j - 1;
      } else {
        i := AttemptBegan(states, actions, o, j - 1);
      }
    }
  }

  lemma NoAttemptAtFirst(s: State, o: nat)
    requires Init(s) && o in s.observers
    ensures s.observers[o].sock.None?
  {}

  /** At step `j` observer `o` accepts `view`. */
  ghost predicate AcceptedAt(states: seq<State>, actions: seq<Action>, o: nat, j: nat, view: seq<Book>)
    requires IsRun(states, actions)
  {
    && j < |actions| && actions[j].ObserverReceive? && actions[j].o == o && Passes(actions[j].reply)
    && o in states[j].observers
    && states[j + 1].observers == states[j].observers[o := Observer(0, None, states[j].observers[o].views + [view])]
  }

  lemma AcceptedViewIsDecoded(states: seq<State>, actions: seq<Action>, o: nat, j: nat, view: seq<Book>)
    requires IsRun(states, actions) && AcceptedAt(states, actions, o, j, view)
    ensures states[j].observers[o].sock.Some?
    ensures Datagram(states[j].observers[o].sock.value, actions[j].reply) in states[j].replies
    ensures |actions[j].reply| >= 4 && exists used ::
              DecodeLibrary(actions[j].reply[4..] + actions[j].stale) == Some(Decoded(view, used))
  {
    hide Init, Crc, DecodeWord, DecodeLibrary;
    var before, after := states[j], states[j + 1];
    assert Step(before, actions[j], after);
    var decoded := DecodeLibrary(actions[j].reply[4..] + actions[j].stale).value;
    var views := before.observers[o].views;
    assert after.observers[o].views == views + [decoded.value] == views + [view];
    assert (views + [view])[|views|] == view;
  }

  /** An accepted view is the index itself, at some moment after that attempt's request was sent. */
  lemma AcceptedViewIsAnIndex(states: seq<State>, actions: seq<Action>, o: nat, i: nat, j: nat, view: seq<Book>)
    returns (t: nat)
    requires IsRun(states, actions) && Began(states, actions, o, i, j) && AcceptedAt(states, actions, o, j, view)
    ensures i < t <= j && view == states[t].index
  {
    hide Init, Step, ViewRequest, Snapshot, Passes, DecodeLibrary, EncodeLibrary, ClientsInv, RepliesInv, IndexInv;
    AcceptedViewIsDecoded(states, actions, o, j, view);
    assert Waits(states[j], o, states[i].nextSock);
    RunKeepsInv(states, actions, j);
    var d := Datagram(states[i].nextSock, ViewRequest());
    var p := Datagram(states[i].nextSock, actions[j].reply);
    t := ReplyShowsAnIndex(states, actions, j, d, p);
    SnapshotIsDecoded(states[t].index, actions[j].stale);
    SnapshotWithTail(p.bytes, actions[j].stale);
    var used :| DecodeLibrary(p.bytes[4..] + actions[j].stale) == Some(Decoded(view, used));
    RunKeepsInv(states, actions, i);
    if t <= i {
      RunGrows(states, actions, t, i);
    }
  }

  /** With an unaltered network the checksum never turns an observer's reply away, whatever its buffer holds. */
  lemma ObserversNeverReject(states: seq<State>, actions: seq<Action>, j: nat, o: nat, reply: seq<byte>, stale: seq<byte>)
    requires IsRun(states, actions) && j < |states|
    requires o in states[j].observers && states[j].observers[o].sock.Some?
    requires Datagram(states[j].observers[o].sock.value, reply) in states[j].replies
    ensures Passes(reply) && DecodeLibrary(reply[4..] + stale).Some?
  {
    hide Init, Step, ViewRequest, Snapshot, Passes, DecodeLibrary, EncodeLibrary, ClientsInv, RepliesInv, IndexInv;
    RunKeepsInv(states, actions, j);
    var k := states[j].observers[o].sock.value;
    var t := ReplyShowsAnIndex(states, actions, j, Datagram(k, ViewRequest()), Datagram(k, reply));
    SnapshotIsDecoded(states[t].index, stale);
    SnapshotWithTail(reply, stale);
  }

  lemma SnapshotWithTail(reply: seq<byte>, stale: seq<byte>)
    requires Passes(reply)
    ensures (reply + stale)[4..] == reply[4..] + stale
  {}

  /** A book acknowledged before the request was sent is in the view that answers it. */
  lemma ReadAfterAcknowledge(states: seq<State>, actions: seq<Action>, a: nat, c: nat,
                             o: nat, i: nat, j: nat, view: seq<Book>)
    requires IsRun(states, actions) && AcknowledgedAt(states, actions, a, c) && a < i
    requires Began(states, actions, o, i, j) && AcceptedAt(states, actions, o, j, view)
    ensures HasKey(view, KeyOf(Current(states[a].clients[c])))
  {
    hide Init, Step, Passes, AcknowledgedAt, Waits;
    var t := AcceptedViewIsAnIndex(states, actions, o, i, j, view);
    AcknowledgedStaysStored(states, actions, a, c, t);
  }

  /** An observer's views only grow. */
  lemma ViewsGrow(states: seq<State>, actions: seq<Action>, o: nat, j: nat, j': nat,
                  view: seq<Book>, view': seq<Book>)
    requires IsRun(states, actions) && j < j'
    requires AcceptedAt(states, actions, o, j, view) && AcceptedAt(states, actions, o, j', view')
    ensures multiset(view) <= multiset(view')
  {
    hide Init, Step, Passes, DecodeLibrary;
    AcceptedViewIsDecoded(states, actions, o, j, view);
    AcceptedViewIsDecoded(states, actions, o, j', view');
    var i := AttemptBegan(states, actions, o, j);
    var i' := AttemptBegan(states, actions, o, j');
    assert states[j + 1].observers[o].sock.None?;
    assert i' > j;
    var t := AcceptedViewIsAnIndex(states, actions, o, i, j, view);
    var t' := AcceptedViewIsAnIndex(states, actions, o, i', j', view');
    RunGrows(states, actions, t, t');
  }

  // Two systems that handled the same books.

  /** Any two runs have the same books exactly when their servers handled the same first book of each key. */
  lemma TwoRunsAgreeExactlyWhen(states: seq<State>, actions: seq<Action>, i: nat,
                                states': seq<State>, actions': seq<Action>, i': nat)
    requires IsRun(states, actions) && i < |states| && IsRun(states', actions') && i' < |states'|
    ensures
      var s, s' := states[i], states'[i'];
      && (multiset(s.index) == multiset(s'.index) <==> multiset(Firsts(s.handled)) == multiset(Firsts(s'.handled)))
      && (multiset(s.index) == multiset(s'.index) ==> Names(s.index) == Names(s'.index))
      && (multiset(s.index) == multiset(s'.index) && DistinctNames(Firsts(s.handled)) ==> s.index == s'.index)
  {
    hide Init, Step, RequestsInv, RepliesInv, ObserversInv, ClientsInv, Leaves, Names, DistinctNames, IsIndex;
    RunKeepsInv(states, actions, i);
    RunKeepsInv(states', actions', i');
    IndexesAgreeExactlyWhen(states[i].handled, states'[i'].handled, states[i].index, states'[i'].index);
  }

  /** Where a key determines its book, it is enough that the servers handled the same books. */
  lemma TwoRunsAgree(states: seq<State>, actions: seq<Action>, i: nat,
                     states': seq<State>, actions': seq<Action>, i': nat)
    requires IsRun(states, actions) && i < |states| && IsRun(states', actions') && i' < |states'|
    requires SameBooks(states[i].handled, states'[i'].handled) && Consistent(states[i].handled)
    ensures multiset(states[i].index) == multiset(states'[i'].index)
    ensures Names(states[i].index) == Names(states'[i'].index)
    ensures DistinctNames(states[i].handled) ==> states[i].index == states'[i'].index
  {
    hide Init, Step, RequestsInv, RepliesInv, ObserversInv, ClientsInv, SameBooks, Consistent, Leaves, Names;
    hide DistinctNames, IsIndex;
    var s, s' := states[i], states'[i'];
    RunKeepsInv(states, actions, i);
    RunKeepsInv(states', actions', i');
    IndexIsConfluent(s.handled, s'.handled, s.index, s'.index);
    if DistinctNames(s.handled) {
      OneIndexWhenNamesDiffer(s.handled, s'.handled, s.index, s'.index);
    }
  }

  /** Each client serves a row of its own, with one file per shelf number. */
  ghost predicate OneClientPerRow(s: State) {
    && (forall c, e :: c in s.clients && e in s.clients && s.clients[c].row == s.clients[e].row ==> c == e)
    && (forall c :: c in s.clients ==> DistinctNumbers(s.clients[c].shelves))
  }

  /** Then a key names one book, so nothing that is offered can be shadowed. */
  lemma OneClientPerRowIsConsistent(states: seq<State>, actions: seq<Action>, i: nat)
    requires IsRun(states, actions) && i < |states| && OneClientPerRow(states[i])
    ensures Consistent(states[i].handled)
  {
    hide Init, Step, RowBooks, IsIndex, Leaves, OneClientPerRow, Offered, WasRequested;
    IndexOverAllRuns(states, actions, i);
    var s := states[i];
    forall b, b' | b in s.handled && b' in s.handled && KeyOf(b) == KeyOf(b')
      ensures b == b'
    {
      OfferedOnce(s, b, b');
    }
  }

  lemma OfferedOnce(s: State, b: Book, b': Book)
    requires OneClientPerRow(s) && Offered(s, b) && Offered(s, b') && KeyOf(b) == KeyOf(b')
    ensures b == b'
  {
    hide RowBooks;
    var c :| c in s.clients && b in s.clients[c].Books();
    var c' :| c' in s.clients && b' in s.clients[c'].Books();
    RowBooksAre(s.clients[c].row, s.clients[c].shelves);
    RowBooksAre(s.clients[c'].row, s.clients[c'].shelves);
    assert c == c';
    var books := s.clients[c].Books();
    RowKeysAreDistinct(s.clients[c].row, s.clients[c].shelves);
    KeyNamesBook(books, b, b');
  }

  lemma StillOffered(states: seq<State>, actions: seq<Action>, i: nat, c: nat, j: nat, b: Book)
    requires IsRun(states, actions) && i <= j < |states|
    requires c in states[i].clients && b in states[i].clients[c].Books()
    ensures Offered(states[j], b)
  {
    hide Init, Step, RowBooks;
    RunKeepsClients(states, actions, i, j);
  }

  /** With one client per row, the one book under an offered key is the offered book. */
  lemma KeyMeansBook(states: seq<State>, actions: seq<Action>, j: nat, b: Book)
    requires IsRun(states, actions) && j < |states| && OneClientPerRow(states[j])
    requires Offered(states[j], b) && HasKey(states[j].index, KeyOf(b))
    ensures b in states[j].index
  {
    hide Init, Step, RowBooks, IsIndex, Leaves, OneClientPerRow, Offered, WasRequested;
    IndexOverAllRuns(states, actions, j);
    var x :| x in states[j].index && KeyOf(x) == KeyOf(b);
    OfferedOnce(states[j], x, b);
  }

  /** Then the acknowledged book itself, name included, is in the index from that moment on. */
  lemma AcknowledgedBookStays(states: seq<State>, actions: seq<Action>, a: nat, c: nat, j: nat)
    requires IsRun(states, actions) && AcknowledgedAt(states, actions, a, c) && a <= j < |states|
    requires OneClientPerRow(states[j])
    ensures Current(states[a].clients[c]) in states[j].index
  {
    hide Init, Step, RowBooks, OneClientPerRow, Offered, HasKey, DistinctKeys, Acknowledges, AddRequest;
    AcknowledgedStaysStored(states, actions, a, c, j);
    StillOffered(states, actions, a, c, j, Current(states[a].clients[c]));
    KeyMeansBook(states, actions, j, Current(states[a].clients[c]));
  }

  /** And so are all books of a client that ended normally. */
  lemma FinishedBooksStay(states: seq<State>, actions: seq<Action>, i: nat, c: nat, j: nat, b: Book)
    requires IsRun(states, actions) && i <= j < |states| && OneClientPerRow(states[j])
    requires c in states[i].clients && states[i].clients[c].progress.Finished?
    requires b in states[i].clients[c].Books()
    ensures b in states[j].index
  {
    hide Init, Step, RowBooks, OneClientPerRow, Offered, HasKey;
    FinishedRowIsStored(states, actions, i, c, j, b);
    StillOffered(states, actions, i, c, j, b);
    KeyMeansBook(states, actions, j, b);
  }

  lemma OneClientPerRowStays(states: seq<State>, actions: seq<Action>, j: nat)
    requires IsRun(states, actions) && j < |states| && OneClientPerRow(states[0])
    ensures OneClientPerRow(states[j])
  {
    hide Init, Step, RowBooks;
    RunKeepsClients(states, actions, 0, j);
  }

  /** Then a view contains every book itself that was acknowledged before it was requested. */
  lemma AcknowledgedBookIsShown(states: seq<State>, actions: seq<Action>, a: nat, c: nat,
                                o: nat, i: nat, j: nat, view: seq<Book>)
    requires IsRun(states, actions) && AcknowledgedAt(states, actions, a, c) && a < i
    requires Began(states, actions, o, i, j) && AcceptedAt(states, actions, o, j, view)
    requires OneClientPerRow(states[0])
    ensures Current(states[a].clients[c]) in view
  {
    hide Init, Step, RowBooks, OneClientPerRow, Passes, Acknowledges, AddRequest, Waits;
    var t := AcceptedViewIsAnIndex(states, actions, o, i, j, view);
    OneClientPerRowStays(states, actions, t);
    AcknowledgedBookStays(states, actions, a, c, t);
  }

  lemma KeyNamesBook(books: seq<Book>, b: Book, b': Book)
    requires DistinctKeys(books) && b in books && b' in books && KeyOf(b) == KeyOf(b')
    ensures b == b'
  {
    var x :| 0 <= x < |books| && books[x] == b;
    var y :| 0 <= y < |books| && books[y] == b';
  }

  // Sizes.

  lemma RequestSize(row: int32, shelves: seq<Shelf>, b: Book)
    requires b in RowBooks(row, shelves)
    ensures |AddRequest(b)| <= 1041
  {
    hide RowBooks, EncodeBook, CrcBytes;
    RowBooksAre(row, shelves);
  }

  lemma SizeBound(books: seq<Book>)
    requires |books| <= 63 && forall b :: b in books ==> |b.name| <= LINE_LIMIT
    ensures Countable(books) && |Snapshot(books)| <= 65276
  {
    hide EncodeBooks, CrcBytes;
    EncodedSize(books, LINE_LIMIT);
  }

  /** As long as it has at most 63 books, the index of any run fits both buffers. */
  lemma SixtyThreeBooksFit(states: seq<State>, actions: seq<Action>, i: nat)
    requires IsRun(states, actions) && i < |states| && |states[i].index| <= 63
    ensures SnapshotFits(states[i].index) && |Snapshot(states[i].index)| <= 65276
  {
    hide Init, Step, RowBooks, IsIndex, Leaves, Snapshot;
    var s := states[i];
    IndexOverAllRuns(states, actions, i);
    forall b | b in s.index
      ensures |b.name| <= LINE_LIMIT
    {
      assert Offered(s, b);
      var c :| c in s.clients && b in s.clients[c].Books();
      RowBooksAre(s.clients[c].row, s.clients[c].shelves);
    }
    SizeBound(s.index);
  }
}
