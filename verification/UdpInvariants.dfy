/** What every step of the UDP library system keeps. */
module UdpInvariants {
  import opened Options
  import opened CStrings
  import opened WireFormat
  import opened Index
  import opened Messages
  import opened Shelves
  import opened Attempts
  import opened UdpProtocol

  /** Some client's row has this book. */
  ghost predicate Offered(s: State, b: Book) {
    exists c :: c in s.clients && b in s.clients[c].Books()
  }

  /** Every request has a socket of its own and is one of the two kinds. */
  ghost predicate RequestsInv(s: State) {
    && (forall d :: d in s.requests ==> d.sock < s.nextSock)
    && (forall d, e :: d in s.requests && e in s.requests && d.sock == e.sock ==> d == e)
    && (forall d :: d in s.requests ==>
          d.bytes == ViewRequest() || exists b :: Offered(s, b) && d.bytes == AddRequest(b))
  }

  /** Every reply goes to the socket of a request, and an answered addition is in the index. */
  ghost predicate RepliesInv(s: State) {
    && (forall p :: p in s.replies ==> exists d :: d in s.requests && d.sock == p.sock)
    && (forall p, d, b :: p in s.replies && d in s.requests && d.sock == p.sock && d.bytes == AddRequest(b) ==>
          HasKey(s.index, KeyOf(b)))
  }

  /** How many of its books a client has behind it. */
  function Done(client: Client): nat {
    match client.progress
    case Sending(cur, _) => cur
    case Failed(cur) => cur
    case Finished => |client.Books()|
  }

  ghost predicate ClientInv(s: State, c: nat)
    requires c in s.clients
  {
    var client := s.clients[c];
    && Proper(client.Books(), client.progress)
    && (client.sock.Some? ==>
          && client.progress.Sending?
          && Datagram(client.sock.value, AddRequest(Current(client))) in s.requests)
    && (forall i :: 0 <= i < Done(client) && i < |client.Books()| ==> HasKey(s.index, KeyOf(client.Books()[i])))
  }

  ghost predicate ClientsInv(s: State) {
    forall c :: c in s.clients ==> ClientInv(s, c)
  }

  ghost predicate ObserversInv(s: State) {
    forall o :: o in s.observers && s.observers[o].sock.Some? ==>
      Datagram(s.observers[o].sock.value, ViewRequest()) in s.requests
  }

  /** The index is exactly what its additions leave, and each of them was offered by a client. */
  ghost predicate IndexInv(s: State) {
    && IsIndex(s.index)
    && Leaves(s.handled, s.index)
    && forall b :: b in s.handled ==> Offered(s, b)
  }

  ghost predicate Inv(s: State) {
    RequestsInv(s) && RepliesInv(s) && ClientsInv(s) && ObserversInv(s) && IndexInv(s)
  }

  lemma InitInv(s: State)
    requires Init(s)
    ensures Inv(s)
  {}

  // What one server step does, read off the bytes.

  lemma AddRequestIsAdd(b: Book, stale: seq<byte>)
    ensures IsAdd(AddRequest(b)) && !IsView(AddRequest(b))
    ensures AddRequest(b) != ViewRequest()
    ensures DecodeBook((AddRequest(b) + stale)[5..]) == Some(Decoded(b, |EncodeBook(b)|))
  {
    hide DecodeBook, AddRequest, EncodeBook, ViewRequest;
    AddIsDecoded(b, stale);
    ViewIsRecognised([]);
    assert ViewRequest() + [] == ViewRequest();
    assert (AddRequest(b) + stale)[4] == AddRequest(b)[4];
  }

  lemma AddRequestNamesItsBook(a: Book, b: Book)
    requires AddRequest(a) == AddRequest(b)
    ensures a == b
  {
    hide AddRequest, EncodeBook, DecodeBook;
    AddRequestIsAdd(a, []);
    AddRequestIsAdd(b, []);
  }

  lemma ServerStep(s: State, request: Datagram, stale: seq<byte>, answer: Option<seq<byte>>, s': State, b: Book)
    requires ServerHandles(s, request, stale, answer, s') && request.bytes == AddRequest(b)
    ensures AddedTo(s.index, b, s'.index) && s'.handled == s.handled + [b]
    ensures s' == s.(index := s'.index, handled := s'.handled,
                     replies := s.replies + {Datagram(request.sock, Ack(request.bytes))})
  {
    hide AddRequest, DecodeBook, ViewRequest, EncodeBook, AddedTo, Ack, SnapshotFits, Snapshot;
    AddRequestIsAdd(b, stale);
    AddIsDecoded(b, stale);
  }

  lemma ServerShows(s: State, request: Datagram, stale: seq<byte>, answer: Option<seq<byte>>, s': State)
    requires ServerHandles(s, request, stale, answer, s') && request.bytes == ViewRequest()
    ensures SnapshotFits(s.index)
    ensures s' == s.(replies := s.replies + {Datagram(request.sock, Snapshot(s.index))})
  {
    hide DecodeBook, ViewRequest, AddedTo, Ack, SnapshotFits, Snapshot;
    ViewIsRecognised(stale);
    ViewIsRecognised([]);
    assert ViewRequest() + [] == ViewRequest();
  }

  // Preservation, action by action.

  lemma ClientSendKeepsInv(s: State, c: nat, s': State)
    requires Inv(s) && ClientSends(s, c, s')
    ensures Inv(s')
  {
    hide AddRequest, ViewRequest, RowBooks, IsIndex, Leaves, HasKey, Ack, Offered, RequestsInv;
    NewRequestKeepsRequestsInv(s, Current(s.clients[c]), s') by {
      SameRowsOfferTheSame(s, s');
      assert Offered(s, Current(s.clients[c])) by { ItsBooksAreOffered(s, c); }
    }
    SameRowsOfferTheSame(s, s');
    assert forall d :: d in s.requests ==> d.sock < s.nextSock by { SocketsAreOld(s); }
    forall k | k in s'.clients
      ensures ClientInv(s', k)
    {
      assert ClientInv(s, k);
    }
  }

  lemma SocketsAreOld(s: State)
    requires RequestsInv(s)
    ensures forall d :: d in s.requests ==> d.sock < s.nextSock
  {
    hide Offered;
  }

  lemma ItsBooksAreOffered(s: State, c: nat)
    requires c in s.clients && s.clients[c].progress.Sending? && Proper(s.clients[c].Books(), s.clients[c].progress)
    ensures Offered(s, Current(s.clients[c]))
  {
    hide RowBooks;
  }

  lemma SameRowsOfferTheSame(s: State, s': State)
    requires s'.clients.Keys == s.clients.Keys
    requires forall k :: k in s.clients ==> s'.clients[k].Books() == s.clients[k].Books()
    ensures forall b :: Offered(s, b) ==> Offered(s', b)
  {
    hide RowBooks;
  }

  lemma NewRequestKeepsRequestsInv(s: State, b: Book, s': State)
    requires RequestsInv(s) && Offered(s, b) && s'.nextSock == s.nextSock + 1
    requires s'.requests == s.requests + {Datagram(s.nextSock, AddRequest(b))}
    requires forall x :: Offered(s, x) ==> Offered(s', x)
    ensures RequestsInv(s')
  {
    hide AddRequest, ViewRequest, Offered;
  }

  lemma ObserverSendKeepsInv(s: State, o: nat, s': State)
    requires Inv(s) && ObserverSends(s, o, s')
    ensures Inv(s')
  {
    hide AddRequest, ViewRequest, RowBooks, IsIndex, Leaves, HasKey, Ack;
    assert forall x :: Offered(s, x) ==> Offered(s', x);
    NoBookInViewRequest();
    forall k | k in s'.clients
      ensures ClientInv(s', k)
    {
      assert ClientInv(s, k);
    }
  }

  lemma NoBookInViewRequest()
    ensures forall b :: AddRequest(b) != ViewRequest()
  {
    hide AddRequest, ViewRequest;
    forall b
      ensures AddRequest(b) != ViewRequest()
    {
      AddRequestIsAdd(b, []);
    }
  }

  /** An attempt may only count as acknowledged when the book is in the index. */
  lemma AttemptEndKeepsInv(s: State, c: nat, acknowledged: bool, s': State)
    requires Inv(s) && Busy(s, c)
    requires s' == s.(clients := s.clients[c := AttemptEnds(s.clients[c], acknowledged)])
    requires acknowledged ==> HasKey(s.index, KeyOf(Current(s.clients[c])))
    ensures Inv(s')
  {
    hide AddRequest, ViewRequest, RowBooks, IsIndex, Leaves, HasKey, Ack, Offered;
    SameRowsOfferTheSame(s, s');
    forall k | k in s'.clients
      ensures ClientInv(s', k)
    {
      assert ClientInv(s, k);
    }
  }

  /** A reply that a client accepts proves that its book is in the index. */
  lemma AcceptedMeansStored(s: State, c: nat, reply: seq<byte>)
    requires Inv(s) && Busy(s, c) && Datagram(s.clients[c].sock.value, reply) in s.replies
    ensures HasKey(s.index, KeyOf(Current(s.clients[c])))
  {
    hide AddRequest, ViewRequest, RowBooks, IsIndex, Leaves, HasKey, Ack;
    assert ClientInv(s, c);
  }

  lemma ClientReceiveKeepsInv(s: State, c: nat, reply: seq<byte>, s': State)
    requires Inv(s) && ClientReceives(s, c, reply, s')
    ensures Inv(s')
  {
    hide Inv, AddRequest, Acknowledges, RowBooks, HasKey, AttemptEnds;
    AcceptedMeansStored(s, c, reply);
    AttemptEndKeepsInv(s, c, Acknowledges(AddRequest(Current(s.clients[c])), reply), s');
  }

  lemma ObserverEndKeepsInv(s: State, o: nat, observer: Observer, s': State)
    requires Inv(s) && observer.sock.None? && s' == s.(observers := s.observers[o := observer])
    ensures Inv(s')
  {
    hide AddRequest, ViewRequest, RowBooks, IsIndex, Leaves, HasKey, Ack;
    assert forall x :: Offered(s, x) ==> Offered(s', x);
    forall k | k in s'.clients
      ensures ClientInv(s', k)
    {
      assert ClientInv(s, k);
    }
  }

  lemma ServerViewKeepsInv(s: State, request: Datagram, bytes: seq<byte>, s': State)
    requires Inv(s) && request in s.requests && request.bytes == ViewRequest()
    requires s' == s.(replies := s.replies + {Datagram(request.sock, bytes)})
    ensures Inv(s')
  {
    hide AddRequest, ViewRequest, RowBooks, IsIndex, Leaves, HasKey, Ack;
    NoBookInViewRequest();
    assert forall x :: Offered(s, x) ==> Offered(s', x);
    forall k | k in s'.clients
      ensures ClientInv(s', k)
    {
      assert ClientInv(s, k);
    }
  }

  lemma AddKeepsKeys(before: seq<Book>, b: Book, after: seq<Book>)
    requires IsIndex(before) && AddedTo(before, b, after)
    ensures forall key :: HasKey(before, key) ==> HasKey(after, key)
  {
    hide AddedTo, IsIndex;
    AddKeepsIndex(before, b, after);
    forall key | HasKey(before, key)
      ensures HasKey(after, key)
    {
      var x :| x in before && KeyOf(x) == key;
      assert x in multiset(before);
      assert x in multiset(after);
    }
  }

  lemma AddKeepsAndGains(before: seq<Book>, b: Book, after: seq<Book>)
    requires IsIndex(before) && AddedTo(before, b, after)
    ensures IsIndex(after) && HasKey(after, KeyOf(b))
    ensures forall key :: HasKey(before, key) ==> HasKey(after, key)
  {
    AddKeepsIndex(before, b, after);
    AddKeepsKeys(before, b, after);
  }

  lemma AddExtendsWhatIsLeft(handled: seq<Book>, before: seq<Book>, b: Book, after: seq<Book>)
    requires Leaves(handled, before) && AddedTo(before, b, after)
    ensures Leaves(handled + [b], after)
  {
    hide AddedTo;
    assert (handled + [b])[..|handled + [b]| - 1] == handled;
    assert (handled + [b])[|handled + [b]| - 1] == b;
  }

  ghost predicate ServerAdds(s: State, request: Datagram, b: Book, s': State) {
    && request in s.requests && request.bytes == AddRequest(b) && AddedTo(s.index, b, s'.index)
    && s' == s.(index := s'.index, handled := s.handled + [b],
                replies := s.replies + {Datagram(request.sock, Ack(request.bytes))})
  }

  lemma ServerAddKeepsReplies(s: State, request: Datagram, b: Book, s': State)
    requires RequestsInv(s) && RepliesInv(s) && IsIndex(s.index) && ServerAdds(s, request, b, s')
    ensures RepliesInv(s')
  {
    hide AddRequest, ViewRequest, RowBooks, IsIndex, HasKey, Ack, AddedTo, Offered;
    AddKeepsAndGains(s.index, b, s'.index);
    forall p, d, x | p in s'.replies && d in s'.requests && d.sock == p.sock && d.bytes == AddRequest(x)
      ensures HasKey(s'.index, KeyOf(x))
    {
      if p !in s.replies {
        AddRequestNamesItsBook(x, b);
      }
    }
  }

  lemma ServerAddKeepsClients(s: State, request: Datagram, b: Book, s': State)
    requires ClientsInv(s) && IsIndex(s.index) && ServerAdds(s, request, b, s')
    ensures ClientsInv(s')
  {
    hide AddRequest, RowBooks, IsIndex, HasKey, Ack, AddedTo;
    AddKeepsAndGains(s.index, b, s'.index);
    forall k | k in s'.clients
      ensures ClientInv(s', k)
    {
      assert ClientInv(s, k);
    }
  }

  lemma ServerAddKeepsInv(s: State, request: Datagram, b: Book, s': State)
    requires Inv(s) && ServerAdds(s, request, b, s')
    ensures Inv(s')
  {
    hide AddRequest, ViewRequest, RowBooks, IsIndex, Leaves, HasKey, Ack, AddedTo, RepliesInv, ClientsInv;
    ServerAddKeepsReplies(s, request, b, s');
    ServerAddKeepsClients(s, request, b, s');
    AddKeepsAndGains(s.index, b, s'.index);
    AddExtendsWhatIsLeft(s.handled, s.index, b, s'.index);
    RequestOffersItsBook(s, request, b);
    assert forall x :: Offered(s, x) ==> Offered(s', x);
  }

  lemma RequestOffersItsBook(s: State, request: Datagram, b: Book)
    requires RequestsInv(s) && request in s.requests && request.bytes == AddRequest(b)
    ensures Offered(s, b)
  {
    hide AddRequest, ViewRequest, RowBooks;
    NoBookInViewRequest();
    var x :| Offered(s, x) && request.bytes == AddRequest(x);
    AddRequestNamesItsBook(x, b);
  }

  lemma ServerHandleKeepsInv(s: State, request: Datagram, stale: seq<byte>, answer: Option<seq<byte>>, s': State)
    requires Inv(s) && ServerHandles(s, request, stale, answer, s')
    ensures Inv(s')
  {
    hide RepliesInv, ClientsInv, ObserversInv, IndexInv;
    hide AddRequest, ViewRequest, DecodeBook, Handles, AddedTo, Ack, Snapshot, RowBooks;
    if request.bytes == ViewRequest() {
      ServerShows(s, request, stale, answer, s');
      ServerViewKeepsInv(s, request, Snapshot(s.index), s');
    } else {
      var b :| Offered(s, b) && request.bytes == AddRequest(b);
      ServerStep(s, request, stale, answer, s', b);
      ServerAddKeepsInv(s, request, b, s');
    }
  }

  lemma StepKeepsInv(s: State, a: Action, s': State)
    requires Inv(s) && Step(s, a, s')
    ensures Inv(s')
  {
    hide Inv, AddRequest, RowBooks, Passes, DecodeLibrary, ServerHandles, AttemptEnds;
    match a
    case ClientSend(c) => ClientSendKeepsInv(s, c, s');
    case ClientReceive(c, reply) => ClientReceiveKeepsInv(s, c, reply, s');
    case ClientTimeout(c) => AttemptEndKeepsInv(s, c, false, s');
    case ObserverSend(o) => ObserverSendKeepsInv(s, o, s');
    case ObserverReceive(o, reply, stale) => ObserverEndKeepsInv(s, o, s'.observers[o], s');
    case ObserverTimeout(o) => ObserverEndKeepsInv(s, o, s'.observers[o], s');
    case ServerHandle(request, stale, answer) => ServerHandleKeepsInv(s, request, stale, answer, s');
  }
}
