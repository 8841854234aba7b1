/**
 * The UDP library system as a step machine: one server, any number of clients and observers, and a
 * network that may drop, repeat, delay and reorder datagrams but does not alter them.
 */
module UdpProtocol {
  import opened Options
  import opened CStrings
  import opened WireFormat
  import opened Messages
  import opened Shelves
  import opened Attempts

  /** A request with the socket it was sent from, or a reply with the socket it goes to. */
  datatype Datagram = Datagram(sock: nat, bytes: seq<byte>)

  /** `sock` is the socket of the attempt under way; every attempt opens a new one. */
  datatype Client = Client(row: int32, shelves: seq<Shelf>, progress: Progress, sock: Option<nat>) {
    function Books(): seq<Book> {
      RowBooks(row, shelves)
    }
  }

  datatype Observer = Observer(tries: nat, sock: Option<nat>, views: seq<seq<Book>>)

  /**
   * `requests` and `replies` hold everything ever sent. A datagram in them may be received any number of
   * times, at any later moment, or never. `handled` records the additions the server has processed.
   */
  datatype State = State(
    index: seq<Book>,
    handled: seq<Book>,
    requests: set<Datagram>,
    replies: set<Datagram>,
    clients: map<nat, Client>,
    observers: map<nat, Observer>,
    nextSock: nat
  )

  /** `stale` is what the receiving buffer holds behind the datagram. */
  datatype Action =
    | ClientSend(c: nat)
    | ClientReceive(c: nat, reply: seq<byte>)
    | ClientTimeout(c: nat)
    | ObserverSend(o: nat)
    | ObserverReceive(o: nat, reply: seq<byte>, stale: seq<byte>)
    | ObserverTimeout(o: nat)
    | ServerHandle(request: Datagram, stale: seq<byte>, answer: Option<seq<byte>>)

  ghost predicate Init(s: State) {
    && s.index == [] && s.handled == [] && s.requests == {} && s.replies == {}
    && (forall c :: c in s.clients ==>
          s.clients[c].progress == At(s.clients[c].Books(), 0) && s.clients[c].sock == None)
    && (forall o :: o in s.observers ==> s.observers[o] == Observer(0, None, []))
  }

  ghost predicate Busy(s: State, c: nat) {
    && c in s.clients && s.clients[c].sock.Some?
    && s.clients[c].progress.Sending? && Proper(s.clients[c].Books(), s.clients[c].progress)
  }

  /** The book that a client is working on. */
  function Current(client: Client): Book
    requires client.progress.Sending? && client.progress.cur < |client.Books()|
  {
    client.Books()[client.progress.cur]
  }

  function AttemptEnds(client: Client, acknowledged: bool): Client
    requires client.progress.Sending? && Proper(client.Books(), client.progress)
  {
    client.(progress := AfterAttempt(client.Books(), client.progress, acknowledged), sock := None)
  }

  ghost predicate ClientSends(s: State, c: nat, s': State) {
    && c in s.clients && s.clients[c].sock.None?
    && s.clients[c].progress.Sending? && Proper(s.clients[c].Books(), s.clients[c].progress)
    && s' == s.(
         clients := s.clients[c := s.clients[c].(sock := Some(s.nextSock))],
         requests := s.requests + {Datagram(s.nextSock, AddRequest(Current(s.clients[c])))},
         nextSock := s.nextSock + 1)
  }

  ghost predicate ClientReceives(s: State, c: nat, reply: seq<byte>, s': State) {
    && Busy(s, c) && Datagram(s.clients[c].sock.value, reply) in s.replies
    && var acknowledged := Acknowledges(AddRequest(Current(s.clients[c])), reply);
    s' == s.(clients := s.clients[c := AttemptEnds(s.clients[c], acknowledged)])
  }

  ghost predicate ClientTimesOut(s: State, c: nat, s': State) {
    Busy(s, c) && s' == s.(clients := s.clients[c := AttemptEnds(s.clients[c], false)])
  }

  ghost predicate ObserverSends(s: State, o: nat, s': State) {
    && o in s.observers && s.observers[o].sock.None? && s.observers[o].tries < RETRIES
    && s' == s.(
         observers := s.observers[o := s.observers[o].(sock := Some(s.nextSock))],
         requests := s.requests + {Datagram(s.nextSock, ViewRequest())},
         nextSock := s.nextSock + 1)
  }

  ghost predicate ObserverReceives(s: State, o: nat, reply: seq<byte>, stale: seq<byte>, s': State) {
    && o in s.observers && s.observers[o].sock.Some?
    && Datagram(s.observers[o].sock.value, reply) in s.replies
    && if Passes(reply) then
         && DecodeLibrary(reply[4..] + stale).Some?
         && var view := DecodeLibrary(reply[4..] + stale).value.value;
         s' == s.(observers := s.observers[o := Observer(0, None, s.observers[o].views + [view])])
       else
         ObserverFails(s, o, s')
  }

  ghost predicate ObserverFails(s: State, o: nat, s': State) {
    && o in s.observers && s.observers[o].sock.Some?
    && var observer := s.observers[o];
    s' == s.(observers := s.observers[o := Observer(observer.tries + 1, None, observer.views)])
  }

  /** There is no step where the snapshot would not fit: the source overruns its buffer there. */
  ghost predicate ServerHandles(s: State, request: Datagram, stale: seq<byte>, answer: Option<seq<byte>>, s': State) {
    && request in s.requests && |request.bytes| + |stale| == BUFFER_SIZE
    && var buffer := request.bytes + stale;
    && (IsView(request.bytes) ==> SnapshotFits(s.index))
    && Handles(s.index, buffer, |request.bytes|, s'.index, answer)
    && s'.handled == s.handled + (if IsAdd(request.bytes) then [DecodeBook(buffer[5..]).value.value] else [])
    && s'.replies == s.replies + (if answer.Some? then {Datagram(request.sock, answer.value)} else {})
    && s' == s.(index := s'.index, handled := s'.handled, replies := s'.replies)
  }

  predicate IsAdd(bytes: seq<byte>) { |bytes| >= 5 && bytes[4] == ADD }

  predicate IsView(bytes: seq<byte>) { |bytes| >= 5 && bytes[4] == VIEW }

  ghost predicate Step(s: State, a: Action, s': State) {
    match a
    case ClientSend(c) => ClientSends(s, c, s')
    case ClientReceive(c, reply) => ClientReceives(s, c, reply, s')
    case ClientTimeout(c) => ClientTimesOut(s, c, s')
    case ObserverSend(o) => ObserverSends(s, o, s')
    case ObserverReceive(o, reply, stale) => ObserverReceives(s, o, reply, stale, s')
    case ObserverTimeout(o) => ObserverFails(s, o, s')
    case ServerHandle(request, stale, answer) => ServerHandles(s, request, stale, answer, s')
  }
}
