/**
 * ihw7: a client and a server pass one token between two POSIX semaphores. The semaphores outlive the
 * processes, so the machine runs through any number of sessions.
 */
module PosixHandshake {
  import opened Options
  import Channel

  /** What the client does next. */
  datatype Client =
    | GetValue
    | Repair(seen: nat)
    | ClearShutdown
    | ClearMessage
    | WaitB
    | Check
    | Write
    | PostA
    | SetShutdown
    | PostLast
    | Left

  /** What the server does next, once it has initialised the shared memory. */
  datatype Server =
    | WaitA
    | TestShutdown
    | TestStop
    | Print
    | AnnounceShutdown
    | PostB
    | Exited

  datatype State = State(
    semA: nat,
    semB: nat,
    shutdown: bool,
    message: int,
    client: Client,
    server: Server,
    stopClient: bool,
    stopServer: bool,
    sent: seq<int>,
    printed: seq<int>
  )

  /** A session starts after the server's initialisation, on whatever the semaphores hold. */
  function Session(semA: nat, semB: nat): State {
    State(semA, semB, false, 0, GetValue, WaitA, false, false, [], [])
  }

  /** `sem_open` creates the semaphores with these values the first time. */
  ghost predicate Init(s: State) {
    s == Session(0, 1)
  }

  ghost predicate ClientMoves(s: State, s': State) {
    match s.client
    case GetValue => s' == s.(client := Repair(s.semB))
    case Repair(seen) => s' == s.(client := ClearShutdown, semB := if seen == 0 then s.semB + 1 else s.semB)
    case ClearShutdown => s' == s.(client := ClearMessage, shutdown := false)
    case ClearMessage => s' == s.(client := WaitB, message := 0)
    case WaitB => s.semB > 0 && s' == s.(client := Check, semB := s.semB - 1)
    case Check => s' == s.(client := if !s.stopClient && !s.shutdown then Write else SetShutdown)
    case Write => s' == s.(client := PostA, message := s'.message, sent := s.sent + [s'.message])
    case PostA => s' == s.(client := WaitB, semA := s.semA + 1)
    case SetShutdown => s' == s.(client := PostLast, shutdown := true)
    case PostLast => s' == s.(client := Left, semA := s.semA + 1)
    case Left => false
  }

  ghost predicate ServerMoves(s: State, s': State) {
    match s.server
    case WaitA => s.semA > 0 && s' == s.(server := TestShutdown, semA := s.semA - 1)
    case TestShutdown => s' == s.(server := if s.shutdown then Exited else TestStop)
    case TestStop => s' == s.(server := if s.stopServer then AnnounceShutdown else Print)
    case Print => s' == s.(server := PostB, printed := s.printed + [s.message])
    case AnnounceShutdown => s' == s.(server := PostB, shutdown := true)
    case PostB => s' == s.(server := WaitA, semB := s.semB + 1)
    case Exited => false
  }

  datatype Action = ByClient | ByServer | SignalClient | SignalServer | Restart

  ghost predicate Step(s: State, a: Action, s': State) {
    match a
    case ByClient => ClientMoves(s, s')
    case ByServer => ServerMoves(s, s')
    case SignalClient => s' == s.(stopClient := true)
    case SignalServer => s' == s.(stopServer := true)
    case Restart => s.client == Left && s.server == Exited && s' == Session(s.semA, s.semB)
  }

  // The token.

  predicate Starting(client: Client) {
    client.GetValue? || client.Repair? || client.ClearShutdown? || client.ClearMessage?
  }

  /** The client is inside its loop, past `sem_wait` and before its `sem_post`. */
  predicate ClientHolds(s: State) {
    s.client in {Check, Write, PostA, SetShutdown, PostLast}
  }

  predicate ServerHolds(s: State) {
    s.server in {TestShutdown, TestStop, Print, AnnounceShutdown, PostB}
  }

  function Count(b: bool): nat {
    if b then 1 else 0
  }

  function Tokens(s: State): nat {
    s.semA + s.semB + Count(ClientHolds(s)) + Count(ServerHolds(s))
  }

  ghost predicate TokenInv(s: State) {
    match s.client
    case GetValue => s.semA == 0 && s.semB <= 1 && s.server == WaitA
    case Repair(seen) => s.semA == 0 && s.semB <= 1 && s.server == WaitA && seen == s.semB
    case ClearShutdown => s.semA == 0 && s.semB == 1 && s.server == WaitA
    case ClearMessage => s.semA == 0 && s.semB == 1 && s.server == WaitA
    case _ => Tokens(s) == if s.server == Exited then 0 else 1
  }

  // The message on its way.

  /** A message was written and is neither printed nor discarded. */
  predicate Pending(s: State) {
    || s.client == PostA
    || (s.client == WaitB && (s.semA == 1 || s.server in {TestShutdown, TestStop, Print, AnnounceShutdown}))
  }

  ghost predicate FlowInv(s: State) {
    && (s.server == Exited ==> s.client == Left)
    && (s.client == Left || s.client == PostLast ==> s.shutdown)
    && (s.client == Left ==> s.server in {WaitA, TestShutdown, Exited})
    && (s.client == Left && s.server == WaitA ==> s.semA == 1)
    && (Starting(s.client) ==> !s.shutdown && s.sent == [] && s.printed == [])
    && (s.client == Write ==> !s.shutdown)
    && (s.client == SetShutdown && !s.shutdown ==> s.stopClient)
    && (Pending(s) ==> !s.shutdown && s.sent == s.printed + [s.message])
    && (!Pending(s) && !s.shutdown ==> s.sent == s.printed)
    && (s.shutdown ==> s.sent == s.printed
                       || (s.stopServer && s.sent != [] && s.printed == s.sent[..|s.sent| - 1]))
    && (s.server == AnnounceShutdown ==> s.stopServer)
  }

  ghost predicate Inv(s: State) {
    TokenInv(s) && FlowInv(s)
  }

  lemma InitInv(s: State)
    requires Init(s)
    ensures Inv(s)
  {}

  lemma ClientKeepsInv(s: State, s': State)
    requires Inv(s) && ClientMoves(s, s')
    ensures Inv(s')
  {
    assert TokenInv(s') by { hide FlowInv; }
    match s.client
    case GetValue =>
    case Repair(seen) =>
    case ClearShutdown =>
    case ClearMessage =>
    case WaitB =>
    case Check =>
    case Write => assert s'.sent == s'.printed + [s'.message];
    case PostA =>
    case SetShutdown =>
    case PostLast =>
  }

  lemma ServerKeepsInv(s: State, s': State)
    requires Inv(s) && ServerMoves(s, s')
    ensures Inv(s')
  {
    assert TokenInv(s') by { hide FlowInv; }
    match s.server
    case WaitA =>
    case TestShutdown =>
    case TestStop =>
    case Print =>
    case AnnounceShutdown => assert s.printed == s.sent[..|s.sent| - 1];
    case PostB =>
  }

  lemma StepKeepsInv(s: State, a: Action, s': State)
    requires Inv(s) && Step(s, a, s')
    ensures Inv(s')
  {
    hide ClientMoves, ServerMoves;
    match a
    case ByClient => ClientKeepsInv(s, s');
    case ByServer => ServerKeepsInv(s, s');
    case SignalClient =>
    case SignalServer =>
    case Restart =>
  }

  /** Inside their loops the two programs never touch the shared memory at the same time. */
  lemma LoopsExclude(s: State)
    requires Inv(s)
    ensures !(ClientHolds(s) && ServerHolds(s))
    ensures s.semA <= 1 && s.semB <= 1
    ensures Starting(s.client) ==> s.server == WaitA && s.semA == 0
  {}

  // Refinement.

  function Abstract(s: State): Channel.Channel {
    Channel.Channel(
      if Pending(s) then Some(s.message) else None,
      s.sent,
      s.printed,
      if !s.shutdown then Channel.Open
      else if s.sent == s.printed then Channel.ClosedBySender
      else Channel.ClosedByReceiver)
  }

  /** Writing is putting; raising the flag first is closing; nothing else the client does shows. */
  lemma ClientOnChannel(s: State, s': State)
    requires Inv(s) && ClientMoves(s, s')
    ensures
      if s.client == Write then Channel.Put(Abstract(s), Abstract(s'))
      else if s.client == SetShutdown && !s.shutdown then Channel.Close(Abstract(s), Abstract(s'))
      else Abstract(s') == Abstract(s)
  {
    match s.client
    case Write => assert s'.sent == s'.printed + [s'.message];
    case _ =>
  }

  /** Printing is taking; raising the flag in place of printing discards the message. */
  lemma ServerOnChannel(s: State, s': State)
    requires Inv(s) && ServerMoves(s, s')
    ensures
      if s.server == Print then Channel.Take(Abstract(s), Abstract(s'))
      else if s.server == AnnounceShutdown then Channel.Discard(Abstract(s), Abstract(s'))
      else Abstract(s') == Abstract(s)
  {
    match s.server
    case AnnounceShutdown => assert |s.sent| == |s.printed| + 1;
    case _ =>
  }

  /** Within a session every step is a step of the channel, or none. */
  lemma RefinesChannel(s: State, a: Action, s': State)
    requires Inv(s) && Step(s, a, s') && a != Restart
    ensures Abstract(s') == Abstract(s) || Channel.Step(Abstract(s), Abstract(s'))
  {
    hide ClientMoves, ServerMoves, Inv;
    match a
    case ByClient => ClientOnChannel(s, s');
    case ByServer => ServerOnChannel(s, s');
    case _ =>
  }

  // Whole runs.

  ghost predicate IsRun(states: seq<State>, actions: seq<Action>) {
    && |states| == |actions| + 1 && Init(states[0])
    && forall i :: 0 <= i < |actions| ==> Step(states[i], actions[i], states[i + 1])
  }

  lemma {:induction false} RunKeepsInv(states: seq<State>, actions: seq<Action>, i: nat)
    requires IsRun(states, actions) && i < |states|
    ensures Inv(states[i])
  {
    hide Init, Step, Inv;
    if i == 0 {
      InitInv(states[0]);
    } else {
      RunKeepsInv(states, actions, i - 1);
      StepKeepsInv(states[i - 1], actions[i - 1], states[i]);
    }
  }

  /** The moments from `first` to `last` belong to one session, which starts at `first`. */
  ghost predicate InSession(states: seq<State>, actions: seq<Action>, first: nat, last: nat)
    requires IsRun(states, actions)
  {
    && first <= last < |states| && states[first] == Session(states[first].semA, states[first].semB)
    && forall i :: first <= i < last ==> actions[i] != Restart
  }

  function Observed(states: seq<State>, first: nat, last: nat): (run: seq<Channel.Channel>)
    requires first <= last < |states|
    ensures |run| == last - first + 1
    ensures forall i :: 0 <= i < |run| ==> run[i] == Abstract(states[first + i])
  {
    seq(last - first + 1, i requires 0 <= i < last - first + 1 => Abstract(states[first + i]))
  }

  /** A session, seen from outside, is a run of the channel. */
  lemma SessionIsChannelRun(states: seq<State>, actions: seq<Action>, first: nat, last: nat)
    requires IsRun(states, actions) && InSession(states, actions, first, last)
    ensures Channel.IsRun(Observed(states, first, last))
  {
    hide Step, Init, Inv, Abstract;
    var run := Observed(states, first, last);
    FreshSession(states[first]);
    forall i | 0 <= i < |run| - 1
      ensures run[i] == run[i + 1] || Channel.Step(run[i], run[i + 1])
    {
      RunKeepsInv(states, actions, first + i);
      RefinesChannel(states[first + i], actions[first + i], states[first + i + 1]);
    }
  }

  lemma FreshSession(s: State)
    requires s == Session(s.semA, s.semB)
    ensures Abstract(s) == Channel.EMPTY
  {}

  /** In every session, what is printed is a prefix of what was sent and at most one message behind. */
  lemma SessionDelivers(states: seq<State>, actions: seq<Action>, first: nat, last: nat)
    requires IsRun(states, actions) && InSession(states, actions, first, last)
    ensures states[last].printed <= states[last].sent
    ensures |states[last].sent| <= |states[last].printed| + 1
  {
    hide Step, Init, Pending;
    SessionIsChannelRun(states, actions, first, last);
    var run := Observed(states, first, last);
    Channel.DeliversInOrder(run, last - first);
    assert run[last - first] == Abstract(states[last]);
  }

  /** Every moment of a run belongs to a session. */
  lemma {:induction false} SessionBegan(states: seq<State>, actions: seq<Action>, i: nat) returns (first: nat)
    requires IsRun(states, actions) && i < |states|
    ensures InSession(states, actions, first, i)
  {
    if i == 0 {
      first := 0;
    } else if actions[i - 1] == Restart {
      first := i;
      assert Step(states[i - 1], actions[i - 1], states[i - 1 + 1]);
    } else {
      first := SessionBegan(states, actions, i - 1);
    }
  }

  /** The server raised the shutdown flag, in place of printing, in this session. */
  ghost predicate ServerBeganShutdown(states: seq<State>, actions: seq<Action>, first: nat, last: nat)
    requires IsRun(states, actions) && InSession(states, actions, first, last)
  {
    exists i :: first <= i < last && actions[i] == ByServer && states[i].server == AnnounceShutdown
  }

  predicate ClosedByServer(s: State) {
    Abstract(s).phase.ClosedByReceiver?
  }

  lemma ClosingStep(s: State, a: Action, s': State)
    requires Inv(s) && Step(s, a, s') && a != Restart
    ensures ClosedByServer(s') <==> ClosedByServer(s) || (a == ByServer && s.server == AnnounceShutdown)
  {
    hide ClientMoves, ServerMoves, Inv, Abstract;
    match a
    case ByClient => ClientOnChannel(s, s');
    case ByServer => ServerOnChannel(s, s');
    case SignalClient => assert Abstract(s') == Abstract(s) by { SignalIsInvisible(s, s'); }
    case SignalServer => assert Abstract(s') == Abstract(s) by { SignalIsInvisible(s, s'); }
  }

  lemma SignalIsInvisible(s: State, s': State)
    requires s' == s.(stopClient := true) || s' == s.(stopServer := true)
    ensures Abstract(s') == Abstract(s)
  {}

  /** The channel counts as closed by the server exactly when the server began the shutdown. */
  lemma {:induction false} ClosedByServerExactlyWhen(states: seq<State>, actions: seq<Action>, first: nat, last: nat)
    requires IsRun(states, actions) && InSession(states, actions, first, last)
    ensures ClosedByServer(states[last]) <==> ServerBeganShutdown(states, actions, first, last)
    decreases last - first
  {
    hide Init, Step, Inv, Abstract, ClosedByServer;
    if last == first {
      FreshIsNotClosed(states[first]);
    } else {
      assert InSession(states, actions, first, last - 1);
      ClosedByServerExactlyWhen(states, actions, first, last - 1);
      RunKeepsInv(states, actions, last - 1);
      ClosingStep(states[last - 1], actions[last - 1], states[last]);
    }
  }

  lemma FreshIsNotClosed(s: State)
    requires s == Session(s.semA, s.semB)
    ensures !ClosedByServer(s)
  {}

  /** The last message was taken by the server and not printed. */
  predicate LastIsLost(s: State) {
    s.sent != [] && s.printed == s.sent[..|s.sent| - 1]
  }

  /**
   * A completed session leaves both semaphores at 0. Everything sent was printed, except that the last message
   * is missing exactly when the server began the shutdown.
   */
  lemma SessionEnds(states: seq<State>, actions: seq<Action>, first: nat, last: nat)
    requires IsRun(states, actions) && InSession(states, actions, first, last)
    requires states[last].client == Left && states[last].server == Exited
    ensures states[last].semA == 0 && states[last].semB == 0
    ensures states[last].printed == states[last].sent <==> !ServerBeganShutdown(states, actions, first, last)
    ensures LastIsLost(states[last]) <==> ServerBeganShutdown(states, actions, first, last)
    ensures ServerBeganShutdown(states, actions, first, last) ==> states[last].stopServer
  {
    hide Init, Step, ServerBeganShutdown;
    RunKeepsInv(states, actions, last);
    ClosedByServerExactlyWhen(states, actions, first, last);
    JointExit(states[last]);
  }

  lemma JointExit(s: State)
    requires Inv(s) && s.client == Left && s.server == Exited
    ensures s.semA == 0 && s.semB == 0
    ensures s.printed == s.sent <==> !ClosedByServer(s)
    ensures LastIsLost(s) <==> ClosedByServer(s)
    ensures ClosedByServer(s) ==> s.stopServer
  {}

  /** One token through every session, whatever the sessions before it left. */
  lemma OneToken(states: seq<State>, actions: seq<Action>, i: nat)
    requires IsRun(states, actions) && i < |states|
    requires !Starting(states[i].client) && states[i].server != Exited
    ensures Tokens(states[i]) == 1
  {
    hide Step, Init;
    RunKeepsInv(states, actions, i);
  }

  /** Nothing resets the semaphores, so a later session starts on two empty ones, with nobody to post. */
  lemma LaterSessionStartsEmpty(states: seq<State>, actions: seq<Action>, i: nat)
    requires IsRun(states, actions) && i < |actions| && actions[i] == Restart
    ensures states[i + 1] == Session(0, 0)
  {
    hide Init, Inv, FlowInv, ClientMoves, ServerMoves;
    RunKeepsInv(states, actions, i);
    assert Step(states[i], actions[i], states[i + 1]);
    JointExit(states[i]);
  }

  // No deadlock, and an end.

  /** As long as one of them runs, one of them can move. */
  lemma NeverStuck(s: State) returns (a: Action, s': State)
    requires Inv(s) && !(s.client == Left && s.server == Exited)
    ensures (a == ByClient || a == ByServer) && Step(s, a, s')
  {
    if ClientCan(s) {
      ClientTakesNext(s, 0);
      a, s' := ByClient, ClientNext(s, 0);
    } else {
      assert ServerCan(s);
      ServerTakesNext(s);
      a, s' := ByServer, ServerNext(s);
    }
  }

  predicate Stopping(s: State) {
    s.stopClient || s.stopServer || s.shutdown
  }

  /** How many steps the two programs have left once one of them is to stop. */
  function StepsLeft(s: State): nat {
    var closing := s.stopClient || s.shutdown;
    match s.client
    case GetValue => 20
    case Repair(_) => 19
    case ClearShutdown => 18
    case ClearMessage => 17
    case Check => if closing then 5 else 14
    case Write => 13
    case PostA => 12
    case SetShutdown => 4
    case PostLast => 3
    case Left => (match s.server case WaitA => 2 case TestShutdown => 1 case _ => 0)
    case WaitB =>
      match s.server
      case WaitA => if s.semA > 0 then 11 else if closing then 6 else 15
      case TestShutdown => 10
      case TestStop => 9
      case Print => if closing then 8 else 17
      case AnnounceShutdown => 8
      case PostB => if closing then 7 else 16
      case Exited => 0
  }

  lemma ClientNearsExit(s: State, s': State)
    requires Inv(s) && Stopping(s) && ClientMoves(s, s')
    ensures Stopping(s') && StepsLeft(s') < StepsLeft(s)
  {
    match s.client
    case Check =>
    case _ =>
  }

  lemma ServerNearsExit(s: State, s': State)
    requires Inv(s) && Stopping(s) && ServerMoves(s, s')
    ensures Stopping(s') && StepsLeft(s') < StepsLeft(s)
  {
    match s.server
    case TestStop =>
    case _ =>
  }

  /** Once a `stop` is set every step of either program brings the end nearer, and no signal delays it. */
  lemma StopLeadsToExit(s: State, a: Action, s': State)
    requires Inv(s) && Stopping(s) && Step(s, a, s') && a != Restart
    ensures Stopping(s')
    ensures if a == ByClient || a == ByServer then StepsLeft(s') < StepsLeft(s) else StepsLeft(s') <= StepsLeft(s)
  {
    hide ClientMoves, ServerMoves, Inv;
    match a
    case ByClient => ClientNearsExit(s, s');
    case ByServer => ServerNearsExit(s, s');
    case _ =>
  }

  function ProgramSteps(actions: seq<Action>): nat {
    if actions == [] then 0
    else Count(actions[0] == ByClient || actions[0] == ByServer) + ProgramSteps(actions[1..])
  }

  /** So at most twenty more statements are executed, by both programs together, before both are gone. */
  lemma {:induction false} StopBoundsSteps(states: seq<State>, actions: seq<Action>, i: nat, j: nat)
    requires IsRun(states, actions) && i <= j < |states| && Stopping(states[i])
    requires forall h :: i <= h < j ==> actions[h] != Restart
    ensures ProgramSteps(actions[i..j]) <= StepsLeft(states[i]) - StepsLeft(states[j])
    ensures Stopping(states[j]) && StepsLeft(states[i]) <= 20
    decreases j - i
  {
    hide Step, Init, Inv, StepsLeft, Stopping;
    TwentyAtMost(states[i]);
    if i < j {
      RunKeepsInv(states, actions, i);
      StopLeadsToExit(states[i], actions[i], states[i + 1]);
      StopBoundsSteps(states, actions, i + 1, j);
      assert actions[i..j][1..] == actions[i + 1..j];
    } else {
      assert actions[i..j] == [];
    }
  }

  lemma TwentyAtMost(s: State)
    ensures StepsLeft(s) <= 20
  {}

  /** A signal to either program, at whatever moment, leaves at most twenty statements in its session. */
  lemma SignalEndsSession(states: seq<State>, actions: seq<Action>, i: nat, j: nat)
    requires IsRun(states, actions) && i < j < |states|
    requires actions[i] == SignalClient || actions[i] == SignalServer
    requires forall h :: i <= h < j ==> actions[h] != Restart
    ensures ProgramSteps(actions[i..j]) <= 20
  {
    hide Init, Inv, StepsLeft, TokenInv, FlowInv;
    assert Step(states[i], actions[i], states[i + 1]);
    StopBoundsSteps(states, actions, i + 1, j);
    RunKeepsInv(states, actions, j);
    assert actions[i..j][1..] == actions[i + 1..j];
    StepsLeftAtLeastZero(states[j]);
  }

  lemma StepsLeftAtLeastZero(s: State)
    ensures StepsLeft(s) >= 0
  {}

  // Nothing but `sem_wait` on an empty semaphore holds a program back.

  predicate ClientCan(s: State) {
    s.client != Left && !(s.client == WaitB && s.semB == 0)
  }

  predicate ServerCan(s: State) {
    s.server != Exited && !(s.server == WaitA && s.semA == 0)
  }

  /** The client's next statement, where `rand` returns `message`. */
  function ClientNext(s: State, message: int): State
    requires ClientCan(s)
  {
    match s.client
    case GetValue => s.(client := Repair(s.semB))
    case Repair(seen) => s.(client := ClearShutdown, semB := if seen == 0 then s.semB + 1 else s.semB)
    case ClearShutdown => s.(client := ClearMessage, shutdown := false)
    case ClearMessage => s.(client := WaitB, message := 0)
    case WaitB => s.(client := Check, semB := s.semB - 1)
    case Check => s.(client := if !s.stopClient && !s.shutdown then Write else SetShutdown)
    case Write => s.(client := PostA, message := message, sent := s.sent + [message])
    case PostA => s.(client := WaitB, semA := s.semA + 1)
    case SetShutdown => s.(client := PostLast, shutdown := true)
    case PostLast => s.(client := Left, semA := s.semA + 1)
  }

  function ServerNext(s: State): State
    requires ServerCan(s)
  {
    match s.server
    case WaitA => s.(server := TestShutdown, semA := s.semA - 1)
    case TestShutdown => s.(server := if s.shutdown then Exited else TestStop)
    case TestStop => s.(server := if s.stopServer then AnnounceShutdown else Print)
    case Print => s.(server := PostB, printed := s.printed + [s.message])
    case AnnounceShutdown => s.(server := PostB, shutdown := true)
    case PostB => s.(server := WaitA, semB := s.semB + 1)
  }

  lemma ClientTakesNext(s: State, message: int)
    requires ClientCan(s)
    ensures Step(s, ByClient, ClientNext(s, message))
  {}

  lemma ServerTakesNext(s: State)
    requires ServerCan(s)
    ensures Step(s, ByServer, ServerNext(s))
  {}

  /** The client is stuck exactly when it has left or waits for an empty semaphore. */
  lemma ClientBlockedExactlyWhen(s: State)
    ensures (forall s' :: !Step(s, ByClient, s')) <==> s.client == Left || (s.client == WaitB && s.semB == 0)
  {
    if ClientCan(s) {
      ClientTakesNext(s, 0);
    }
  }

  /** Whatever `rand` returns is what is sent. */
  lemma AnythingCanBeWritten(s: State, message: int)
    requires s.client == Write
    ensures exists s' :: Step(s, ByClient, s') && s'.message == message && s'.sent == s.sent + [message]
  {
    ClientTakesNext(s, message);
  }

  lemma ServerBlockedExactlyWhen(s: State)
    ensures (forall s' :: !Step(s, ByServer, s')) <==> s.server == Exited || (s.server == WaitA && s.semA == 0)
  {
    if ServerCan(s) {
      ServerTakesNext(s);
    }
  }

  /** Signals can come at any moment, and a new session starts exactly when both programs are gone. */
  lemma OutsideCanAct(s: State)
    ensures exists s' :: Step(s, SignalClient, s') && s'.stopClient && s'.stopServer == s.stopServer
    ensures exists s' :: Step(s, SignalServer, s') && s'.stopServer && s'.stopClient == s.stopClient
    ensures (exists s' :: Step(s, Restart, s')) <==> s.client == Left && s.server == Exited
  {
    assert Step(s, SignalClient, s.(stopClient := true));
    assert Step(s, SignalServer, s.(stopServer := true));
    if s.client == Left && s.server == Exited {
      assert Step(s, Restart, Session(s.semA, s.semB));
    }
  }

  // Sessions that happen.

  lemma Goes(states: seq<State>, actions: seq<Action>, a: Action, s: State)
    requires IsRun(states, actions) && Step(states[|actions|], a, s)
    ensures IsRun(states + [s], actions + [a]) && (states + [s])[|actions| + 1] == s
  {
    hide Init, Step;
    var more, acts := states + [s], actions + [a];
    forall i | 0 <= i < |acts|
      ensures Step(more[i], acts[i], more[i + 1])
    {
      if i < |actions| {
        assert Step(states[i], actions[i], states[i + 1]);
      }
    }
  }

  /** The first session so far, as the reader of a run sees it: no restart yet, and it stands at `s`. */
  ghost predicate StandsAt(states: seq<State>, actions: seq<Action>, s: State) {
    IsRun(states, actions) && states[|actions|] == s && Restart !in actions
  }

  lemma ClientGoes(states: seq<State>, actions: seq<Action>, s: State, message: int)
    returns (states': seq<State>, actions': seq<Action>)
    requires StandsAt(states, actions, s) && ClientCan(s)
    ensures StandsAt(states', actions', ClientNext(s, message))
  {
    hide Step, IsRun;
    ClientTakesNext(s, message);
    Goes(states, actions, ByClient, ClientNext(s, message));
    states', actions' := states + [ClientNext(s, message)], actions + [ByClient];
  }

  lemma ServerGoes(states: seq<State>, actions: seq<Action>, s: State)
    returns (states': seq<State>, actions': seq<Action>)
    requires StandsAt(states, actions, s) && ServerCan(s)
    ensures StandsAt(states', actions', ServerNext(s))
  {
    hide Step, IsRun;
    ServerTakesNext(s);
    Goes(states, actions, ByServer, ServerNext(s));
    states', actions' := states + [ServerNext(s)], actions + [ByServer];
  }

  /** The client is back at `sem_wait`, with the token in its semaphore, and all messages are printed. */
  function Idle(messages: seq<int>): State {
    var last := if messages == [] then 0 else messages[|messages| - 1];
    State(0, 1, false, last, WaitB, WaitA, false, false, messages, messages)
  }

  /** A message is written and posted. */
  function Posted(messages: seq<int>, message: int): State {
    State(1, 0, false, message, WaitB, WaitA, false, false, messages + [message], messages)
  }

  lemma StartUp() returns (states: seq<State>, actions: seq<Action>)
    ensures StandsAt(states, actions, Idle([]))
  {
    hide Step, StandsAt;
    var s := Session(0, 1);
    states, actions := [s], [];
    assert StandsAt(states, actions, s) by { AtStart(states, actions); }
    states, actions := ClientGoes(states, actions, s, 0);
    s := ClientNext(s, 0);
    states, actions := ClientGoes(states, actions, s, 0);
    s := ClientNext(s, 0);
    states, actions := ClientGoes(states, actions, s, 0);
    s := ClientNext(s, 0);
    states, actions := ClientGoes(states, actions, s, 0);
    assert ClientNext(s, 0) == Idle([]);
  }

  lemma AtStart(states: seq<State>, actions: seq<Action>)
    requires states == [Session(0, 1)] && actions == []
    ensures StandsAt(states, actions, Session(0, 1))
  {}

  lemma CanPost(states: seq<State>, actions: seq<Action>, messages: seq<int>, message: int)
    returns (states': seq<State>, actions': seq<Action>)
    requires StandsAt(states, actions, Idle(messages))
    ensures StandsAt(states', actions', Posted(messages, message))
  {
    hide Step, StandsAt;
    var s := Idle(messages);
    states', actions' := ClientGoes(states, actions, s, message);
    s := ClientNext(s, message);
    states', actions' := ClientGoes(states', actions', s, message);
    s := ClientNext(s, message);
    states', actions' := ClientGoes(states', actions', s, message);
    s := ClientNext(s, message);
    states', actions' := ClientGoes(states', actions', s, message);
    assert ClientNext(s, message) == Posted(messages, message);
  }

  lemma CanPrint(states: seq<State>, actions: seq<Action>, messages: seq<int>, message: int)
    returns (states': seq<State>, actions': seq<Action>)
    requires StandsAt(states, actions, Posted(messages, message))
    ensures StandsAt(states', actions', Idle(messages + [message]))
  {
    hide Step, StandsAt;
    var s := Posted(messages, message);
    states', actions' := ServerGoes(states, actions, s);
    s := ServerNext(s);
    states', actions' := ServerGoes(states', actions', s);
    s := ServerNext(s);
    states', actions' := ServerGoes(states', actions', s);
    s := ServerNext(s);
    states', actions' := ServerGoes(states', actions', s);
    s := ServerNext(s);
    states', actions' := ServerGoes(states', actions', s);
    assert ServerNext(s) == Idle(messages + [message]);
  }

  /** Any messages at all can be sent and printed. */
  lemma {:induction false} AnythingCanBeDelivered(messages: seq<int>) returns (states: seq<State>, actions: seq<Action>)
    ensures StandsAt(states, actions, Idle(messages))
  {
    hide Step, StandsAt, Idle;
    if messages == [] {
      states, actions := StartUp();
    } else {
      var n := |messages| - 1;
      states, actions := AnythingCanBeDelivered(messages[..n]);
      states, actions := CanPost(states, actions, messages[..n], messages[n]);
      states, actions := CanPrint(states, actions, messages[..n], messages[n]);
      assert messages == messages[..n] + [messages[n]];
    }
  }

  /** The server takes the token and leaves, once the client is gone. */
  lemma ServerLeaves(states: seq<State>, actions: seq<Action>, s: State)
    returns (states': seq<State>, actions': seq<Action>)
    requires StandsAt(states, actions, s) && s.semA == 1 && s.server == WaitA && s.shutdown
    ensures StandsAt(states', actions', s.(semA := 0, server := Exited))
  {
    hide Step, StandsAt;
    states', actions' := ServerGoes(states, actions, s);
    states', actions' := ServerGoes(states', actions', ServerNext(s));
  }

  /** The client takes the token, finds that it is to stop, and leaves. */
  lemma ClientLeaves(states: seq<State>, actions: seq<Action>, s: State)
    returns (states': seq<State>, actions': seq<Action>)
    requires StandsAt(states, actions, s) && s.client == WaitB && s.semB == 1 && (s.stopClient || s.shutdown)
    ensures StandsAt(states', actions', s.(semA := s.semA + 1, semB := 0, shutdown := true, client := Left))
  {
    hide Step, StandsAt;
    var s' := s;
    states', actions' := ClientGoes(states, actions, s', 0);
    s' := ClientNext(s', 0);
    states', actions' := ClientGoes(states', actions', s', 0);
    s' := ClientNext(s', 0);
    states', actions' := ClientGoes(states', actions', s', 0);
    s' := ClientNext(s', 0);
    states', actions' := ClientGoes(states', actions', s', 0);
  }

  lemma SignalArrives(states: seq<State>, actions: seq<Action>, s: State, toServer: bool)
    returns (states': seq<State>, actions': seq<Action>)
    requires StandsAt(states, actions, s)
    ensures StandsAt(states', actions', if toServer then s.(stopServer := true) else s.(stopClient := true))
  {
    hide IsRun;
    var a := if toServer then SignalServer else SignalClient;
    var s' := if toServer then s.(stopServer := true) else s.(stopClient := true);
    assert Step(s, a, s');
    Goes(states, actions, a, s');
    states', actions' := states + [s'], actions + [a];
  }

  /** After any messages the client can be stopped: both exit and everything was printed. */
  lemma ClientCanEndSession(messages: seq<int>) returns (states: seq<State>, actions: seq<Action>)
    ensures IsRun(states, actions) && InSession(states, actions, 0, |actions|)
    ensures
      var s := states[|actions|];
      && s.client == Left && s.server == Exited && s.sent == s.printed == messages
      && !ServerBeganShutdown(states, actions, 0, |actions|)
  {
    hide Step, Init, Inv, ServerBeganShutdown;
    states, actions := AnythingCanBeDelivered(messages);
    states, actions := SignalArrives(states, actions, Idle(messages), false);
    var s := Idle(messages).(stopClient := true);
    states, actions := ClientLeaves(states, actions, s);
    s := s.(semA := 1, semB := 0, shutdown := true, client := Left);
    states, actions := ServerLeaves(states, actions, s);
    WholeSession(states, actions);
    SessionEnds(states, actions, 0, |actions|);
  }

  /** Or the server can be stopped after one more was written: both exit and exactly that one is lost. */
  lemma ServerCanEndSession(messages: seq<int>, message: int) returns (states: seq<State>, actions: seq<Action>)
    ensures IsRun(states, actions) && InSession(states, actions, 0, |actions|)
    ensures
      var s := states[|actions|];
      && s.client == Left && s.server == Exited && s.sent == messages + [message] && s.printed == messages
      && LastIsLost(s) && ServerBeganShutdown(states, actions, 0, |actions|)
  {
    hide Step, Init, Inv, ServerBeganShutdown, StandsAt;
    states, actions := AnythingCanBeDelivered(messages);
    states, actions := CanPost(states, actions, messages, message);
    states, actions := SignalArrives(states, actions, Posted(messages, message), true);
    var s := Posted(messages, message).(stopServer := true);
    states, actions := ServerAnnounces(states, actions, s);
    s := s.(semA := 0, semB := 1, shutdown := true);
    states, actions := ClientLeaves(states, actions, s);
    s := s.(semA := 1, semB := 0, shutdown := true, client := Left);
    states, actions := ServerLeaves(states, actions, s);
    s := s.(semA := 0, server := Exited);
    Stands(states, actions, s);
    WholeSession(states, actions);
    assert s.sent[..|s.sent| - 1] == messages;
    SessionEnds(states, actions, 0, |actions|);
  }

  lemma Stands(states: seq<State>, actions: seq<Action>, s: State)
    requires StandsAt(states, actions, s)
    ensures IsRun(states, actions) && states[|actions|] == s && Restart !in actions
  {}

  lemma ServerAnnounces(states: seq<State>, actions: seq<Action>, s: State)
    returns (states': seq<State>, actions': seq<Action>)
    requires StandsAt(states, actions, s) && s.server == WaitA && s.semA == 1 && !s.shutdown && s.stopServer
    ensures StandsAt(states', actions', s.(semA := 0, semB := s.semB + 1, shutdown := true))
  {
    hide Step, StandsAt;
    var s' := s;
    states', actions' := ServerGoes(states, actions, s');
    s' := ServerNext(s');
    states', actions' := ServerGoes(states', actions', s');
    s' := ServerNext(s');
    states', actions' := ServerGoes(states', actions', s');
    s' := ServerNext(s');
    states', actions' := ServerGoes(states', actions', s');
    s' := ServerNext(s');
    states', actions' := ServerGoes(states', actions', s');
  }

  lemma WholeSession(states: seq<State>, actions: seq<Action>)
    requires IsRun(states, actions) && Restart !in actions
    ensures InSession(states, actions, 0, |actions|)
  {
    hide Step;
  }
}
