/** ihw6: the same exchange over two System V semaphores that are waited on for zero, one `semop` a step. */
module SysvHandshake {
  import opened Options
  import Channel

  /** Semaphore 1 holds the client back while it is not zero. */
  datatype Client =
    | WaitZero1
    | Check
    | Write
    | LockSelf
    | UnlockServer
    | SetShutdown
    | UnlockLast
    | Left

  /** Semaphore 0 holds the server back while it is not zero. */
  datatype Server =
    | WaitZero0
    | TestShutdown
    | Print
    | LockItself
    | UnlockClient
    | Exited

  datatype State = State(
    sem0: nat,
    sem1: nat,
    shutdown: bool,
    message: int,
    client: Client,
    server: Server,
    stop: bool,
    sent: seq<int>,
    printed: seq<int>
  )

  /** The server has set the semaphores and cleared the shared memory; the client starts after that. */
  ghost predicate Init(s: State) {
    s == State(1, 0, false, 0, WaitZero1, WaitZero0, false, [], [])
  }

  ghost predicate ClientMoves(s: State, s': State) {
    match s.client
    case WaitZero1 => s.sem1 == 0 && s' == s.(client := Check)
    case Check => s' == s.(client := if s.stop then SetShutdown else Write)
    case Write => s' == s.(client := LockSelf, message := s'.message, sent := s.sent + [s'.message])
    case LockSelf => s' == s.(client := UnlockServer, sem1 := s.sem1 + 1)
    case UnlockServer => s.sem0 > 0 && s' == s.(client := WaitZero1, sem0 := s.sem0 - 1)
    case SetShutdown => s' == s.(client := UnlockLast, shutdown := true)
    case UnlockLast => s.sem0 > 0 && s' == s.(client := Left, sem0 := s.sem0 - 1)
    case Left => false
  }

  ghost predicate ServerMoves(s: State, s': State) {
    match s.server
    case WaitZero0 => s.sem0 == 0 && s' == s.(server := TestShutdown)
    case TestShutdown => s' == s.(server := if s.shutdown then Exited else Print)
    case Print => s' == s.(server := LockItself, printed := s.printed + [s.message])
    case LockItself => s' == s.(server := UnlockClient, sem0 := s.sem0 + 1)
    case UnlockClient => s.sem1 > 0 && s' == s.(server := WaitZero0, sem1 := s.sem1 - 1)
    case Exited => false
  }

  datatype Action = ByClient | ByServer | Signal

  ghost predicate Step(s: State, a: Action, s': State) {
    match a
    case ByClient => ClientMoves(s, s')
    case ByServer => ServerMoves(s, s')
    case Signal => s' == s.(stop := true)
  }

  /** Between leaving its wait and its last `semop` a program is in its section. */
  predicate ClientInside(s: State) {
    s.client != WaitZero1 && s.client != Left
  }

  predicate ServerInside(s: State) {
    s.server != WaitZero0 && s.server != Exited
  }

  /** Whose turn it is, by the two semaphores and the two positions. */
  ghost predicate TurnInv(s: State) {
    if s.client == Left then
      s.sem0 == 0 && s.sem1 == 0 && s.shutdown && s.server in {WaitZero0, TestShutdown, Exited}
    else if ClientInside(s) then
      && s.server == WaitZero0 && s.sem0 == 1
      && s.sem1 == (if s.client == UnlockServer then 1 else 0)
      && (s.shutdown <==> s.client == UnlockLast)
    else if s.server == WaitZero0 && s.sem1 == 0 then
      s.sem0 == 1 && !s.shutdown
    else
      && s.sem1 == 1 && s.sem0 == (if s.server == UnlockClient then 1 else 0)
      && s.server != Exited && !s.shutdown
  }

  predicate Pending(s: State) {
    || s.client == LockSelf || s.client == UnlockServer
    || (s.client == WaitZero1 && s.sem1 == 1 && s.server in {WaitZero0, TestShutdown, Print})
  }

  ghost predicate FlowInv(s: State) {
    && (if Pending(s) then s.sent == s.printed + [s.message] else s.sent == s.printed)
    && (s.shutdown || s.client == SetShutdown ==> s.stop)
  }

  ghost predicate Inv(s: State) {
    TurnInv(s) && FlowInv(s)
  }

  lemma InitInv(s: State)
    requires Init(s)
    ensures Inv(s)
  {}

  lemma ClientKeepsInv(s: State, s': State)
    requires Inv(s) && ClientMoves(s, s')
    ensures Inv(s')
  {
    match s.client
    case Write => assert s'.sent == s'.printed + [s'.message];
    case _ =>
  }

  lemma ServerKeepsInv(s: State, s': State)
    requires Inv(s) && ServerMoves(s, s')
    ensures Inv(s')
  {
    match s.server
    case TestShutdown =>
    case _ =>
  }

  lemma StepKeepsInv(s: State, a: Action, s': State)
    requires Inv(s) && Step(s, a, s')
    ensures Inv(s')
  {
    hide ClientMoves, ServerMoves;
    match a
    case ByClient => ClientKeepsInv(s, s');
    case ByServer => ServerKeepsInv(s, s');
    case Signal =>
  }

  function Abstract(s: State): Channel.Channel {
    Channel.Channel(
      if Pending(s) then Some(s.message) else None,
      s.sent,
      s.printed,
      if s.shutdown then Channel.ClosedBySender else Channel.Open)
  }

  lemma ClientOnChannel(s: State, s': State)
    requires Inv(s) && ClientMoves(s, s')
    ensures
      if s.client == Write then Channel.Put(Abstract(s), Abstract(s'))
      else if s.client == SetShutdown then Channel.Close(Abstract(s), Abstract(s'))
      else Abstract(s') == Abstract(s)
  {
    match s.client
    case Write => assert s'.sent == s'.printed + [s'.message];
    case _ =>
  }

  lemma ServerOnChannel(s: State, s': State)
    requires Inv(s) && ServerMoves(s, s')
    ensures
      if s.server == Print then Channel.Take(Abstract(s), Abstract(s'))
      else Abstract(s') == Abstract(s)
  {
    match s.server
    case TestShutdown =>
    case _ =>
  }

  /** Every step is a step of the channel, or none; the receiver never closes it. */
  lemma RefinesChannel(s: State, a: Action, s': State)
    requires Inv(s) && Step(s, a, s')
    ensures Abstract(s') == Abstract(s) || Channel.Step(Abstract(s), Abstract(s'))
    ensures !Channel.Discard(Abstract(s), Abstract(s'))
  {
    hide ClientMoves, ServerMoves, Inv;
    match a
    case ByClient => ClientOnChannel(s, s');
    case ByServer => ServerOnChannel(s, s');
    case Signal =>
  }

  // Whole runs.

  ghost predicate IsRun(states: seq<State>, actions: seq<Action>) {
    && |states| == |actions| + 1 && Init(states[0])
    && forall i :: 0 <= i < |actions| ==> Step(states[i], actions[i], states[i + 1])
  }

  lemma {:induction false} RunKeepsInv(states: seq<State>, actions: seq<Action>, i: nat)
    requires IsRun(states, actions) && i < |states|
    ensures Inv(states[i])
  {
    hide Init, Step, Inv;
    if i == 0 {
      InitInv(states[0]);
    } else {
      RunKeepsInv(states, actions, i - 1);
      StepKeepsInv(states[i - 1], actions[i - 1], states[i]);
    }
  }

  function Observed(states: seq<State>): (run: seq<Channel.Channel>)
    ensures |run| == |states| && forall i :: 0 <= i < |run| ==> run[i] == Abstract(states[i])
  {
    seq(|states|, i requires 0 <= i < |states| => Abstract(states[i]))
  }

  /** A run, seen from outside, is a run of the channel, and delivers as the channel does. */
  lemma RunDelivers(states: seq<State>, actions: seq<Action>, i: nat)
    requires IsRun(states, actions) && i < |states|
    ensures Channel.IsRun(Observed(states))
    ensures states[i].printed <= states[i].sent && |states[i].sent| <= |states[i].printed| + 1
  {
    hide Step, Init, Inv, Pending;
    var run := Observed(states);
    FreshRun(states[0]);
    forall h | 0 <= h < |run| - 1
      ensures run[h] == run[h + 1] || Channel.Step(run[h], run[h + 1])
    {
      RunKeepsInv(states, actions, h);
      RefinesChannel(states[h], actions[h], states[h + 1]);
    }
    Channel.DeliversInOrder(run, i);
    assert run[i] == Abstract(states[i]);
  }

  lemma FreshRun(s: State)
    requires Init(s)
    ensures Abstract(s) == Channel.EMPTY
  {}

  /** Both semaphores stay binary, the two sections exclude each other, and a shutdown loses nothing. */
  lemma RunIsSafe(states: seq<State>, actions: seq<Action>, i: nat)
    requires IsRun(states, actions) && i < |states|
    ensures states[i].sem0 <= 1 && states[i].sem1 <= 1
    ensures !(ClientInside(states[i]) && ServerInside(states[i]))
    ensures states[i].shutdown ==> states[i].printed == states[i].sent
  {
    hide Init, Step;
    RunKeepsInv(states, actions, i);
  }

  // Nothing but its `semop` holds a program back.

  /** The client waits for semaphore 1 to be zero, and it can only lower semaphore 0 when that is not. */
  predicate ClientCan(s: State) {
    && s.client != Left
    && (s.client == WaitZero1 ==> s.sem1 == 0)
    && (s.client == UnlockServer || s.client == UnlockLast ==> s.sem0 > 0)
  }

  predicate ServerCan(s: State) {
    && s.server != Exited
    && (s.server == WaitZero0 ==> s.sem0 == 0)
    && (s.server == UnlockClient ==> s.sem1 > 0)
  }

  /** The client's next statement, where `rand` returns `message`. */
  function ClientNext(s: State, message: int): State
    requires ClientCan(s)
  {
    match s.client
    case WaitZero1 => s.(client := Check)
    case Check => s.(client := if s.stop then SetShutdown else Write)
    case Write => s.(client := LockSelf, message := message, sent := s.sent + [message])
    case LockSelf => s.(client := UnlockServer, sem1 := s.sem1 + 1)
    case UnlockServer => s.(client := WaitZero1, sem0 := s.sem0 - 1)
    case SetShutdown => s.(client := UnlockLast, shutdown := true)
    case UnlockLast => s.(client := Left, sem0 := s.sem0 - 1)
  }

  function ServerNext(s: State): State
    requires ServerCan(s)
  {
    match s.server
    case WaitZero0 => s.(server := TestShutdown)
    case TestShutdown => s.(server := if s.shutdown then Exited else Print)
    case Print => s.(server := LockItself, printed := s.printed + [s.message])
    case LockItself => s.(server := UnlockClient, sem0 := s.sem0 + 1)
    case UnlockClient => s.(server := WaitZero0, sem1 := s.sem1 - 1)
  }

  lemma ClientTakesNext(s: State, message: int)
    requires ClientCan(s)
    ensures Step(s, ByClient, ClientNext(s, message))
  {}

  lemma ServerTakesNext(s: State)
    requires ServerCan(s)
    ensures Step(s, ByServer, ServerNext(s))
  {}

  lemma BlockedExactlyWhen(s: State)
    ensures (forall s' :: !Step(s, ByClient, s')) <==> !ClientCan(s)
    ensures (forall s' :: !Step(s, ByServer, s')) <==> !ServerCan(s)
  {
    if ClientCan(s) {
      ClientTakesNext(s, 0);
    }
    if ServerCan(s) {
      ServerTakesNext(s);
    }
  }

  /** Whatever `rand` returns is what is sent. */
  lemma AnythingCanBeWritten(s: State, message: int)
    requires s.client == Write
    ensures exists s' :: Step(s, ByClient, s') && s'.message == message && s'.sent == s.sent + [message]
  {
    ClientTakesNext(s, message);
  }

  /** As long as one of them runs, exactly one of them can move. */
  lemma ExactlyOneCanMove(s: State)
    requires Inv(s) && !(s.client == Left && s.server == Exited)
    ensures (exists s' :: Step(s, ByClient, s')) <==> !(exists s' :: Step(s, ByServer, s'))
  {
    BlockedExactlyWhen(s);
    OneTurn(s);
  }

  lemma OneTurn(s: State)
    requires Inv(s) && !(s.client == Left && s.server == Exited)
    ensures ClientCan(s) <==> !ServerCan(s)
  {}

  datatype Side = TheClient | TheServer

  /** The section that a step enters, if it enters one. */
  function Entered(s: State, a: Action): seq<Side> {
    if a == ByClient && s.client == WaitZero1 then [TheClient]
    else if a == ByServer && s.server == WaitZero0 then [TheServer]
    else []
  }

  /** The sections entered in the first `n` steps. */
  function Entries(states: seq<State>, actions: seq<Action>, n: nat): seq<Side>
    requires n <= |actions| < |states|
  {
    if n == 0 then [] else Entries(states, actions, n - 1) + Entered(states[n - 1], actions[n - 1])
  }

  /** The server was the last to enter its section, or nobody has been inside yet. */
  predicate ServerWasLast(s: State) {
    || ServerInside(s) || s.server == Exited
    || (s.client == WaitZero1 && s.server == WaitZero0 && s.sem1 == 0)
  }

  ghost predicate Alternate(entries: seq<Side>) {
    forall i :: 0 <= i < |entries| ==> entries[i] == if i % 2 == 0 then TheClient else TheServer
  }

  lemma EntryChangesTurn(s: State, a: Action, s': State)
    requires Inv(s) && Step(s, a, s')
    ensures
      if Entered(s, a) == [] then ServerWasLast(s') == ServerWasLast(s)
      else Entered(s, a) == [if ServerWasLast(s) then TheClient else TheServer] && ServerWasLast(s') != ServerWasLast(s)
  {
    hide FlowInv;
    match a
    case ByClient =>
      match s.client {
        case Check =>
        case _ =>
      }
    case ByServer =>
      match s.server {
        case TestShutdown =>
        case _ =>
      }
    case Signal =>
  }

  /** In every run the two enter their sections strictly in turns, the client first. */
  lemma {:induction false} SectionsAlternate(states: seq<State>, actions: seq<Action>, n: nat)
    requires IsRun(states, actions) && n <= |actions|
    ensures Alternate(Entries(states, actions, n))
    ensures ServerWasLast(states[n]) <==> |Entries(states, actions, n)| % 2 == 0
  {
    hide Init, Step, Inv, Entered, ServerWasLast, Alternate;
    if n == 0 {
      NobodyInsideAtFirst(states[0]);
      NoEntryAlternates();
    } else {
      SectionsAlternate(states, actions, n - 1);
      RunKeepsInv(states, actions, n - 1);
      EntryChangesTurn(states[n - 1], actions[n - 1], states[n - 1 + 1]);
      NextEntry(Entries(states, actions, n - 1), Entered(states[n - 1], actions[n - 1]));
    }
  }

  lemma NoEntryAlternates()
    ensures Alternate([])
  {}

  lemma NextEntry(entries: seq<Side>, entered: seq<Side>)
    requires Alternate(entries)
    requires entered == [] || entered == [if |entries| % 2 == 0 then TheClient else TheServer]
    ensures Alternate(entries + entered)
  {}

  lemma NobodyInsideAtFirst(s: State)
    requires Init(s)
    ensures ServerWasLast(s)
  {}

  /** How many steps the two programs have left once the client is to stop. */
  function StepsLeft(s: State): nat {
    match s.client
    case Check => 5
    case SetShutdown => 4
    case UnlockLast => 3
    case Left => (match s.server case WaitZero0 => 2 case TestShutdown => 1 case _ => 0)
    case Write => 14
    case LockSelf => 13
    case UnlockServer => 12
    case WaitZero1 =>
      match s.server
      case WaitZero0 => if s.sem1 == 0 then 6 else 11
      case TestShutdown => 10
      case Print => 9
      case LockItself => 8
      case UnlockClient => 7
      case Exited => 0
  }

  /** Once the client's `stop` is set every step brings the end nearer. */
  lemma StopLeadsToExit(s: State, a: Action, s': State)
    requires Inv(s) && s.stop && Step(s, a, s')
    ensures s'.stop && if a == Signal then StepsLeft(s') == StepsLeft(s) else StepsLeft(s') < StepsLeft(s)
  {
    match a
    case ByClient =>
      match s.client {
        case Check =>
        case _ =>
      }
    case ByServer =>
      match s.server {
        case TestShutdown =>
        case _ =>
      }
    case Signal =>
  }

  lemma {:induction false} StoppedRunIsShort(states: seq<State>, actions: seq<Action>, i: nat, j: nat)
    requires IsRun(states, actions) && i <= j < |states| && states[i].stop
    ensures states[j].stop && ProgramSteps(actions[i..j]) <= StepsLeft(states[i]) - StepsLeft(states[j])
    decreases j - i
  {
    hide Init, Step, Inv, StepsLeft;
    if i < j {
      RunKeepsInv(states, actions, i);
      assert Step(states[i], actions[i], states[i + 1]);
      StopLeadsToExit(states[i], actions[i], states[i + 1]);
      StoppedRunIsShort(states, actions, i + 1, j);
      assert actions[i..j][1..] == actions[i + 1..j];
    } else {
      assert actions[i..j] == [];
    }
  }

  function ProgramSteps(actions: seq<Action>): nat {
    if actions == [] then 0 else (if actions[0] == Signal then 0 else 1) + ProgramSteps(actions[1..])
  }

  /** A signal to the client, at whatever moment, leaves at most fourteen statements to both programs together. */
  lemma SignalEndsRun(states: seq<State>, actions: seq<Action>, i: nat, j: nat)
    requires IsRun(states, actions) && i < j < |states| && actions[i] == Signal
    ensures ProgramSteps(actions[i..j]) <= 14
  {
    hide Init, Inv, StepsLeft;
    assert Step(states[i], actions[i], states[i + 1]);
    StoppedRunIsShort(states, actions, i + 1, j);
    assert actions[i..j][1..] == actions[i + 1..j];
    FourteenAtMost(states[i + 1]);
  }

  lemma FourteenAtMost(s: State)
    ensures StepsLeft(s) <= 14
  {}

  // Runs that happen.

  ghost predicate StandsAt(states: seq<State>, actions: seq<Action>, s: State) {
    IsRun(states, actions) && states[|actions|] == s
  }

  lemma Goes(states: seq<State>, actions: seq<Action>, s: State, a: Action, s': State)
    returns (states': seq<State>, actions': seq<Action>)
    requires StandsAt(states, actions, s) && Step(s, a, s')
    ensures StandsAt(states', actions', s')
  {
    hide Init, Step;
    states', actions' := states + [s'], actions + [a];
    forall i | 0 <= i < |actions'|
      ensures Step(states'[i], actions'[i], states'[i + 1])
    {
      if i < |actions| {
        assert Step(states[i], actions[i], states[i + 1]);
      }
    }
  }

  lemma ClientGoes(states: seq<State>, actions: seq<Action>, s: State, message: int)
    returns (states': seq<State>, actions': seq<Action>)
    requires StandsAt(states, actions, s) && ClientCan(s)
    ensures StandsAt(states', actions', ClientNext(s, message))
  {
    hide Step, StandsAt;
    ClientTakesNext(s, message);
    states', actions' := Goes(states, actions, s, ByClient, ClientNext(s, message));
  }

  lemma ServerGoes(states: seq<State>, actions: seq<Action>, s: State)
    returns (states': seq<State>, actions': seq<Action>)
    requires StandsAt(states, actions, s) && ServerCan(s)
    ensures StandsAt(states', actions', ServerNext(s))
  {
    hide Step, StandsAt;
    ServerTakesNext(s);
    states', actions' := Goes(states, actions, s, ByServer, ServerNext(s));
  }

  /** Both wait, it is the client's turn, and all messages are printed. */
  function Idle(messages: seq<int>): State {
    State(1, 0, false, if messages == [] then 0 else messages[|messages| - 1], WaitZero1, WaitZero0, false, messages, messages)
  }

  function Unlocked(messages: seq<int>, message: int): State {
    State(0, 1, false, message, WaitZero1, WaitZero0, false, messages + [message], messages)
  }

  lemma CanSend(states: seq<State>, actions: seq<Action>, messages: seq<int>, message: int)
    returns (states': seq<State>, actions': seq<Action>)
    requires StandsAt(states, actions, Idle(messages))
    ensures StandsAt(states', actions', Unlocked(messages, message))
  {
    hide Step, StandsAt;
    var s := Idle(messages);
    states', actions' := ClientGoes(states, actions, s, message);
    s := ClientNext(s, message);
    states', actions' := ClientGoes(states', actions', s, message);
    s := ClientNext(s, message);
    states', actions' := ClientGoes(states', actions', s, message);
    s := ClientNext(s, message);
    states', actions' := ClientGoes(states', actions', s, message);
    s := ClientNext(s, message);
    states', actions' := ClientGoes(states', actions', s, message);
    assert ClientNext(s, message) == Unlocked(messages, message);
  }

  lemma CanPrint(states: seq<State>, actions: seq<Action>, messages: seq<int>, message: int)
    returns (states': seq<State>, actions': seq<Action>)
    requires StandsAt(states, actions, Unlocked(messages, message))
    ensures StandsAt(states', actions', Idle(messages + [message]))
  {
    hide Step, StandsAt;
    var s := Unlocked(messages, message);
    states', actions' := ServerGoes(states, actions, s);
    s := ServerNext(s);
    states', actions' := ServerGoes(states', actions', s);
    s := ServerNext(s);
    states', actions' := ServerGoes(states', actions', s);
    s := ServerNext(s);
    states', actions' := ServerGoes(states', actions', s);
    s := ServerNext(s);
    states', actions' := ServerGoes(states', actions', s);
    assert ServerNext(s) == Idle(messages + [message]);
  }

  lemma {:induction false} AnythingCanBeDelivered(messages: seq<int>) returns (states: seq<State>, actions: seq<Action>)
    ensures StandsAt(states, actions, Idle(messages))
  {
    hide Step;
    if messages == [] {
      states, actions := [Idle([])], [];
    } else {
      var n := |messages| - 1;
      states, actions := AnythingCanBeDelivered(messages[..n]);
      states, actions := CanSend(states, actions, messages[..n], messages[n]);
      states, actions := CanPrint(states, actions, messages[..n], messages[n]);
      assert messages == messages[..n] + [messages[n]];
    }
  }

  /** Any messages at all can be sent, and after a signal both programs exit with all of them printed. */
  lemma AnyRunCanEnd(messages: seq<int>) returns (states: seq<State>, actions: seq<Action>)
    ensures IsRun(states, actions)
    ensures
      var s := states[|actions|];
      s.client == Left && s.server == Exited && s.shutdown && s.sent == s.printed == messages
  {
    hide IsRun;
    states, actions := AnythingCanBeDelivered(messages);
    var s := Idle(messages);
    states, actions := Goes(states, actions, s, Signal, s.(stop := true));
    s := s.(stop := true);
    hide Step, StandsAt;
    states, actions := ClientGoes(states, actions, s, 0);
    s := ClientNext(s, 0);
    states, actions := ClientGoes(states, actions, s, 0);
    s := ClientNext(s, 0);
    states, actions := ClientGoes(states, actions, s, 0);
    s := ClientNext(s, 0);
    states, actions := ClientGoes(states, actions, s, 0);
    s := ClientNext(s, 0);
    states, actions := ServerGoes(states, actions, s);
    s := ServerNext(s);
    states, actions := ServerGoes(states, actions, s);
    Stands(states, actions, ServerNext(s));
  }

  lemma Stands(states: seq<State>, actions: seq<Action>, s: State)
    requires StandsAt(states, actions, s)
    ensures IsRun(states, actions) && states[|actions|] == s
  {}
}
