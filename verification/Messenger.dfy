/** ihw5: two copies of one program elect a leader over two FIFOs and then take turns. */
module Messenger {

  datatype Position =
    | WritePid
    | ReadPid
    | Looping(isWriter: bool)

  /** `wrote` and `read` are everything that went through this process's two FIFOs, PIDs included. */
  datatype Process = Process(pid: int, position: Position, other: int, wrote: seq<int>, read: seq<int>)

  /** `ab` and `ba` are the contents of the FIFOs; `turns` records who wrote each message. */
  datatype State = State(a: Process, b: Process, ab: seq<int>, ba: seq<int>, turns: seq<Side>)

  datatype Side = A | B

  function Other(side: Side): Side {
    if side == A then B else A
  }

  function ProcessOf(s: State, side: Side): Process {
    if side == A then s.a else s.b
  }

  /** The FIFO that `side` writes to. */
  function Outgoing(s: State, side: Side): seq<int> {
    if side == A then s.ab else s.ba
  }

  function With(s: State, side: Side, p: Process, outgoing: seq<int>, incoming: seq<int>, turns: seq<Side>): State {
    if side == A then State(p, s.b, outgoing, incoming, turns) else State(s.a, p, incoming, outgoing, turns)
  }

  /** Both programs have both FIFOs open. */
  ghost predicate Init(s: State) {
    && s.a == Process(s.a.pid, WritePid, s.a.other, [], [])
    && s.b == Process(s.b.pid, WritePid, s.b.other, [], [])
    && s.a.pid != s.b.pid
    && s.ab == [] && s.ba == [] && s.turns == []
  }

  /** One `write` or blocking `read` of `side`, and what follows it up to the next one. */
  ghost predicate Step(s: State, side: Side, s': State) {
    var p := ProcessOf(s, side);
    var outgoing, incoming := Outgoing(s, side), Outgoing(s, Other(side));
    match p.position
    case WritePid =>
      s' == With(s, side, p.(position := ReadPid, wrote := p.wrote + [p.pid]), outgoing + [p.pid], incoming, s.turns)
    case ReadPid =>
      && incoming != []
      && s' == With(s, side,
                    p.(position := Looping(p.pid > incoming[0]), other := incoming[0], read := p.read + [incoming[0]]),
                    outgoing, incoming[1..], s.turns)
    case Looping(true) =>
      exists message ::
        s' == With(s, side, p.(position := Looping(false), wrote := p.wrote + [message]),
                   outgoing + [message], incoming, s.turns + [side])
    case Looping(false) =>
      && incoming != []
      && s' == With(s, side, p.(position := Looping(true), read := p.read + [incoming[0]]),
                    outgoing, incoming[1..], s.turns)
  }

  predicate Writes(position: Position) {
    position == WritePid || position == Looping(true)
  }

  /** How far a process is, told by what it wrote and read: the leader is ahead by its own write. */
  ghost predicate PaceInv(p: Process, leads: bool) {
    match p.position
    case WritePid => |p.wrote| == 0 && |p.read| == 0
    case ReadPid => |p.wrote| == 1 && |p.read| == 0
    case Looping(isWriter) =>
      && |p.wrote| >= 1 && |p.read| >= 1
      && (if leads then |p.wrote| == |p.read| + (if isWriter then 0 else 1)
          else |p.wrote| == |p.read| - (if isWriter then 1 else 0))
  }

  /** What `p` wrote is what `peer` read and what is still under way, and it begins with the PID of `p`. */
  ghost predicate LinkInv(p: Process, peer: Process, outgoing: seq<int>) {
    && p.wrote == peer.read + outgoing
    && (p.wrote != [] ==> p.wrote[0] == p.pid)
  }

  ghost predicate SideInv(s: State, side: Side) {
    var p, peer := ProcessOf(s, side), ProcessOf(s, Other(side));
    && PaceInv(p, p.pid > peer.pid)
    && LinkInv(p, peer, Outgoing(s, side))
    && (p.position.Looping? ==> p.other == peer.pid)
  }

  lemma LinkAfterWrite(p: Process, peer: Process, outgoing: seq<int>, p': Process, x: int)
    requires LinkInv(p, peer, outgoing) && p'.wrote == p.wrote + [x] && p'.pid == p.pid
    requires p.wrote == [] ==> x == p.pid
    ensures LinkInv(p', peer, outgoing + [x])
  {
    assert p'.wrote == peer.read + (outgoing + [x]);
  }

  lemma LinkAfterRead(p: Process, peer: Process, outgoing: seq<int>, peer': Process)
    requires LinkInv(p, peer, outgoing) && outgoing != [] && peer'.read == peer.read + [outgoing[0]]
    ensures LinkInv(p, peer', outgoing[1..])
    ensures peer.read == [] ==> outgoing[0] == p.pid
  {
    assert p.wrote == peer'.read + outgoing[1..];
  }

  function Leader(s: State): Side {
    if s.a.pid > s.b.pid then A else B
  }

  /** The messages a process wrote after its PID. */
  function Messages(p: Process): nat {
    if p.wrote == [] then 0 else |p.wrote| - 1
  }

  ghost predicate Alternate(turns: seq<Side>, leader: Side) {
    forall i :: 0 <= i < |turns| ==> turns[i] == if i % 2 == 0 then leader else Other(leader)
  }

  ghost predicate TurnsInv(s: State) {
    |s.turns| == Messages(s.a) + Messages(s.b) && Alternate(s.turns, Leader(s))
  }

  ghost predicate Inv(s: State) {
    s.a.pid != s.b.pid && SideInv(s, A) && SideInv(s, B) && TurnsInv(s)
  }

  lemma InitInv(s: State)
    requires Init(s)
    ensures Inv(s)
  {}

  /** The counts alone fix who may be where: the FIFOs are short, and turns are whole. */
  lemma Counts(s: State, leader: Side)
    requires Inv(s) && ProcessOf(s, leader).pid > ProcessOf(s, Other(leader)).pid
    ensures
      var l, f := ProcessOf(s, leader), ProcessOf(s, Other(leader));
      && |l.wrote| - |f.read| == |Outgoing(s, leader)| <= 2
      && |f.wrote| - |l.read| == |Outgoing(s, Other(leader))| <= 1
      && (l.position == Looping(true) ==> |f.wrote| == |l.wrote| && |f.read| <= |l.wrote|)
      && (f.position == Looping(true) ==> |l.wrote| == |f.wrote| + 1)
  {
    hide TurnsInv;
    assert SideInv(s, leader) && SideInv(s, Other(leader));
  }

  lemma PartsOfWith(s: State, side: Side, p: Process, outgoing: seq<int>, incoming: seq<int>, turns: seq<Side>)
    ensures
      var s' := With(s, side, p, outgoing, incoming, turns);
      && ProcessOf(s', side) == p && ProcessOf(s', Other(side)) == ProcessOf(s, Other(side))
      && Outgoing(s', side) == outgoing && Outgoing(s', Other(side)) == incoming && s'.turns == turns
    ensures Other(Other(side)) == side
  {}

  lemma WriteKeepsSides(s: State, side: Side, s': State)
    requires SideInv(s, side) && SideInv(s, Other(side)) && Step(s, side, s') && Writes(ProcessOf(s, side).position)
    ensures SideInv(s', side) && SideInv(s', Other(side))
  {
    hide LinkInv, With, ProcessOf, Outgoing, Other;
    var p, peer := ProcessOf(s, side), ProcessOf(s, Other(side));
    var outgoing, incoming := Outgoing(s, side), Outgoing(s, Other(side));
    PartsOfWith(s, side, p, outgoing, incoming, s.turns);
    var x, p', turns;
    if p.position == WritePid {
      x, turns := p.pid, s.turns;
      p' := p.(position := ReadPid, wrote := p.wrote + [x]);
    } else {
      x :| s' == With(s, side, p.(position := Looping(false), wrote := p.wrote + [x]),
                      outgoing + [x], incoming, s.turns + [side]);
      p', turns := p.(position := Looping(false), wrote := p.wrote + [x]), s.turns + [side];
    }
    PartsOfWith(s, side, p', outgoing + [x], incoming, turns);
    LinkAfterWrite(p, peer, outgoing, p', x);
    SameRead(peer, p, incoming, p');
  }

  lemma SameRead(p: Process, peer: Process, outgoing: seq<int>, peer': Process)
    requires LinkInv(p, peer, outgoing) && peer'.read == peer.read
    ensures LinkInv(p, peer', outgoing)
  {}

  /** Whoever is about to write a message, it is its turn. */
  lemma TurnOfWriter(s: State, side: Side)
    requires Inv(s) && ProcessOf(s, side).position == Looping(true)
    ensures |s.turns| % 2 == if side == Leader(s) then 0 else 1
  {
    Counts(s, Leader(s));
    assert SideInv(s, A) && SideInv(s, B);
  }

  lemma WriteIsCounted(s: State, side: Side, s': State)
    requires SideInv(s, side) && Step(s, side, s') && Writes(ProcessOf(s, side).position)
    ensures Leader(s') == Leader(s)
    ensures
      if ProcessOf(s, side).position == WritePid then
        s'.turns == s.turns && Messages(s'.a) + Messages(s'.b) == Messages(s.a) + Messages(s.b)
      else
        s'.turns == s.turns + [side] && Messages(s'.a) + Messages(s'.b) == Messages(s.a) + Messages(s.b) + 1
  {
    hide LinkInv;
    if side == A {
    } else {
    }
  }

  lemma WriteKeepsTurns(s: State, side: Side, s': State)
    requires Inv(s) && Step(s, side, s') && Writes(ProcessOf(s, side).position)
    ensures TurnsInv(s')
  {
    hide SideInv, Step, Messages, Leader;
    assert SideInv(s, A) && SideInv(s, B);
    WriteIsCounted(s, side, s');
    if ProcessOf(s, side).position == Looping(true) {
      TurnOfWriter(s, side);
    }
  }

  lemma BothSides(s: State, side: Side)
    ensures SideInv(s, side) && SideInv(s, Other(side)) <==> SideInv(s, A) && SideInv(s, B)
  {}

  lemma WriteKeepsInv(s: State, side: Side, s': State)
    requires Inv(s) && Step(s, side, s') && Writes(ProcessOf(s, side).position)
    ensures Inv(s')
  {
    hide TurnsInv, SideInv;
    assert SideInv(s, A) && SideInv(s, B);
    BothSides(s, side);
    WriteKeepsSides(s, side, s');
    BothSides(s', side);
    WriteKeepsTurns(s, side, s');
  }

  lemma ReadKeepsSides(s: State, side: Side, s': State)
    requires SideInv(s, A) && SideInv(s, B) && Step(s, side, s') && !Writes(ProcessOf(s, side).position)
    ensures SideInv(s', A) && SideInv(s', B)
  {
    hide LinkInv;
    if side == A {
      LinkAfterRead(s.b, s.a, s.ba, s'.a);
      assert LinkInv(s'.a, s'.b, s'.ab) by { SameWritten(s.a, s.b, s.ab, s'.a); }
    } else {
      LinkAfterRead(s.a, s.b, s.ab, s'.b);
      assert LinkInv(s'.b, s'.a, s'.ba) by { SameWritten(s.b, s.a, s.ba, s'.b); }
    }
  }

  lemma SameWritten(p: Process, peer: Process, outgoing: seq<int>, p': Process)
    requires LinkInv(p, peer, outgoing) && p'.wrote == p.wrote && p'.pid == p.pid
    ensures LinkInv(p', peer, outgoing)
  {}

  lemma ReadKeepsInv(s: State, side: Side, s': State)
    requires Inv(s) && Step(s, side, s') && !Writes(ProcessOf(s, side).position)
    ensures Inv(s')
  {
    hide SideInv;
    assert SideInv(s, A) && SideInv(s, B);
    ReadKeepsSides(s, side, s');
  }

  lemma StepKeepsInv(s: State, side: Side, s': State)
    requires Inv(s) && Step(s, side, s')
    ensures Inv(s')
  {
    hide Step, Inv;
    if Writes(ProcessOf(s, side).position) {
      WriteKeepsInv(s, side, s');
    } else {
      ReadKeepsInv(s, side, s');
    }
  }

  ghost predicate IsRun(states: seq<State>, steps: seq<Side>) {
    && |states| == |steps| + 1 && Init(states[0])
    && forall i :: 0 <= i < |steps| ==> Step(states[i], steps[i], states[i + 1])
  }

  lemma {:induction false} RunKeepsInv(states: seq<State>, steps: seq<Side>, i: nat)
    requires IsRun(states, steps) && i < |states|
    ensures Inv(states[i])
  {
    hide Init, Step, Inv;
    if i == 0 {
      InitInv(states[0]);
    } else {
      RunKeepsInv(states, steps, i - 1);
      StepKeepsInv(states[i - 1], steps[i - 1], states[i]);
    }
  }

  /** Nothing is lost or reordered, and the FIFOs never hold more than two items. */
  lemma FifosAreFaithful(states: seq<State>, steps: seq<Side>, i: nat)
    requires IsRun(states, steps) && i < |states|
    ensures states[i].b.read <= states[i].a.wrote && states[i].a.read <= states[i].b.wrote
    ensures |states[i].ab| <= 2 && |states[i].ba| <= 2
  {
    hide Init, Step;
    RunKeepsInv(states, steps, i);
    Counts(states[i], Leader(states[i]));
  }

  /** The process with the larger PID, and only it, writes first; both know each other's PID by then. */
  lemma OneLeader(states: seq<State>, steps: seq<Side>, i: nat)
    requires IsRun(states, steps) && i < |states|
    ensures forall side :: ProcessOf(states[i], side).position.Looping? ==>
              && ProcessOf(states[i], side).other == ProcessOf(states[i], Other(side)).pid
              && ProcessOf(states[i], side).read != []
              && ProcessOf(states[i], side).read[0] == ProcessOf(states[i], Other(side)).pid
    ensures states[i].turns != [] ==>
              ProcessOf(states[i], states[i].turns[0]).pid > ProcessOf(states[i], Other(states[i].turns[0])).pid
  {
    hide Init, Step;
    RunKeepsInv(states, steps, i);
    var s := states[i];
    forall side | ProcessOf(s, side).position.Looping?
      ensures ProcessOf(s, side).other == ProcessOf(s, Other(side)).pid
      ensures ProcessOf(s, side).read != [] && ProcessOf(s, side).read[0] == ProcessOf(s, Other(side)).pid
    {
      assert SideInv(s, side) && SideInv(s, Other(side));
      var p, peer := ProcessOf(s, side), ProcessOf(s, Other(side));
      assert peer.wrote[0] == p.read[0];
    }
  }

  /** From then on the two write in turns. */
  lemma WritesAlternate(states: seq<State>, steps: seq<Side>, i: nat)
    requires IsRun(states, steps) && i < |states|
    ensures forall j :: 0 <= j < |states[i].turns| - 1 ==> states[i].turns[j + 1] == Other(states[i].turns[j])
  {
    hide Init, Step;
    RunKeepsInv(states, steps, i);
  }

  /** Somebody can always go on: the two are never both waiting on empty FIFOs. */
  lemma NeverStuck(s: State) returns (side: Side, s': State)
    requires Inv(s)
    ensures Step(s, side, s')
  {
    var leader := Leader(s);
    Counts(s, leader);
    var l := ProcessOf(s, leader);
    side := if !Writes(l.position) && Outgoing(s, Other(leader)) == [] then Other(leader)
            else leader;
    var p := ProcessOf(s, side);
    var outgoing, incoming := Outgoing(s, side), Outgoing(s, Other(side));
    assert SideInv(s, A) && SideInv(s, B);
    match p.position
    case WritePid =>
      s' := With(s, side, p.(position := ReadPid, wrote := p.wrote + [p.pid]), outgoing + [p.pid], incoming, s.turns);
    case ReadPid =>
      s' := With(s, side,
                 p.(position := Looping(p.pid > incoming[0]), other := incoming[0], read := p.read + [incoming[0]]),
                 outgoing, incoming[1..], s.turns);
    case Looping(isWriter) =>
      if isWriter {
        s' := With(s, side, p.(position := Looping(false), wrote := p.wrote + [0]),
                   outgoing + [0], incoming, s.turns + [side]);
      } else {
        s' := With(s, side, p.(position := Looping(true), read := p.read + [incoming[0]]),
                   outgoing, incoming[1..], s.turns);
      }
  }

  // Nothing but an empty FIFO holds a process back.

  lemma ReaderIsBlockedExactlyWhen(s: State, side: Side)
    requires !Writes(ProcessOf(s, side).position)
    ensures (forall s' :: !Step(s, side, s')) <==> Outgoing(s, Other(side)) == []
  {
    var p := ProcessOf(s, side);
    var outgoing, incoming := Outgoing(s, side), Outgoing(s, Other(side));
    if incoming != [] {
      var next := if p.position == ReadPid
        then p.(position := Looping(p.pid > incoming[0]), other := incoming[0], read := p.read + [incoming[0]])
        else p.(position := Looping(true), read := p.read + [incoming[0]]);
      assert Step(s, side, With(s, side, next, outgoing, incoming[1..], s.turns));
    }
  }

  /** A writer is never held back, and may write any message at all. */
  lemma WriterCanWrite(s: State, side: Side, message: int) returns (s': State)
    requires Writes(ProcessOf(s, side).position)
    ensures Step(s, side, s')
    ensures
      var p := ProcessOf(s, side);
      Outgoing(s', side) == Outgoing(s, side) + [if p.position == WritePid then p.pid else message]
  {
    hide ProcessOf, Outgoing, Other, With;
    var p := ProcessOf(s, side);
    var outgoing, incoming := Outgoing(s, side), Outgoing(s, Other(side));
    if p.position == WritePid {
      var next := p.(position := ReadPid, wrote := p.wrote + [p.pid]);
      PartsOfWith(s, side, next, outgoing + [p.pid], incoming, s.turns);
      s' := With(s, side, next, outgoing + [p.pid], incoming, s.turns);
    } else {
      var next := p.(position := Looping(false), wrote := p.wrote + [message]);
      PartsOfWith(s, side, next, outgoing + [message], incoming, s.turns + [side]);
      s' := With(s, side, next, outgoing + [message], incoming, s.turns + [side]);
    }
  }

  /** Any two processes with different PIDs can start. */
  lemma AnyPidsCanStart(pidA: int, pidB: int) returns (s: State)
    requires pidA != pidB
    ensures Init(s) && s.a.pid == pidA && s.b.pid == pidB
  {
    s := State(Process(pidA, WritePid, 0, [], []), Process(pidB, WritePid, 0, [], []), [], [], []);
  }

  /** No run is the last: somebody takes a further step. */
  lemma EveryRunGoesOn(states: seq<State>, steps: seq<Side>) returns (side: Side, s: State)
    requires IsRun(states, steps)
    ensures IsRun(states + [s], steps + [side])
  {
    hide Init, Step, Inv;
    RunKeepsInv(states, steps, |steps|);
    side, s := NeverStuck(states[|steps|]);
    var more, all := states + [s], steps + [side];
    forall i | 0 <= i < |all|
      ensures Step(more[i], all[i], more[i + 1])
    {
      if i < |steps| {
        assert Step(states[i], steps[i], states[i + 1]);
      }
    }
  }
}
