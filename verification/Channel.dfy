/** A one-slot channel that either end can close. Both semaphore handshakes are implementations of it. */
module Channel {
  import opened Options

  datatype Phase = Open | ClosedBySender | ClosedByReceiver

  datatype Channel = Channel(slot: Option<int>, sent: seq<int>, delivered: seq<int>, phase: Phase)

  const EMPTY := Channel(None, [], [], Open)

  ghost predicate Put(c: Channel, c': Channel) {
    && c.phase.Open? && c.slot.None? && c'.slot.Some?
    && c' == c.(slot := c'.slot, sent := c.sent + [c'.slot.value])
  }

  ghost predicate Take(c: Channel, c': Channel) {
    && c.phase.Open? && c.slot.Some?
    && c' == c.(slot := None, delivered := c.delivered + [c.slot.value])
  }

  /** The sender may close only an empty slot. */
  ghost predicate Close(c: Channel, c': Channel) {
    c.phase.Open? && c.slot.None? && c' == c.(phase := ClosedBySender)
  }

  /** The receiver closes in place of taking: what is in the slot is lost. */
  ghost predicate Discard(c: Channel, c': Channel) {
    c.phase.Open? && c.slot.Some? && c' == c.(slot := None, phase := ClosedByReceiver)
  }

  ghost predicate Step(c: Channel, c': Channel) {
    Put(c, c') || Take(c, c') || Close(c, c') || Discard(c, c')
  }

  /** A run of the channel, where nothing may happen for a while. */
  ghost predicate IsRun(run: seq<Channel>) {
    && run != [] && run[0] == EMPTY
    && forall i :: 0 <= i < |run| - 1 ==> run[i] == run[i + 1] || Step(run[i], run[i + 1])
  }

  /** What lies between the two ends. */
  ghost predicate Conserved(c: Channel) {
    match c.phase
    case Open => c.sent == c.delivered + (if c.slot.Some? then [c.slot.value] else [])
    case ClosedBySender => c.slot.None? && c.sent == c.delivered
    case ClosedByReceiver => c.slot.None? && |c.sent| == |c.delivered| + 1 && c.delivered == c.sent[..|c.delivered|]
  }

  lemma {:induction false} RunConserves(run: seq<Channel>, i: nat)
    requires IsRun(run) && i < |run|
    ensures Conserved(run[i])
  {
    if i > 0 {
      RunConserves(run, i - 1);
      assert run[i - 1] == run[i - 1 + 1] || Step(run[i - 1], run[i - 1 + 1]);
    }
  }

  /** What is delivered is a prefix of what was sent, at most one message behind. */
  lemma DeliversInOrder(run: seq<Channel>, i: nat)
    requires IsRun(run) && i < |run|
    ensures run[i].delivered <= run[i].sent && |run[i].sent| <= |run[i].delivered| + 1
    ensures run[i].phase.ClosedBySender? ==> run[i].delivered == run[i].sent
  {
    RunConserves(run, i);
  }
}
