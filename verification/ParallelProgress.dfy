/** Every schedule of the parallel phase comes to its end. */
module ParallelProgress {
  import opened CStrings
  import opened Sorting
  import opened Catalogue
  import opened Cursors
  import opened Merge
  import opened Workers
  import opened ParallelPhase

  /** Statements left after opening the files of `shelves` shelves. */
  function ShelvesLeft(l: Layout, shelves: nat): nat {
    shelves * (l.k + 3)
  }

  /** A bound on the statements a worker still has before it. */
  function WorkerLeft(l: Layout, worker: Worker): int {
    match worker
    case NotForked => ShelvesLeft(l, l.n) + 3
    case Opening(shelf) => (if shelf <= l.n then ShelvesLeft(l, l.n - shelf) else 0) + 3
    case Reading(shelf, book) => (if shelf < l.n then ShelvesLeft(l, l.n - shelf - 1) else 0) + (l.k - book) + 5
    case SortingShelf(shelf) => (if shelf < l.n then ShelvesLeft(l, l.n - shelf - 1) else 0) + 4
    case Failing => 2
    case Posting => 1
    case Gone => 0
  }

  function ParentLeft(l: Layout, parent: Parent): int {
    match parent
    case Forking(r) => (l.m - r) + 2 * l.m + 3
    case Waiting(r) => 2 * (l.m - r) + 2
    case Checking(r) => 2 * (l.m - r) + 1
    case Merging => 1
    case Returned(_, _) => 0
  }

  function RowsLeft(l: Layout, rows: seq<Row>): int {
    if rows == [] then 0 else WorkerLeft(l, rows[0].worker) + RowsLeft(l, rows[1..])
  }

  function StepsLeft(l: Layout, s: State): int {
    ParentLeft(l, s.parent) + RowsLeft(l, s.rows)
  }

  lemma {:induction false} RowsLeftAfter(l: Layout, rows: seq<Row>, r: nat, row: Row)
    requires r < |rows|
    ensures RowsLeft(l, rows[r := row])
         == RowsLeft(l, rows) - WorkerLeft(l, rows[r].worker) + WorkerLeft(l, row.worker)
    decreases |rows|
  {
    hide WorkerLeft;
    if r == 0 {
      assert rows[r := row][1..] == rows[1..];
    } else {
      RowsLeftAfter(l, rows[1..], r - 1, row);
      assert rows[r := row][1..] == rows[1..][r - 1 := row];
    }
  }

  lemma OneShelfLess(l: Layout, shelves: nat)
    requires shelves > 0
    ensures ShelvesLeft(l, shelves) == ShelvesLeft(l, shelves - 1) + l.k + 3
  {}

  lemma WorkerStepDecreases(files: Files, l: Layout, r: nat, row: Row, row': Row)
    requires |row.books| == l.n * l.k && WorkerInv(files, l, r, row) && WorkerMoves(files, l, r, row, row')
    ensures WorkerLeft(l, row'.worker) < WorkerLeft(l, row.worker)
  {
    hide ShelvesDone, ChangedOnly, SortOf, Slice, ShelvesLeft, Decided, RowReadable;
    match row.worker
    case Opening(shelf) =>
      if shelf < l.n {
        OneShelfLess(l, l.n - shelf);
      }
    case _ =>
  }

  lemma NonNegative(files: Files, l: Layout, s: State)
    requires Inv(files, l, s)
    ensures StepsLeft(l, s) >= 0
  {
    hide WorkerInv;
    forall r | 0 <= r < |s.rows|
      ensures WorkerLeft(l, s.rows[r].worker) >= 0
    {
      assert RowInv(files, l, s, r);
      WorkerLeftIsNonNegative(files, l, r, s.rows[r]);
    }
    RowsLeftIsNonNegative(l, s.rows);
  }

  lemma WorkerLeftIsNonNegative(files: Files, l: Layout, r: nat, row: Row)
    requires |row.books| == l.n * l.k && WorkerInv(files, l, r, row)
    ensures WorkerLeft(l, row.worker) >= 0
  {
    hide ShelvesDone, Slice, Decided, RowReadable;
  }

  lemma {:induction false} RowsLeftIsNonNegative(l: Layout, rows: seq<Row>)
    requires forall r :: 0 <= r < |rows| ==> WorkerLeft(l, rows[r].worker) >= 0
    ensures RowsLeft(l, rows) >= 0
  {
    if rows != [] {
      RowsLeftIsNonNegative(l, rows[1..]);
    }
  }

  /** Every step, whoever takes it, brings the end nearer. */
  lemma StepDecreases(files: Files, l: Layout, s: State, a: Action, s': State)
    requires Inv(files, l, s) && Step(files, l, s, a, s')
    ensures StepsLeft(l, s') < StepsLeft(l, s)
  {
    hide WorkerMoves, WorkerInv, IsCatalogue, WorkerLeft, ResultInv;
    match a
    case ByWorker(r) =>
      assert RowInv(files, l, s, r);
      WorkerStepDecreases(files, l, r, s.rows[r], s'.rows[r]);
      RowsLeftAfter(l, s.rows, r, s'.rows[r]);
    case ByParent =>
      match s.parent {
        case Forking(r) =>
          if r < l.m {
            assert RowInv(files, l, s, r);
            RowsLeftAfter(l, s.rows, r, s.rows[r].(worker := Opening(0)));
            ForkingCostsNothing(l);
          }
        case Waiting(r) =>
          if r < l.m {
            RowsLeftAfter(l, s.rows, r, s.rows[r].(sem := s.rows[r].sem - 1));
          }
        case _ =>
      }
  }

  lemma ForkingCostsNothing(l: Layout)
    ensures WorkerLeft(l, NotForked) == WorkerLeft(l, Opening(0))
  {}

  /** No run is longer than the steps its start has left. */
  lemma {:induction false} RunsAreBounded(files: Files, l: Layout, states: seq<State>, actions: seq<Action>, i: nat)
    requires IsRun(files, l, states, actions) && i < |states|
    ensures i <= StepsLeft(l, states[0]) - StepsLeft(l, states[i])
  {
    hide Init, Step, Inv, StepsLeft;
    if i > 0 {
      RunsAreBounded(files, l, states, actions, i - 1);
      RunKeepsInv(files, l, states, actions, i - 1);
      StepDecreases(files, l, states[i - 1], actions[i - 1], states[i]);
    }
  }

  lemma EveryRunEnds(files: Files, l: Layout, states: seq<State>, actions: seq<Action>)
    requires IsRun(files, l, states, actions)
    ensures |actions| <= StepsLeft(l, states[0])
  {
    hide Init, Step, Inv, StepsLeft;
    RunKeepsInv(files, l, states, actions, |actions|);
    NonNegative(files, l, states[|actions|]);
    RunsAreBounded(files, l, states, actions, |actions|);
  }

  /** A worker that was forked and has not exited can always move. */
  lemma WorkerCanMove(files: Files, l: Layout, r: nat, row: Row) returns (row': Row)
    requires |row.books| == l.n * l.k && WorkerInv(files, l, r, row)
    requires row.worker != NotForked && row.worker != Gone
    ensures WorkerMoves(files, l, r, row, row')
  {
    hide ShelvesDone, Decided, RowReadable, Readable;
    match row.worker
    case Opening(shelf) =>
      row' := row.(worker := if shelf >= l.n then Posting
                             else if (r, shelf) !in files then Failing
                             else Reading(shelf, 0));
    case Reading(shelf, book) =>
      if book >= l.k {
        row' := row.(worker := SortingShelf(shelf));
      } else if book >= |files[(r, shelf)]| {
        row' := row.(worker := Failing);
      } else {
        ShelfFits(l, shelf);
        row' := row.(worker := Reading(shelf, book + 1),
                     books := row.books[Place(l, shelf, book) := files[(r, shelf)][book]]);
      }
    case SortingShelf(shelf) =>
      var books := SortOneShelf(l, row.books, shelf);
      row' := row.(worker := Opening(shelf + 1), books := books);
    case Failing => row' := row.(worker := Posting, res := 1);
    case Posting => row' := row.(worker := Gone, sem := row.sem + 1);
  }

  lemma SortOneShelf(l: Layout, books: seq<Title>, shelf: nat) returns (books': seq<Title>)
    requires |books| == l.n * l.k && shelf < l.n
    ensures |books'| == |books| && ChangedOnly(l, books, books', shelf)
    ensures SortOf(StrLe, Slice(l, books, shelf), Slice(l, books', shelf))
  {
    hide StrLe, SortOf, SortedBy, ChangedOnly, Slice;
    TitlesAreOrdered();
    var sorted := Sorted(StrLe, Slice(l, books, shelf));
    SortedIsSorted(StrLe, Slice(l, books, shelf));
    assert |sorted| == |multiset(sorted)| == l.k;
    books' := ReplaceShelf(l, books, shelf, sorted);
  }

  lemma ReplaceShelf(l: Layout, books: seq<Title>, shelf: nat, slice: seq<Title>) returns (books': seq<Title>)
    requires |books| == l.n * l.k && shelf < l.n && |slice| == l.k
    ensures |books'| == |books| && ChangedOnly(l, books, books', shelf) && Slice(l, books', shelf) == slice
  {
    hide StrLe;
    ShelfFits(l, shelf);
    books' := ReplaceRange(books, shelf * l.k, slice);
  }

  lemma ReplaceRange<T>(s: seq<T>, first: nat, part: seq<T>) returns (s': seq<T>)
    requires first + |part| <= |s|
    ensures |s'| == |s| && s'[first..first + |part|] == part
    ensures forall i :: 0 <= i < |s| && !(first <= i < first + |part|) ==> s'[i] == s[i]
  {
    s' := s[..first] + part + s[first + |part|..];
  }

  // Nothing but the source's own waiting holds anybody back.

  /** A worker that was forked and has not exited can move, whatever the parent and the other workers do. */
  lemma WorkersRunFreely(files: Files, l: Layout, s: State, r: nat) returns (s': State)
    requires Inv(files, l, s) && r < l.m && s.rows[r].worker != NotForked && s.rows[r].worker != Gone
    ensures Step(files, l, s, ByWorker(r), s')
  {
    hide WorkerMoves, WorkerInv;
    assert RowInv(files, l, s, r);
    var row' := WorkerCanMove(files, l, r, s.rows[r]);
    s' := s.(rows := s.rows[r := row']);
  }

  /** `qsort` may leave any ordered rearrangement of the shelf. */
  lemma AnySortIsPossible(files: Files, l: Layout, s: State, r: nat, books': seq<Title>) returns (s': State)
    requires Inv(files, l, s) && r < l.m && s.rows[r].worker.SortingShelf?
    requires var shelf := s.rows[r].worker.shelf;
             && shelf < l.n && |s.rows[r].books| == |books'| == l.n * l.k
             && ChangedOnly(l, s.rows[r].books, books', shelf)
             && SortOf(StrLe, Slice(l, s.rows[r].books, shelf), Slice(l, books', shelf))
    ensures Step(files, l, s, ByWorker(r), s') && s'.rows[r].books == books'
  {
    hide SortOf, Slice, ChangedOnly, RowInv;
    s' := s.(rows := s.rows[r := s.rows[r].(worker := Opening(s.rows[r].worker.shelf + 1), books := books')]);
  }

  /** The parent waits for the post of the worker whose turn it is to be joined. */
  predicate ParentWaits(s: State) {
    s.parent.Waiting? && s.parent.row < |s.rows| && s.rows[s.parent.row].sem == 0
  }

  /** The parent is held back by that alone; it stops at the end, or where it cannot merge. */
  lemma ParentBlockedExactlyWhen(files: Files, l: Layout, s: State)
    requires Inv(files, l, s)
    ensures (forall s' :: !Step(files, l, s, ByParent, s')) <==>
              || ParentWaits(s) || s.parent.Returned?
              || (s.parent.Merging? && !MergeIsSound(l.m, l.n, l.k))
  {
    hide RowInv, IsCatalogue, MergeIsSound;
    if !(ParentWaits(s) || s.parent.Returned? || (s.parent.Merging? && !MergeIsSound(l.m, l.n, l.k))) {
      var s' := ParentCanMove(files, l, s);
    }
  }

  lemma ParentCanMove(files: Files, l: Layout, s: State) returns (s': State)
    requires Inv(files, l, s) && !ParentWaits(s) && !s.parent.Returned?
    requires s.parent.Merging? ==> MergeIsSound(l.m, l.n, l.k)
    ensures Step(files, l, s, ByParent, s')
  {
    hide RowInv, IsCatalogue, RowsDone, MergeIsSound, Shaped;
    match s.parent
    case Forking(r) =>
      s' := if r >= l.m then s.(parent := Waiting(0))
            else s.(parent := Forking(r + 1), rows := s.rows[r := s.rows[r].(worker := Opening(0))]);
    case Waiting(r) =>
      s' := if r >= l.m then s.(parent := Merging)
            else s.(parent := Checking(r), rows := s.rows[r := s.rows[r].(sem := s.rows[r].sem - 1)]);
    case Checking(r) =>
      s' := s.(parent := if s.rows[r].res != 0 then Returned(s.rows[r].res, []) else Waiting(r + 1));
    case Merging =>
      MergeStartsOnFinishedRows(files, l, s);
      DoneRowsAreSorted(files, l, Books(s));
      var out := CatalogueExists(l, Books(s));
      s' := s.(parent := Returned(0, out));
  }

  /** Until the parent has returned somebody can move, so no schedule deadlocks. */
  lemma NeverStuck(files: Files, l: Layout, s: State) returns (a: Action, s': State)
    requires Inv(files, l, s) && !s.parent.Returned?
    requires s.parent.Merging? ==> MergeIsSound(l.m, l.n, l.k)
    ensures Step(files, l, s, a, s')
  {
    hide Step, WorkerInv, MergeIsSound;
    if ParentWaits(s) {
      assert RowInv(files, l, s, s.parent.row);
      s' := WorkersRunFreely(files, l, s, s.parent.row);
      a := ByWorker(s.parent.row);
    } else {
      s' := ParentCanMove(files, l, s);
      a := ByParent;
    }
  }

  lemma RunGoesOn(files: Files, l: Layout, states: seq<State>, actions: seq<Action>, a: Action, s: State)
    requires IsRun(files, l, states, actions) && Step(files, l, states[|actions|], a, s)
    ensures IsRun(files, l, states + [s], actions + [a])
  {
    hide Init, Step;
    var more, acts := states + [s], actions + [a];
    forall i | 0 <= i < |acts|
      ensures Step(files, l, more[i], acts[i], more[i + 1])
    {
      if i < |actions| {
        assert Step(files, l, states[i], actions[i], states[i + 1]);
      }
    }
  }

  /** Every run so far, on whatever schedule, goes on to a completed one. */
  lemma {:induction false} EveryRunCanBeCompleted(files: Files, l: Layout, states: seq<State>, actions: seq<Action>)
    returns (states': seq<State>, actions': seq<Action>)
    requires IsRun(files, l, states, actions) && (AllReadable(files, l) ==> MergeIsSound(l.m, l.n, l.k))
    ensures IsRun(files, l, states', actions') && states <= states' && actions <= actions'
    ensures states'[|actions'|].parent.Returned?
    decreases StepsLeft(l, states[|states| - 1])
  {
    hide Init, Step, Inv, StepsLeft, AllReadable, MergeIsSound;
    var s := states[|actions|];
    RunKeepsInv(files, l, states, actions, |actions|);
    if s.parent.Returned? {
      states', actions' := states, actions;
    } else {
      if s.parent.Merging? {
        MergeStartsOnFinishedRows(files, l, s);
      }
      var a, next := NeverStuck(files, l, s);
      RunGoesOn(files, l, states, actions, a, next);
      StepDecreases(files, l, s, a, next);
      NonNegative(files, l, s);
      RunKeepsInv(files, l, states + [next], actions + [a], |actions| + 1);
      NonNegative(files, l, next);
      states', actions' := EveryRunCanBeCompleted(files, l, states + [next], actions + [a]);
    }
  }

  lemma AnyLayoutCanStart(l: Layout) returns (s: State)
    ensures Init(l, s)
  {
    var row := Row(NotForked, 0, 0, seq(l.n * l.k, _ => []));
    s := State(seq(l.m, _ => row), Forking(0));
  }

  /** What is printed for a shelf is what its file holds: the first `k` lines, with row and shelf of the file. */
  lemma PrintedTitlesAreTheLines(files: Files, l: Layout, states: seq<State>, actions: seq<Action>, i: nat,
                                 r: nat, shelf: nat)
    returns (titles: seq<Title>)
    requires IsRun(files, l, states, actions) && i < |states|
    requires states[i].parent.Returned? && states[i].parent.code == 0 && r < l.m && shelf < l.n
    ensures (r, shelf) in files && |files[(r, shelf)]| >= l.k
    ensures SortOf(StrLe, files[(r, shelf)][..l.k], titles) && |titles| == l.k
    ensures forall e :: e in states[i].parent.printed && e.row == r && e.shelf == shelf
                        <==> exists p :: 0 <= p < l.k && e == Entry(titles[p], r, shelf, p)
  {
    hide Init, Step, SortOf, AllReadable, Slice;
    CompletedRun(files, l, states, actions, i);
    var rows := Books(states[i]);
    titles := Slice(l, rows[r], shelf);
    assert ShelfDone(files, l, r, rows[r], shelf);
    forall p | 0 <= p < l.k
      ensures TitleAt(l, rows, r, shelf, p) == titles[p]
    {
      SliceAt(l, rows, r, shelf, p);
    }
    hide TitleAt, Ordered, ShelvesDone;
    ShelfEntries(l, rows, states[i].parent.printed, r, shelf, titles);
  }

  lemma ShelfEntries(l: Layout, rows: seq<seq<Title>>, out: seq<Entry>, r: nat, shelf: nat, titles: seq<Title>)
    requires Shaped(l, rows) && IsCatalogue(l, rows, out) && r < l.m && shelf < l.n && |titles| == l.k
    requires forall p :: 0 <= p < l.k ==> TitleAt(l, rows, r, shelf, p) == titles[p]
    ensures forall e :: e in out && e.row == r && e.shelf == shelf
                        <==> exists p :: 0 <= p < l.k && e == Entry(titles[p], r, shelf, p)
  {
    hide TitleAt, Ordered;
    forall e
      ensures e in out && e.row == r && e.shelf == shelf
              <==> exists p :: 0 <= p < l.k && e == Entry(titles[p], r, shelf, p)
    {
      if e in out && e.row == r && e.shelf == shelf {
        assert IsEntry(l, rows, e);
        assert e == Entry(titles[e.pos], r, shelf, e.pos);
      }
      if p :| 0 <= p < l.k && e == Entry(titles[p], r, shelf, p) {
        assert IsEntry(l, rows, e);
      }
    }
  }
}
