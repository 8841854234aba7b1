/** The m workers and the parent of bhw2/4/main.c, interleaved step by step. */
module ParallelPhase {
  import opened CStrings
  import opened Sorting
  import opened Catalogue
  import opened Cursors
  import opened Workers

  /** What a worker does next. */
  datatype Worker =
    | NotForked
    | Opening(shelf: nat)
    | Reading(shelf: nat, book: nat)
    | SortingShelf(shelf: nat)
    | Failing
    | Posting
    | Gone

  /** The shared memory of one row, and its worker. */
  datatype Row = Row(worker: Worker, sem: nat, res: int, books: seq<Title>)

  datatype Parent =
    | Forking(row: nat)
    | Waiting(row: nat)
    | Checking(row: nat)
    | Merging
    | Returned(code: int, printed: seq<Entry>)

  datatype State = State(rows: seq<Row>, parent: Parent)

  function Books(s: State): (books: seq<seq<Title>>)
    ensures |books| == |s.rows|
  {
    seq(|s.rows|, r requires 0 <= r < |s.rows| => s.rows[r].books)
  }

  ghost predicate Init(l: Layout, s: State) {
    && |s.rows| == l.m && s.parent == Forking(0)
    && forall r :: 0 <= r < l.m ==>
         && s.rows[r].worker == NotForked && s.rows[r].sem == 0 && s.rows[r].res == 0
         && |s.rows[r].books| == l.n * l.k
  }

  function Place(l: Layout, shelf: nat, book: nat): nat {
    shelf * l.k + book
  }

  /** One statement of the worker of row `r`; only `qsort` leaves anything open. */
  ghost predicate WorkerMoves(files: Files, l: Layout, r: nat, row: Row, row': Row) {
    match row.worker
    case NotForked => false
    case Opening(shelf) =>
      if shelf >= l.n then row' == row.(worker := Posting)
      else if (r, shelf) !in files then row' == row.(worker := Failing)
      else row' == row.(worker := Reading(shelf, 0))
    case Reading(shelf, book) =>
      if book >= l.k then row' == row.(worker := SortingShelf(shelf))
      else if (r, shelf) !in files || book >= |files[(r, shelf)]| then row' == row.(worker := Failing)
      else
        && Place(l, shelf, book) < |row.books|
        && row' == row.(worker := Reading(shelf, book + 1),
                        books := row.books[Place(l, shelf, book) := files[(r, shelf)][book]])
    case SortingShelf(shelf) =>
      && shelf < l.n && |row.books| == |row'.books| == l.n * l.k
      && ChangedOnly(l, row.books, row'.books, shelf)
      && SortOf(StrLe, Slice(l, row.books, shelf), Slice(l, row'.books, shelf))
      && row' == row.(worker := Opening(shelf + 1), books := row'.books)
    case Failing => row' == row.(worker := Posting, res := 1)
    case Posting => row' == row.(worker := Gone, sem := row.sem + 1)
    case Gone => false
  }

  /** There is no step where the merge cannot print everything: the source has no defined behaviour there. */
  ghost predicate ParentMoves(l: Layout, s: State, s': State) {
    match s.parent
    case Forking(r) =>
      if r >= |s.rows| then s' == s.(parent := Waiting(0))
      else s' == s.(parent := Forking(r + 1), rows := s.rows[r := s.rows[r].(worker := Opening(0))])
    case Waiting(r) =>
      if r >= |s.rows| then s' == s.(parent := Merging)
      else
        && s.rows[r].sem > 0
        && s' == s.(parent := Checking(r), rows := s.rows[r := s.rows[r].(sem := s.rows[r].sem - 1)])
    case Checking(r) =>
      && r < |s.rows|
      && s' == s.(parent := if s.rows[r].res != 0 then Returned(s.rows[r].res, []) else Waiting(r + 1))
    case Merging =>
      && MergeIsSound(l.m, l.n, l.k)
      && Shaped(l, Books(s)) && s'.parent.Returned? && IsCatalogue(l, Books(s), s'.parent.printed)
      && s' == s.(parent := Returned(0, s'.parent.printed))
    case Returned(_, _) => false
  }

  datatype Action = ByParent | ByWorker(r: nat)

  ghost predicate Step(files: Files, l: Layout, s: State, a: Action, s': State) {
    match a
    case ByParent => ParentMoves(l, s, s')
    case ByWorker(r) =>
      && r < |s.rows| == |s'.rows|
      && WorkerMoves(files, l, r, s.rows[r], s'.rows[r])
      && s' == s.(rows := s.rows[r := s'.rows[r]])
  }

  // The invariant.

  /** The shelves before the current one are done, and the current one is read so far. */
  ghost predicate WorkerInv(files: Files, l: Layout, r: nat, row: Row)
    requires |row.books| == l.n * l.k
  {
    match row.worker
    case NotForked => row.res == 0
    case Opening(shelf) =>
      shelf <= l.n && row.res == 0 && ShelvesDone(files, l, r, row.books, shelf)
    case Reading(shelf, book) =>
      && shelf < l.n && row.res == 0 && ShelvesDone(files, l, r, row.books, shelf)
      && (r, shelf) in files && book <= l.k && book <= |files[(r, shelf)]|
      && Slice(l, row.books, shelf)[..book] == files[(r, shelf)][..book]
    case SortingShelf(shelf) =>
      && shelf < l.n && row.res == 0 && ShelvesDone(files, l, r, row.books, shelf)
      && Readable(files, l, r, shelf) && Slice(l, row.books, shelf) == files[(r, shelf)][..l.k]
    case Failing => row.res == 0 && !RowReadable(files, l, r)
    case Posting => Decided(files, l, r, row)
    case Gone => Decided(files, l, r, row)
  }

  ghost predicate Decided(files: Files, l: Layout, r: nat, row: Row)
    requires |row.books| == l.n * l.k
  {
    if RowReadable(files, l, r) then row.res == 0 && ShelvesDone(files, l, r, row.books, l.n)
    else row.res == 1
  }

  /** How often the parent has waited on row `r`. */
  function Waits(parent: Parent, r: nat): nat {
    match parent
    case Forking(_) => 0
    case Waiting(row) => if r < row then 1 else 0
    case Checking(row) => if r <= row then 1 else 0
    case Merging => 1
    case Returned(_, _) => 0
  }

  ghost predicate RowInv(files: Files, l: Layout, s: State, r: nat)
    requires r < |s.rows|
  {
    var row := s.rows[r];
    && |row.books| == l.n * l.k
    && WorkerInv(files, l, r, row)
    && (!s.parent.Returned? ==> row.sem + Waits(s.parent, r) == if row.worker == Gone then 1 else 0)
    && (row.worker == NotForked <==> s.parent.Forking? && r >= s.parent.row)
  }

  /** Rows before this one were found without an error. */
  function Passed(s: State): nat {
    match s.parent
    case Forking(_) => 0
    case Waiting(row) => row
    case Checking(row) => row
    case Merging => |s.rows|
    case Returned(_, _) => 0
  }

  ghost predicate ResultInv(files: Files, l: Layout, s: State) {
    s.parent.Returned? ==>
      if AllReadable(files, l) then
        && s.parent.code == 0 && RowsDone(files, l, Books(s)) && IsCatalogue(l, Books(s), s.parent.printed)
        && forall r :: 0 <= r < |s.rows| ==> s.rows[r].worker == Gone
      else
        s.parent == Returned(1, [])
  }

  ghost predicate AllReadable(files: Files, l: Layout) {
    forall r :: 0 <= r < l.m ==> RowReadable(files, l, r)
  }

  ghost predicate Inv(files: Files, l: Layout, s: State) {
    && |s.rows| == l.m
    && (forall r :: 0 <= r < l.m ==> RowInv(files, l, s, r))
    && (s.parent.Checking? ==> s.parent.row < l.m)
    && (s.parent.Waiting? ==> s.parent.row <= l.m)
    && (s.parent.Forking? ==> s.parent.row <= l.m)
    && (forall r :: 0 <= r < l.m && r < Passed(s) ==> RowReadable(files, l, r))
    && ResultInv(files, l, s)
  }

  lemma InitInv(files: Files, l: Layout, s: State)
    requires Init(l, s)
    ensures Inv(files, l, s)
  {}

  // Preservation.

  lemma DecidedWhenAllShelvesDone(files: Files, l: Layout, r: nat, row: Row)
    requires |row.books| == l.n * l.k && row.res == 0 && ShelvesDone(files, l, r, row.books, l.n)
    ensures Decided(files, l, r, row)
  {
    forall shelf | 0 <= shelf < l.n
      ensures Readable(files, l, r, shelf)
    {
      assert ShelfDone(files, l, r, row.books, shelf);
    }
  }

  lemma ReadKeepsWorkerInv(files: Files, l: Layout, r: nat, row: Row, row': Row)
    requires |row.books| == l.n * l.k && row.worker.Reading? && row.worker.book < l.k
    requires WorkerInv(files, l, r, row) && WorkerMoves(files, l, r, row, row')
    ensures |row'.books| == l.n * l.k && WorkerInv(files, l, r, row')
  {
    hide SortOf;
    var shelf, book := row.worker.shelf, row.worker.book;
    var lines := files[(r, shelf)];
    if book >= |lines| {
      assert !Readable(files, l, r, shelf);
    } else {
      ShelfFits(l, shelf);
      EarlierShelvesStay(files, l, r, row.books, row'.books, shelf);
      UpdateInSlice(row.books, shelf * l.k, l.k, book, lines[book]);
      assert lines[..book + 1] == lines[..book] + [lines[book]];
    }
  }

  lemma UpdateInSlice<T>(s: seq<T>, first: nat, length: nat, pos: nat, x: T)
    requires first + length <= |s| && pos < length
    ensures s[first + pos := x][first..first + length][..pos + 1] == s[first..first + length][..pos] + [x]
  {}

  lemma SortKeepsWorkerInv(files: Files, l: Layout, r: nat, row: Row, row': Row)
    requires |row.books| == l.n * l.k && row.worker.SortingShelf?
    requires WorkerInv(files, l, r, row) && WorkerMoves(files, l, r, row, row')
    ensures |row'.books| == l.n * l.k && WorkerInv(files, l, r, row')
  {
    hide SortOf, Slice, ChangedOnly;
    var shelf := row.worker.shelf;
    EarlierShelvesStay(files, l, r, row.books, row'.books, shelf);
    assert ShelfDone(files, l, r, row'.books, shelf);
  }

  lemma WorkerKeepsInv(files: Files, l: Layout, r: nat, row: Row, row': Row)
    requires |row.books| == l.n * l.k && WorkerInv(files, l, r, row) && WorkerMoves(files, l, r, row, row')
    ensures |row'.books| == l.n * l.k && WorkerInv(files, l, r, row')
  {
    hide ShelfDone, Slice, ChangedOnly, SortOf;
    match row.worker
    case Opening(shelf) =>
      if shelf == l.n {
        DecidedWhenAllShelvesDone(files, l, r, row);
      } else if (r, shelf) !in files {
        assert !Readable(files, l, r, shelf);
      }
    case Reading(shelf, book) =>
      if book < l.k {
        ReadKeepsWorkerInv(files, l, r, row, row');
      }
    case SortingShelf(shelf) =>
      SortKeepsWorkerInv(files, l, r, row, row');
    case Failing =>
    case Posting =>
  }

  lemma WorkerStepKeepsInv(files: Files, l: Layout, r: nat, s: State, s': State)
    requires Inv(files, l, s) && Step(files, l, s, ByWorker(r), s')
    ensures Inv(files, l, s')
  {
    hide WorkerInv, ShelvesDone, IsCatalogue, RowReadable;
    assert RowInv(files, l, s, r);
    WorkerKeepsInv(files, l, r, s.rows[r], s'.rows[r]);
    forall q | 0 <= q < l.m
      ensures RowInv(files, l, s', q)
    {
      assert RowInv(files, l, s, q);
    }
  }

  lemma BooksStay(s: State, s': State)
    requires |s.rows| == |s'.rows| && forall r :: 0 <= r < |s.rows| ==> s'.rows[r].books == s.rows[r].books
    ensures Books(s') == Books(s)
  {}

  /** When the parent starts merging, every worker is gone and every shelf is read and sorted. */
  lemma MergeStartsOnFinishedRows(files: Files, l: Layout, s: State)
    requires Inv(files, l, s) && s.parent.Merging?
    ensures forall r :: 0 <= r < l.m ==> s.rows[r].worker == Gone && s.rows[r].res == 0
    ensures AllReadable(files, l) && RowsDone(files, l, Books(s))
  {
    hide ShelvesDone, IsCatalogue, RowReadable;
    var books := Books(s);
    forall r | 0 <= r < l.m
      ensures s.rows[r].worker == Gone && s.rows[r].res == 0 && RowReadable(files, l, r)
      ensures |books[r]| == l.n * l.k && ShelvesDone(files, l, r, books[r], l.n)
    {
      assert RowInv(files, l, s, r);
    }
  }

  lemma ParentStepKeepsInv(files: Files, l: Layout, s: State, s': State)
    requires Inv(files, l, s) && ParentMoves(l, s, s')
    ensures Inv(files, l, s')
  {
    hide ShelvesDone, IsCatalogue, RowReadable, RowsDone;
    if s.parent.Forking? && s.parent.row < l.m {
      assert RowInv(files, l, s, s.parent.row);
      NothingDoneYet(files, l, s.parent.row, s.rows[s.parent.row].books);
    }
    if s.parent.Checking? {
      assert RowInv(files, l, s, s.parent.row);
    }
    if s.parent.Merging? {
      MergeStartsOnFinishedRows(files, l, s);
      BooksStay(s, s');
    }
    forall r | 0 <= r < l.m
      ensures RowInv(files, l, s', r)
    {
      assert RowInv(files, l, s, r);
    }
  }

  lemma NothingDoneYet(files: Files, l: Layout, r: nat, books: seq<Title>)
    requires |books| == l.n * l.k
    ensures ShelvesDone(files, l, r, books, 0)
  {}

  lemma StepKeepsInv(files: Files, l: Layout, s: State, a: Action, s': State)
    requires Inv(files, l, s) && Step(files, l, s, a, s')
    ensures Inv(files, l, s')
  {
    hide Inv, WorkerMoves, ParentMoves;
    match a
    case ByParent => ParentStepKeepsInv(files, l, s, s');
    case ByWorker(r) => WorkerStepKeepsInv(files, l, r, s, s');
  }

  // Whole runs.

  ghost predicate IsRun(files: Files, l: Layout, states: seq<State>, actions: seq<Action>) {
    && |states| == |actions| + 1 && Init(l, states[0])
    && forall i :: 0 <= i < |actions| ==> Step(files, l, states[i], actions[i], states[i + 1])
  }

  lemma {:induction false} RunKeepsInv(files: Files, l: Layout, states: seq<State>, actions: seq<Action>, i: nat)
    requires IsRun(files, l, states, actions) && i < |states|
    ensures Inv(files, l, states[i])
  {
    hide Inv, Init, Step;
    if i == 0 {
      InitInv(files, l, states[0]);
    } else {
      RunKeepsInv(files, l, states, actions, i - 1);
      StepKeepsInv(files, l, states[i - 1], actions[i - 1], states[i]);
    }
  }

  /** In every interleaving: exit code 0 and the catalogue when all files are long enough, else 1 and nothing. */
  lemma CompletedRun(files: Files, l: Layout, states: seq<State>, actions: seq<Action>, i: nat)
    requires IsRun(files, l, states, actions) && i < |states| && states[i].parent.Returned?
    ensures states[i].parent.code == 0 <==> AllReadable(files, l)
    ensures states[i].parent.code == 0 ==>
              RowsDone(files, l, Books(states[i])) && IsCatalogue(l, Books(states[i]), states[i].parent.printed)
    ensures states[i].parent.code != 0 ==> states[i].parent == Returned(1, [])
  {
    hide Init, Step, RowInv, AllReadable, RowsDone, IsCatalogue;
    RunKeepsInv(files, l, states, actions, i);
  }

  /** What a completed run prints and returns does not depend on the schedule. */
  lemma ScheduleIndependence(files: Files, l: Layout, states: seq<State>, actions: seq<Action>, i: nat,
                             states': seq<State>, actions': seq<Action>, i': nat)
    requires IsRun(files, l, states, actions) && i < |states| && states[i].parent.Returned?
    requires IsRun(files, l, states', actions') && i' < |states'| && states'[i'].parent.Returned?
    ensures states[i].parent == states'[i'].parent
  {
    hide IsRun, RowsDone, IsCatalogue, AllReadable;
    CompletedRun(files, l, states, actions, i);
    CompletedRun(files, l, states', actions', i');
    if AllReadable(files, l) {
      DoneRowsGiveOneCatalogue(files, l, Books(states[i]), Books(states'[i']),
                               states[i].parent.printed, states'[i'].parent.printed);
    }
  }
}
