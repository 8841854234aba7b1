/** `unpaid_worker` of bhw2/4/main.c: one row read and sorted, shelf by shelf. */
module Workers {
  import opened CStrings
  import opened Sorting
  import opened StringOrder
  import opened Catalogue

  /** What successive `fgets` calls return for each shelf file; a missing file has no entry. */
  type Files = map<(nat, nat), seq<Title>>

  /** The file exists and has a line for every place on the shelf. */
  predicate Readable(files: Files, l: Layout, row: nat, shelf: nat) {
    (row, shelf) in files && |files[(row, shelf)]| >= l.k
  }

  ghost predicate RowReadable(files: Files, l: Layout, row: nat) {
    forall shelf :: 0 <= shelf < l.n ==> Readable(files, l, row, shelf)
  }

  lemma ShelfFits(l: Layout, shelf: nat)
    requires shelf < l.n
    ensures shelf * l.k + l.k <= l.n * l.k
    ensures (shelf + 1) * l.k == shelf * l.k + l.k
  {
    assert (shelf + 1) * l.k <= l.n * l.k;
  }

  /** The places of one shelf in the flat row. */
  function Slice(l: Layout, books: seq<Title>, shelf: nat): (slice: seq<Title>)
    requires |books| == l.n * l.k && shelf < l.n
    ensures |slice| == l.k
  {
    ShelfFits(l, shelf);
    books[shelf * l.k..shelf * l.k + l.k]
  }

  /** The shelf holds the first `k` lines of its file, sorted. */
  ghost predicate ShelfDone(files: Files, l: Layout, row: nat, books: seq<Title>, shelf: nat)
    requires |books| == l.n * l.k && shelf < l.n
  {
    Readable(files, l, row, shelf) && SortOf(StrLe, files[(row, shelf)][..l.k], Slice(l, books, shelf))
  }

  ghost predicate ShelvesDone(files: Files, l: Layout, row: nat, books: seq<Title>, shelves: nat)
    requires |books| == l.n * l.k && shelves <= l.n
  {
    forall s :: 0 <= s < shelves ==> ShelfDone(files, l, row, books, s)
  }

  ghost predicate ChangedOnly(l: Layout, books: seq<Title>, books': seq<Title>, shelf: nat) {
    && |books| == |books'| == l.n * l.k
    && forall i :: 0 <= i < |books| && !(shelf * l.k <= i < shelf * l.k + l.k) ==> books'[i] == books[i]
  }

  /** A change on one shelf leaves the shelves before it as they were. */
  lemma EarlierShelvesStay(files: Files, l: Layout, row: nat, books: seq<Title>, books': seq<Title>, shelf: nat)
    requires |books| == |books'| == l.n * l.k && shelf < l.n && ChangedOnly(l, books, books', shelf)
    requires ShelvesDone(files, l, row, books, shelf)
    ensures ShelvesDone(files, l, row, books', shelf)
  {
    hide SortOf, Slice, Readable, ChangedOnly;
    forall t | 0 <= t < shelf
      ensures ShelfDone(files, l, row, books', t)
    {
      assert ShelfDone(files, l, row, books, t);
      EarlierSliceStays(l, books, books', shelf, t);
    }
  }

  lemma EarlierSliceStays(l: Layout, books: seq<Title>, books': seq<Title>, shelf: nat, t: nat)
    requires ChangedOnly(l, books, books', shelf) && t < shelf < l.n
    ensures Slice(l, books', t) == Slice(l, books, t)
  {
    ShelfFits(l, t);
    ShelfFits(l, shelf);
    assert (t + 1) * l.k <= shelf * l.k;
    var first, end := t * l.k, shelf * l.k;
    assert first + l.k <= end <= |books|;
    assert forall i :: 0 <= i < end ==> books'[i] == books[i];
  }

  /** The `shared_data` of one row: its semaphore, the worker's verdict, and the titles, shelf after shelf. */
  class SharedRow {
    var sem: nat
    var res: int
    const books: array<Title>

    /** What `main` sets up before it forks: anonymous shared memory is zero. */
    constructor (l: Layout)
      ensures sem == 0 && res == 0 && books.Length == l.n * l.k && fresh(books)
      ensures forall i :: 0 <= i < books.Length ==> books[i] == []
    {
      sem, res := 0, 0;
      books := new Title[l.n * l.k](_ => []);
    }

    /** `sem_post`. */
    method Post()
      modifies this`sem
      ensures sem == old(sem) + 1
    {
      sem := sem + 1;
    }
  }

  /** Whatever happens, exactly one post; the verdict in shared memory is set before it and only on failure. */
  method UnpaidWorker(files: Files, l: Layout, row: nat, data: SharedRow) returns (code: int)
    requires data.books.Length == l.n * l.k
    modifies data, data.books
    ensures code == 0 || code == 1
    ensures code == 0 <==> RowReadable(files, l, row)
    ensures data.sem == old(data.sem) + 1
    ensures data.res == if code == 0 then old(data.res) else 1
    ensures code == 0 ==> ShelvesDone(files, l, row, data.books[..], l.n)
  {
    hide SortOf, StrLe, TotalPreorder, ShelvesDone, Readable;
    var books := data.books;
    NoShelfDone(files, l, row, books[..]);
    for shelf := 0 to l.n
      invariant data.sem == old(data.sem) && data.res == old(data.res)
      invariant ShelvesDone(files, l, row, books[..], shelf)
      invariant forall s :: 0 <= s < shelf ==> Readable(files, l, row, s)
    {
      ShelfFits(l, shelf);
      if (row, shelf) !in files {
        Unreadable(files, l, row, shelf);
        data.res := 1;
        data.Post();
        return 1;
      }
      var file := files[(row, shelf)];
      var first := shelf * l.k;
      ghost var before := books[..];
      for book := 0 to l.k
        invariant data.sem == old(data.sem) && data.res == old(data.res)
        invariant books[..first] == before[..first] && books[first + l.k..] == before[first + l.k..]
        invariant book <= |file| && books[first..first + book] == file[..book]
      {
        if book >= |file| {
          Unreadable(files, l, row, shelf);
          data.res := 1;
          data.Post();
          return 1;
        }
        books[first + book] := file[book];
      }
      TitlesAreOrdered();
      Qsort(books, first, first + l.k, StrLe);
      OneMoreShelf(files, l, row, before, books[..], shelf);
    }
    data.Post();
    code := 0;
  }

  lemma NoShelfDone(files: Files, l: Layout, row: nat, books: seq<Title>)
    requires |books| == l.n * l.k
    ensures ShelvesDone(files, l, row, books, 0)
  {}

  lemma Unreadable(files: Files, l: Layout, row: nat, shelf: nat)
    requires shelf < l.n && ((row, shelf) !in files || |files[(row, shelf)]| < l.k)
    ensures !RowReadable(files, l, row)
  {
    assert !Readable(files, l, row, shelf);
  }

  lemma OneMoreShelf(files: Files, l: Layout, row: nat, books: seq<Title>, books': seq<Title>, shelf: nat)
    requires |books| == |books'| == l.n * l.k && shelf < l.n && shelf * l.k + l.k <= l.n * l.k
    requires ShelvesDone(files, l, row, books, shelf)
    requires books'[..shelf * l.k] == books[..shelf * l.k]
    requires books'[shelf * l.k + l.k..] == books[shelf * l.k + l.k..]
    requires (row, shelf) in files && |files[(row, shelf)]| >= l.k
    requires SortOf(StrLe, files[(row, shelf)][..l.k], books'[shelf * l.k..shelf * l.k + l.k])
    ensures ShelvesDone(files, l, row, books', shelf + 1) && Readable(files, l, row, shelf)
  {
    hide SortOf, StrLe, ChangedOnly;
    OutsideStays(l, books, books', shelf);
    EarlierShelvesStay(files, l, row, books, books', shelf);
    assert ShelfDone(files, l, row, books', shelf);
  }

  lemma TitlesAreOrdered()
    ensures TotalPreorder(StrLe)
  {
    StringOrderIsAntisymmetric();
  }

  lemma OutsideStays(l: Layout, books: seq<Title>, books': seq<Title>, shelf: nat)
    requires |books| == |books'| == l.n * l.k && shelf < l.n && shelf * l.k + l.k <= l.n * l.k
    requires books'[..shelf * l.k] == books[..shelf * l.k]
    requires books'[shelf * l.k + l.k..] == books[shelf * l.k + l.k..]
    ensures ChangedOnly(l, books, books', shelf)
  {
    var first := shelf * l.k;
    forall i | 0 <= i < |books| && !(first <= i < first + l.k)
      ensures books'[i] == books[i]
    {
      if i < first {
        assert books'[..first][i] == books[..first][i];
      } else {
        assert books'[first + l.k..][i - (first + l.k)] == books[first + l.k..][i - (first + l.k)];
      }
    }
  }

  // A finished row is fixed by its files.

  lemma SliceAt(l: Layout, rows: seq<seq<Title>>, row: nat, shelf: nat, pos: nat)
    requires Shaped(l, rows) && row < l.m && shelf < l.n && pos < l.k
    ensures TitleAt(l, rows, row, shelf, pos) == Slice(l, rows[row], shelf)[pos]
  {
    ShelfFits(l, shelf);
    SliceIndex(rows[row], shelf * l.k, l.k, pos);
  }

  lemma SliceIndex<T>(s: seq<T>, first: nat, length: nat, pos: nat)
    requires first + length <= |s| && pos < length
    ensures s[first..first + length][pos] == s[first + pos]
  {}

  ghost predicate RowsDone(files: Files, l: Layout, rows: seq<seq<Title>>) {
    Shaped(l, rows) && forall r :: 0 <= r < l.m ==> ShelvesDone(files, l, r, rows[r], l.n)
  }

  lemma DoneRowsAreSorted(files: Files, l: Layout, rows: seq<seq<Title>>)
    requires RowsDone(files, l, rows)
    ensures Shaped(l, rows) && SortedShelves(l, rows)
  {
    forall r, s, p, q | 0 <= r < l.m && 0 <= s < l.n && 0 <= p < q < l.k
      ensures StrLe(TitleAt(l, rows, r, s, p), TitleAt(l, rows, r, s, q))
    {
      assert ShelfDone(files, l, r, rows[r], s);
      SliceAt(l, rows, r, s, p);
      SliceAt(l, rows, r, s, q);
    }
  }

  /** Any two ways of reading and sorting the same files give the same catalogue. */
  lemma DoneRowsGiveOneCatalogue(files: Files, l: Layout, rows: seq<seq<Title>>, rows': seq<seq<Title>>,
                                 out: seq<Entry>, out': seq<Entry>)
    requires RowsDone(files, l, rows) && RowsDone(files, l, rows')
    requires IsCatalogue(l, rows, out) && IsCatalogue(l, rows', out')
    ensures out == out'
  {
    hide StrLe, SortOf, Ordered, ShelfDone, Slice;
    forall r, s, p | 0 <= r < l.m && 0 <= s < l.n && 0 <= p < l.k
      ensures TitleAt(l, rows, r, s, p) == TitleAt(l, rows', r, s, p)
    {
      SameShelf(files, l, r, rows[r], rows'[r], s);
      SliceAt(l, rows, r, s, p);
      SliceAt(l, rows', r, s, p);
    }
    forall e
      ensures IsEntry(l, rows, e) <==> IsEntry(l, rows', e)
    {}
    CatalogueIsUnique(l, rows, out, out');
  }

  lemma SameShelf(files: Files, l: Layout, row: nat, books: seq<Title>, books': seq<Title>, shelf: nat)
    requires |books| == |books'| == l.n * l.k && shelf < l.n
    requires ShelfDone(files, l, row, books, shelf) && ShelfDone(files, l, row, books', shelf)
    ensures Slice(l, books, shelf) == Slice(l, books', shelf)
  {
    StringOrderIsAntisymmetric();
    SortIsUnique(StrLe, Slice(l, books, shelf), Slice(l, books', shelf));
  }
}
