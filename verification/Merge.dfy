/** The merge in `main` of bhw2/4/main.c: one cursor per shelf, the least head printed each time. */
module Merge {
  import opened CStrings
  import opened Catalogue
  import opened Cursors

  ghost predicate Ready(l: Layout, rows: seq<seq<Title>>) {
    Shaped(l, rows) && SortedShelves(l, rows) && (l.m == l.n || l.m == 1)
  }

  /** `c` are cursors of this layout. */
  ghost predicate InBounds(l: Layout, c: seq<int>) {
    |c| == l.m * l.n && forall i :: 0 <= i < |c| ==> 0 <= c[i] <= l.k
  }

  lemma CursorInRange(l: Layout, row: nat, shelf: nat)
    requires (l.m == l.n || l.m == 1) && row < l.m && shelf < l.n
    ensures Cursor(l.m, row, shelf) < l.m * l.n
  {
    CursorsApartExactlyWhen(l.m, l.n);
  }

  /** How many titles of a shelf are printed. */
  ghost function Taken(l: Layout, c: seq<int>, row: nat, shelf: nat): nat
    requires (l.m == l.n || l.m == 1) && InBounds(l, c) && row < l.m && shelf < l.n
  {
    CursorInRange(l, row, shelf);
    c[Cursor(l.m, row, shelf)]
  }

  ghost predicate Open(l: Layout, c: seq<int>, row: nat, shelf: nat)
    requires (l.m == l.n || l.m == 1) && InBounds(l, c)
  {
    row < l.m && shelf < l.n && Taken(l, c, row, shelf) < l.k
  }

  ghost function Head(l: Layout, rows: seq<seq<Title>>, c: seq<int>, row: nat, shelf: nat): Entry
    requires Ready(l, rows) && InBounds(l, c) && Open(l, c, row, shelf)
  {
    EntryAt(l, rows, row, shelf, Taken(l, c, row, shelf))
  }

  /** `out` is exactly what lies before the cursors, in order, and nothing behind them comes sooner. */
  ghost predicate Merged(l: Layout, rows: seq<seq<Title>>, c: seq<int>, out: seq<Entry>)
    requires Ready(l, rows) && InBounds(l, c)
  {
    && Sum(c) == |out|
    && Ordered(out)
    && (forall e :: e in out <==> IsEntry(l, rows, e) && e.pos < Taken(l, c, e.row, e.shelf))
    && (forall e, r, s :: e in out && Open(l, c, r, s) ==> Before(e, Head(l, rows, c, r, s)))
  }

  /** `(row, shelf)` comes before `(r, s)` in the order of the search. */
  predicate Searched(row: nat, shelf: nat, r: nat, s: nat) {
    row < r || (row == r && shelf < s)
  }

  /** The search so far: the least head among the shelves searched, if one of them is open. */
  ghost predicate Best(l: Layout, rows: seq<seq<Title>>, c: seq<int>, r: nat, s: nat,
                       found: bool, row: nat, shelf: nat)
    requires Ready(l, rows) && InBounds(l, c)
  {
    && (found ==>
          && Open(l, c, row, shelf) && Searched(row, shelf, r, s)
          && forall row', shelf' :: Open(l, c, row', shelf') && Searched(row', shelf', r, s) ==>
               (row' == row && shelf' == shelf)
               || Before(Head(l, rows, c, row, shelf), Head(l, rows, c, row', shelf')))
    && (!found ==> forall row', shelf' :: Open(l, c, row', shelf') ==> !Searched(row', shelf', r, s))
  }

  lemma BestSkips(l: Layout, rows: seq<seq<Title>>, c: seq<int>, r: nat, s: nat, found: bool, row: nat, shelf: nat)
    requires Ready(l, rows) && InBounds(l, c) && r < l.m && s < l.n && Best(l, rows, c, r, s, found, row, shelf)
    requires !Open(l, c, r, s)
    ensures Best(l, rows, c, r, s + 1, found, row, shelf)
  {}

  /** The strict comparison keeps the earlier shelf on equal titles. */
  lemma BestCompares(l: Layout, rows: seq<seq<Title>>, c: seq<int>, r: nat, s: nat, found: bool, row: nat, shelf: nat)
    requires Ready(l, rows) && InBounds(l, c) && r < l.m && s < l.n && Best(l, rows, c, r, s, found, row, shelf)
    requires Open(l, c, r, s)
    ensures
      if !found || Strcmp(Head(l, rows, c, row, shelf).title, Head(l, rows, c, r, s).title) > 0
      then Best(l, rows, c, r, s + 1, true, r, s)
      else Best(l, rows, c, r, s + 1, true, row, shelf)
  {
    var here := Head(l, rows, c, r, s);
    if found {
      var best := Head(l, rows, c, row, shelf);
      BeforeIsStrict(best, here);
      StrcmpZeroIsEquality(best.title, here.title);
      StrcmpFlips(best.title, here.title);
      forall row', shelf' | Open(l, c, row', shelf') && Searched(row', shelf', r, s) && Before(here, best)
        ensures Before(here, Head(l, rows, c, row', shelf'))
      {
        if row' != row || shelf' != shelf {
          BeforeIsTransitive(here, best, Head(l, rows, c, row', shelf'));
        }
      }
    }
  }

  lemma NextRowOfSearch(l: Layout, rows: seq<seq<Title>>, c: seq<int>, r: nat, found: bool, row: nat, shelf: nat)
    requires Ready(l, rows) && InBounds(l, c) && Best(l, rows, c, r, l.n, found, row, shelf)
    ensures Best(l, rows, c, r + 1, 0, found, row, shelf)
  {
    forall row', shelf' | Open(l, c, row', shelf')
      ensures Searched(row', shelf', r + 1, 0) ==> Searched(row', shelf', r, l.n)
    {}
  }

  /** As long as a line is missing, some shelf is open. */
  lemma SomeShelfIsOpen(l: Layout, rows: seq<seq<Title>>, c: seq<int>, out: seq<Entry>) returns (row: nat, shelf: nat)
    requires Ready(l, rows) && InBounds(l, c) && Merged(l, rows, c, out) && |out| < l.m * l.n * l.k
    ensures Open(l, c, row, shelf)
  {
    FullSumExactlyWhen(c, l.k);
    var i :| 0 <= i < |c| && c[i] != l.k;
    row, shelf := ShelfOfCursor(l.m, l.n, i);
  }

  lemma AdvanceOnlyThere(l: Layout, c: seq<int>, row: nat, shelf: nat)
    requires (l.m == l.n || l.m == 1) && InBounds(l, c) && Open(l, c, row, shelf)
    ensures
      var i := Cursor(l.m, row, shelf);
      && i < |c|
      && var d := c[i := c[i] + 1];
      && InBounds(l, d)
      && forall r, s :: 0 <= r < l.m && 0 <= s < l.n ==>
           Taken(l, d, r, s) == Taken(l, c, r, s) + if r == row && s == shelf then 1 else 0
  {
    CursorInRange(l, row, shelf);
    CursorsApartExactlyWhen(l.m, l.n);
  }

  lemma AppendKeepsOrder(out: seq<Entry>, e: Entry)
    requires Ordered(out) && forall x :: x in out ==> Before(x, e)
    ensures Ordered(out + [e])
  {}

  /** On one shelf later positions come later. */
  lemma ShelfIsOrdered(l: Layout, rows: seq<seq<Title>>, row: nat, shelf: nat, p: nat, q: nat)
    requires Ready(l, rows) && row < l.m && shelf < l.n && p < q < l.k
    ensures Before(EntryAt(l, rows, row, shelf, p), EntryAt(l, rows, row, shelf, q))
  {
    var a, b := EntryAt(l, rows, row, shelf, p), EntryAt(l, rows, row, shelf, q);
    assert StrLe(a.title, b.title);
    StrcmpZeroIsEquality(a.title, b.title);
  }

  /** Printing the least head and advancing its cursor keeps the merge going. */
  lemma TakeKeepsMerged(l: Layout, rows: seq<seq<Title>>, c: seq<int>, out: seq<Entry>, row: nat, shelf: nat, d: seq<int>)
    requires Ready(l, rows) && InBounds(l, c) && InBounds(l, d) && Merged(l, rows, c, out)
    requires Open(l, c, row, shelf)
    requires forall r, s :: Open(l, c, r, s) && (r != row || s != shelf) ==>
               Before(Head(l, rows, c, row, shelf), Head(l, rows, c, r, s))
    requires Sum(d) == Sum(c) + 1
    requires forall r, s :: 0 <= r < l.m && 0 <= s < l.n ==>
               Taken(l, d, r, s) == Taken(l, c, r, s) + if r == row && s == shelf then 1 else 0
    ensures Merged(l, rows, d, out + [Head(l, rows, c, row, shelf)])
  {
    hide Taken, Before, Sum;
    var head := Head(l, rows, c, row, shelf);
    AppendKeepsOrder(out, head);
    forall e
      ensures e in out + [head] <==> IsEntry(l, rows, e) && e.pos < Taken(l, d, e.row, e.shelf)
    {}
    forall e, r, s | e in out + [head] && Open(l, d, r, s)
      ensures Before(e, Head(l, rows, d, r, s))
    {
      assert Open(l, c, r, s);
      var next := Head(l, rows, d, r, s);
      if r == row && s == shelf {
        ShelfIsOrdered(l, rows, row, shelf, Taken(l, c, row, shelf), Taken(l, d, row, shelf));
        if e != head {
          BeforeIsTransitive(e, head, next);
        }
      }
    }
  }

  lemma MergedAtStart(l: Layout, rows: seq<seq<Title>>, c: seq<int>)
    requires Ready(l, rows) && InBounds(l, c) && forall i :: 0 <= i < |c| ==> c[i] == 0
    ensures Merged(l, rows, c, [])
  {
    hide TitleAt, Before, SortedShelves;
    SumOfZeros(c);
    forall e | IsEntry(l, rows, e)
      ensures Taken(l, c, e.row, e.shelf) == 0
    {
      CursorInRange(l, e.row, e.shelf);
    }
  }

  lemma MergedAtEnd(l: Layout, rows: seq<seq<Title>>, c: seq<int>, out: seq<Entry>)
    requires Ready(l, rows) && InBounds(l, c) && Merged(l, rows, c, out) && |out| == l.m * l.n * l.k
    ensures IsCatalogue(l, rows, out) && forall i :: 0 <= i < |c| ==> c[i] == l.k
  {
    FullSumExactlyWhen(c, l.k);
    forall e | IsEntry(l, rows, e)
      ensures e in out
    {
      CursorInRange(l, e.row, e.shelf);
    }
  }

  /** The two inner loops: the first of the least heads in row-major order. */
  method FindNext(l: Layout, rows: seq<seq<Title>>, cur: array<int>)
    returns (found: bool, next: Title, mTaken: nat, nTaken: nat)
    requires Ready(l, rows) && InBounds(l, cur[..])
    ensures Best(l, rows, cur[..], l.m, 0, found, mTaken, nTaken)
    ensures found ==> next == Head(l, rows, cur[..], mTaken, nTaken).title
  {
    hide TitleAt, SortedShelves, Strcmp, Best;
    ghost var c := cur[..];
    found, next := false, [];
    mTaken, nTaken := 0, 0;
    BestAtStart(l, rows, c);
    for row := 0 to l.m
      invariant Best(l, rows, c, row, 0, found, mTaken, nTaken)
      invariant found ==> Open(l, c, mTaken, nTaken) && next == Head(l, rows, c, mTaken, nTaken).title
    {
      for shelf := 0 to l.n
        invariant Best(l, rows, c, row, shelf, found, mTaken, nTaken)
        invariant found ==> Open(l, c, mTaken, nTaken) && next == Head(l, rows, c, mTaken, nTaken).title
      {
        CursorInRange(l, row, shelf);
        assert cur[Cursor(l.m, row, shelf)] == c[Cursor(l.m, row, shelf)];
        if cur[row * l.m + shelf] == l.k {
          BestSkips(l, rows, c, row, shelf, found, mTaken, nTaken);
          continue;
        }
        BestCompares(l, rows, c, row, shelf, found, mTaken, nTaken);
        var here := TitleAt(l, rows, row, shelf, cur[row * l.m + shelf]);
        if !found || Strcmp(next, here) > 0 {
          found, next, mTaken, nTaken := true, here, row, shelf;
        }
      }
      NextRowOfSearch(l, rows, c, row, found, mTaken, nTaken);
    }
  }

  lemma BestAtStart(l: Layout, rows: seq<seq<Title>>, c: seq<int>)
    requires Ready(l, rows) && InBounds(l, c)
    ensures Best(l, rows, c, 0, 0, false, 0, 0)
  {}

  /** A search through all rows sees every open shelf. */
  lemma WholeSearch(l: Layout, rows: seq<seq<Title>>, c: seq<int>, found: bool, row: nat, shelf: nat, r: nat, s: nat)
    requires Ready(l, rows) && InBounds(l, c) && Best(l, rows, c, l.m, 0, found, row, shelf) && Open(l, c, r, s)
    ensures found && Open(l, c, row, shelf)
    ensures forall r', s' :: Open(l, c, r', s') && (r' != row || s' != shelf) ==>
              Before(Head(l, rows, c, row, shelf), Head(l, rows, c, r', s'))
  {
    hide TitleAt, SortedShelves, Before;
    assert Searched(r, s, l.m, 0);
    forall r', s' | Open(l, c, r', s')
      ensures Searched(r', s', l.m, 0)
    {}
  }

  /** A finished search has a result as long as a line is missing, and it is the one to print. */
  lemma SearchSucceeds(l: Layout, rows: seq<seq<Title>>, c: seq<int>, out: seq<Entry>,
                       found: bool, row: nat, shelf: nat)
    requires Ready(l, rows) && InBounds(l, c) && Merged(l, rows, c, out) && |out| < l.m * l.n * l.k
    requires Best(l, rows, c, l.m, 0, found, row, shelf)
    ensures found && Open(l, c, row, shelf)
    ensures
      var i := Cursor(l.m, row, shelf);
      && i < |c|
      && var d := c[i := c[i] + 1];
      && InBounds(l, d) && Merged(l, rows, d, out + [Head(l, rows, c, row, shelf)])
  {
    hide TitleAt, SortedShelves, Strcmp, Before, Merged, Best, Sum;
    var r, s := SomeShelfIsOpen(l, rows, c, out);
    WholeSearch(l, rows, c, found, row, shelf, r, s);
    var i := Cursor(l.m, row, shelf);
    AdvanceOnlyThere(l, c, row, shelf);
    SumAfterAdvance(c, i);
    TakeKeepsMerged(l, rows, c, out, row, shelf, c[i := c[i] + 1]);
  }

  /** The merge after some rounds; an empty library has none. */
  ghost predicate Underway(l: Layout, rows: seq<seq<Title>>, c: seq<int>, out: seq<Entry>) {
    && InBounds(l, c)
    && if Ready(l, rows) then Merged(l, rows, c, out)
       else out == [] && forall i :: 0 <= i < |c| ==> c[i] == 0
  }

  lemma UnderwayAtStart(l: Layout, rows: seq<seq<Title>>, c: seq<int>)
    requires |c| == l.m * l.n && forall i :: 0 <= i < |c| ==> c[i] == 0
    ensures Underway(l, rows, c, [])
  {
    hide Merged, Ready;
    if Ready(l, rows) {
      MergedAtStart(l, rows, c);
    }
  }

  /** With a line missing the cursors are sound and the search succeeds. */
  lemma LineMissing(l: Layout, rows: seq<seq<Title>>, c: seq<int>, out: seq<Entry>)
    requires Shaped(l, rows) && SortedShelves(l, rows) && MergeIsSound(l.m, l.n, l.k)
    requires Underway(l, rows, c, out) && |out| < l.m * l.n * l.k
    ensures Ready(l, rows) && InBounds(l, c) && Merged(l, rows, c, out)
  {
    hide Merged;
  }

  lemma UnderwayAtEnd(l: Layout, rows: seq<seq<Title>>, c: seq<int>, out: seq<Entry>)
    requires Shaped(l, rows) && SortedShelves(l, rows) && MergeIsSound(l.m, l.n, l.k)
    requires Underway(l, rows, c, out) && |out| == l.m * l.n * l.k
    ensures IsCatalogue(l, rows, out) && forall i :: 0 <= i < |c| ==> c[i] == l.k
  {
    hide Merged, IsCatalogue;
    if Ready(l, rows) {
      MergedAtEnd(l, rows, c, out);
    } else {
      NothingToPrint(l, rows);
    }
  }

  lemma EntryNeedsRoom(l: Layout, rows: seq<seq<Title>>, e: Entry)
    requires Shaped(l, rows) && IsEntry(l, rows, e)
    ensures l.m * l.n * l.k > 0
  {
    assert l.m >= 1 && l.n >= 1 && l.k >= 1;
    assert l.m * l.n >= 1;
  }

  lemma NothingToPrint(l: Layout, rows: seq<seq<Title>>)
    requires Shaped(l, rows) && l.m * l.n * l.k == 0
    ensures IsCatalogue(l, rows, []) && (l.k == 0 || l.m * l.n == 0)
  {
    hide IsEntry;
    forall e
      ensures !IsEntry(l, rows, e)
    {
      if IsEntry(l, rows, e) {
        EntryNeedsRoom(l, rows, e);
      }
    }
    assert l.k != 0 && l.m * l.n != 0 ==> l.m * l.n * l.k != 0;
  }

  /** Each printed line shows title, row and shelf; `pos` is the value of the cursor it was printed from. */
  method PrintMerged(l: Layout, rows: seq<seq<Title>>) returns (out: seq<Entry>, cursors: array<int>)
    requires Shaped(l, rows) && SortedShelves(l, rows) && MergeIsSound(l.m, l.n, l.k)
    ensures |out| == l.m * l.n * l.k && IsCatalogue(l, rows, out)
    ensures forall i :: 0 <= i < cursors.Length ==> cursors[i] == l.k
  {
    hide TitleAt, SortedShelves, Merged, Best, IsCatalogue, Underway;
    var cur := new int[l.m * l.n](_ => 0);
    out := [];
    UnderwayAtStart(l, rows, cur[..]);
    for line := 0 to l.m * l.n * l.k
      invariant Underway(l, rows, cur[..], out) && |out| == line
    {
      ghost var c := cur[..];
      LineMissing(l, rows, c, out);
      var found, next, mTaken, nTaken := FindNext(l, rows, cur);
      SearchSucceeds(l, rows, c, out, found, mTaken, nTaken);
      assert found;
      var i := mTaken * l.m + nTaken;
      assert i == Cursor(l.m, mTaken, nTaken) && cur[i] == c[i];
      out := out + [Entry(next, mTaken, nTaken, cur[i])];
      cur[i] := cur[i] + 1;
      assert cur[..] == c[i := c[i] + 1];
      MergedIsUnderway(l, rows, cur[..], out);
    }
    UnderwayAtEnd(l, rows, cur[..], out);
    cursors := cur;
  }

  lemma MergedIsUnderway(l: Layout, rows: seq<seq<Title>>, c: seq<int>, out: seq<Entry>)
    requires Ready(l, rows) && InBounds(l, c) && Merged(l, rows, c, out)
    ensures Underway(l, rows, c, out)
  {}

  // The same search and merge on values: a catalogue always exists.

  lemma LeastHead(l: Layout, rows: seq<seq<Title>>, c: seq<int>) returns (found: bool, row: nat, shelf: nat)
    requires Ready(l, rows) && InBounds(l, c)
    ensures Best(l, rows, c, l.m, 0, found, row, shelf)
  {
    hide TitleAt, SortedShelves, Strcmp, Best;
    found, row, shelf := false, 0, 0;
    BestAtStart(l, rows, c);
    for r := 0 to l.m
      invariant Best(l, rows, c, r, 0, found, row, shelf)
    {
      for s := 0 to l.n
        invariant Best(l, rows, c, r, s, found, row, shelf)
      {
        if Open(l, c, r, s) {
          BestCompares(l, rows, c, r, s, found, row, shelf);
          BestIsOpen(l, rows, c, r, s, found, row, shelf);
          if !found || Strcmp(Head(l, rows, c, row, shelf).title, Head(l, rows, c, r, s).title) > 0 {
            found, row, shelf := true, r, s;
          }
        } else {
          BestSkips(l, rows, c, r, s, found, row, shelf);
        }
      }
      NextRowOfSearch(l, rows, c, r, found, row, shelf);
    }
  }

  lemma BestIsOpen(l: Layout, rows: seq<seq<Title>>, c: seq<int>, r: nat, s: nat, found: bool, row: nat, shelf: nat)
    requires Ready(l, rows) && InBounds(l, c) && Best(l, rows, c, r, s, found, row, shelf)
    ensures found ==> Open(l, c, row, shelf)
  {}

  lemma CatalogueExists(l: Layout, rows: seq<seq<Title>>) returns (out: seq<Entry>)
    requires Shaped(l, rows) && SortedShelves(l, rows) && MergeIsSound(l.m, l.n, l.k)
    ensures IsCatalogue(l, rows, out) && |out| == l.m * l.n * l.k
  {
    hide TitleAt, SortedShelves, Merged, Best, IsCatalogue;
    if l.m != l.n && l.m != 1 {
      NothingToPrint(l, rows);
      return [];
    }
    var c: seq<int> := seq(l.m * l.n, _ => 0);
    out := [];
    MergedAtStart(l, rows, c);
    for line := 0 to l.m * l.n * l.k
      invariant InBounds(l, c) && Merged(l, rows, c, out) && |out| == line
    {
      var found, row, shelf := LeastHead(l, rows, c);
      SearchSucceeds(l, rows, c, out, found, row, shelf);
      var i := Cursor(l.m, row, shelf);
      out := out + [Head(l, rows, c, row, shelf)];
      c := c[i := c[i] + 1];
    }
    MergedAtEnd(l, rows, c, out);
  }
}
