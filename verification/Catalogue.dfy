/** The catalogue that bhw2/4 is to print, and why there is only one. */
module Catalogue {
  import opened CStrings

  type Title = CString

  /** `k` sorted titles on each of `n` shelves in each of `m` rows; a row lies flat, shelf after shelf. */
  datatype Layout = Layout(m: nat, n: nat, k: nat)

  datatype Entry = Entry(title: Title, row: nat, shelf: nat, pos: nat)

  ghost predicate Shaped(l: Layout, rows: seq<seq<Title>>) {
    |rows| == l.m && forall r :: 0 <= r < l.m ==> |rows[r]| == l.n * l.k
  }

  /** Where a row keeps the title at position `pos` of a shelf. */
  function Slot(l: Layout, shelf: nat, pos: nat): (slot: nat)
    requires shelf < l.n && pos < l.k
    ensures slot < l.n * l.k
  {
    assert (shelf + 1) * l.k <= l.n * l.k;
    shelf * l.k + pos
  }

  function TitleAt(l: Layout, rows: seq<seq<Title>>, row: nat, shelf: nat, pos: nat): Title
    requires Shaped(l, rows) && row < l.m && shelf < l.n && pos < l.k
  {
    rows[row][Slot(l, shelf, pos)]
  }

  function EntryAt(l: Layout, rows: seq<seq<Title>>, row: nat, shelf: nat, pos: nat): Entry
    requires Shaped(l, rows) && row < l.m && shelf < l.n && pos < l.k
  {
    Entry(TitleAt(l, rows, row, shelf, pos), row, shelf, pos)
  }

  ghost predicate SortedShelves(l: Layout, rows: seq<seq<Title>>)
    requires Shaped(l, rows)
  {
    forall r, s, p, q :: 0 <= r < l.m && 0 <= s < l.n && 0 <= p < q < l.k ==>
      StrLe(TitleAt(l, rows, r, s, p), TitleAt(l, rows, r, s, q))
  }

  /** By title; equal titles by row, then shelf, then position on the shelf. */
  predicate Before(a: Entry, b: Entry) {
    || Strcmp(a.title, b.title) < 0
    || (a.title == b.title && PlaceBefore(a, b))
  }

  predicate PlaceBefore(a: Entry, b: Entry) {
    a.row < b.row || (a.row == b.row && (a.shelf < b.shelf || (a.shelf == b.shelf && a.pos < b.pos)))
  }

  lemma BeforeIsStrict(a: Entry, b: Entry)
    ensures !(Before(a, b) && Before(b, a))
    ensures Before(a, b) || Before(b, a) || a == b
  {
    StrcmpFlips(a.title, b.title);
    StrcmpZeroIsEquality(a.title, b.title);
  }

  lemma BeforeIsTransitive(a: Entry, b: Entry, c: Entry)
    requires Before(a, b) && Before(b, c)
    ensures Before(a, c)
  {
    StrcmpZeroIsEquality(a.title, b.title);
    StrcmpZeroIsEquality(b.title, c.title);
    if Strcmp(a.title, b.title) < 0 && Strcmp(b.title, c.title) < 0 {
      StrLeTransitive(a.title, b.title, c.title);
      StrcmpZeroIsEquality(a.title, c.title);
      StrcmpFlips(a.title, b.title);
    }
  }

  ghost predicate IsEntry(l: Layout, rows: seq<seq<Title>>, e: Entry)
    requires Shaped(l, rows)
  {
    e.row < l.m && e.shelf < l.n && e.pos < l.k && e == EntryAt(l, rows, e.row, e.shelf, e.pos)
  }

  ghost predicate Ordered(out: seq<Entry>) {
    forall i, j :: 0 <= i < j < |out| ==> Before(out[i], out[j])
  }

  /** Every title once, in order. */
  ghost predicate IsCatalogue(l: Layout, rows: seq<seq<Title>>, out: seq<Entry>)
    requires Shaped(l, rows)
  {
    Ordered(out) && forall e :: e in out <==> IsEntry(l, rows, e)
  }

  /** Later lines never have a smaller title; equal titles go to the lowest row, then shelf, then position. */
  lemma CatalogueOrder(l: Layout, rows: seq<seq<Title>>, out: seq<Entry>, i: nat, j: nat)
    requires Shaped(l, rows) && IsCatalogue(l, rows, out) && i < j < |out|
    ensures Strcmp(out[i].title, out[j].title) <= 0
    ensures out[i].title == out[j].title && out[i].row >= out[j].row ==>
              out[i].row == out[j].row && out[i].shelf <= out[j].shelf
    ensures out[i].title == out[j].title && out[i].row == out[j].row && out[i].shelf == out[j].shelf ==>
              out[i].pos < out[j].pos
  {
    hide IsEntry;
    assert Before(out[i], out[j]);
    StrcmpZeroIsEquality(out[i].title, out[j].title);
  }

  lemma TailMembers(out: seq<Entry>, e: Entry)
    requires Ordered(out) && out != []
    ensures e in out[1..] <==> e in out && e != out[0]
  {
    assert out == [out[0]] + out[1..];
    if e in out[1..] {
      BeforeIsStrict(out[0], e);
    }
  }

  lemma HasMember(out: seq<Entry>)
    requires out != []
    ensures exists e :: e in out
  {
    assert out[0] in out;
  }

  lemma {:induction false} OrderFixesSequence(x: seq<Entry>, y: seq<Entry>)
    requires Ordered(x) && Ordered(y) && forall e :: e in x <==> e in y
    ensures x == y
    decreases |x|
  {
    if x == [] {
      if y != [] {
        HasMember(y);
      }
    } else {
      assert x[0] in y && y != [];
      assert y[0] in x;
      BeforeIsStrict(x[0], y[0]);
      assert x[0] == y[0];
      forall e
        ensures e in x[1..] <==> e in y[1..]
      {
        TailMembers(x, e);
        TailMembers(y, e);
      }
      OrderFixesSequence(x[1..], y[1..]);
    }
  }

  /** There is one catalogue. */
  lemma CatalogueIsUnique(l: Layout, rows: seq<seq<Title>>, x: seq<Entry>, y: seq<Entry>)
    requires Shaped(l, rows) && IsCatalogue(l, rows, x) && IsCatalogue(l, rows, y)
    ensures x == y
  {
    OrderFixesSequence(x, y);
  }
}
