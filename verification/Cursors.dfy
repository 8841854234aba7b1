/** The flattened cursor array of the merge. */
module Cursors {

  /** `cur_idx[row * m + shelve]`. */
  function Cursor(m: nat, row: nat, shelf: nat): nat {
    row * m + shelf
  }

  /** Each shelf has a cursor of its own, inside the array of `m * n`. */
  ghost predicate CursorsApart(m: nat, n: nat) {
    && (forall r, s :: 0 <= r < m && 0 <= s < n ==> Cursor(m, r, s) < m * n)
    && (forall r, s, r', s' :: 0 <= r < m && 0 <= s < n && 0 <= r' < m && 0 <= s' < n ==>
          Cursor(m, r, s) == Cursor(m, r', s') ==> r == r' && s == s')
  }

  lemma MultiplyKeepsOrder(a: nat, b: nat, c: nat)
    requires a <= b
    ensures a * c <= b * c
  {}

  lemma NextRow(m: nat, r: nat)
    ensures (r + 1) * m == r * m + m
  {}

  lemma LaterRowIsLater(m: nat, r: nat, s: nat, r': nat, s': nat)
    requires s < m && s' < m && r < r'
    ensures Cursor(m, r, s) < Cursor(m, r', s')
  {
    MultiplyKeepsOrder(r + 1, r', m);
    NextRow(m, r);
  }

  lemma SquareCursors(m: nat, r: nat, s: nat, r': nat, s': nat)
    requires r < m && s < m && r' < m && s' < m
    ensures Cursor(m, r, s) < m * m
    ensures Cursor(m, r, s) == Cursor(m, r', s') ==> r == r' && s == s'
  {
    MultiplyKeepsOrder(r + 1, m, m);
    NextRow(m, r);
    if r < r' {
      LaterRowIsLater(m, r, s, r', s');
    } else if r' < r {
      LaterRowIsLater(m, r', s', r, s);
    }
  }

  lemma SquareIsApart(m: nat)
    ensures CursorsApart(m, m)
  {
    forall r, s, r', s' | 0 <= r < m && 0 <= s < m && 0 <= r' < m && 0 <= s' < m
      ensures Cursor(m, r, s) < m * m
      ensures Cursor(m, r, s) == Cursor(m, r', s') ==> r == r' && s == s'
    {
      SquareCursors(m, r, s, r', s');
    }
  }

  lemma OneRowIsApart(n: nat)
    ensures CursorsApart(1, n)
  {}

  /** The cursors are sound exactly for square libraries and for a single row. */
  lemma CursorsApartExactlyWhen(m: nat, n: nat)
    requires m >= 1 && n >= 1
    ensures CursorsApart(m, n) <==> m == n || m == 1
  {
    if m == n {
      SquareIsApart(m);
    } else if m == 1 {
      OneRowIsApart(n);
    } else if m > n {
      var row, shelf: nat := m - 1, n - 1;
      LastCursorIsOutside(m, n);
      assert Cursor(m, row, shelf) >= m * n;
    } else {
      assert Cursor(m, 0, m) == Cursor(m, 1, 0);
    }
  }

  lemma LastCursorIsOutside(m: nat, n: nat)
    requires m > n >= 1
    ensures Cursor(m, m - 1, n - 1) >= m * n
  {
    MultiplyKeepsOrder(n, m - 1, m);
    assert (m - 1) * m == m * (m - 1) && n * m == m * n;
  }

  /** Every place of the array is the cursor of some shelf. */
  lemma ShelfOfCursor(m: nat, n: nat, i: nat) returns (r: nat, s: nat)
    requires (m == n || m == 1) && i < m * n
    ensures r < m && s < n && Cursor(m, r, s) == i
  {
    if m == 1 {
      r, s := 0, i;
    } else {
      r, s := i / m, i % m;
      assert i == m * (i / m) + i % m;
      if r >= m {
        MultiplyKeepsOrder(m, r, m);
      }
      assert r * m == m * r;
    }
  }

  function Sum(c: seq<int>): int {
    if c == [] then 0 else c[0] + Sum(c[1..])
  }

  lemma {:induction false} SumAfterAdvance(c: seq<int>, i: nat)
    requires i < |c|
    ensures Sum(c[i := c[i] + 1]) == Sum(c) + 1
    decreases |c|
  {
    var d := c[i := c[i] + 1];
    if i == 0 {
      assert d[1..] == c[1..];
    } else {
      SumAfterAdvance(c[1..], i - 1);
      assert d[1..] == c[1..][i - 1 := c[1..][i - 1] + 1];
    }
  }

  lemma {:induction false} SumOfZeros(c: seq<int>)
    requires forall i :: 0 <= i < |c| ==> c[i] == 0
    ensures Sum(c) == 0
  {
    if c != [] {
      SumOfZeros(c[1..]);
    }
  }

  /** Cursors that stay within `k` add up to the full count exactly when every one is at `k`. */
  lemma {:induction false} FullSumExactlyWhen(c: seq<int>, k: nat)
    requires forall i :: 0 <= i < |c| ==> 0 <= c[i] <= k
    ensures Sum(c) <= |c| * k
    ensures Sum(c) == |c| * k <==> forall i :: 0 <= i < |c| ==> c[i] == k
    decreases |c|
  {
    if c != [] {
      FullSumExactlyWhen(c[1..], k);
      assert |c| * k == |c[1..]| * k + k;
      if Sum(c) == |c| * k {
        assert forall i :: 0 < i < |c| ==> c[i] == c[1..][i - 1];
      } else if c[0] == k {
        var i :| 0 <= i < |c[1..]| && c[1..][i] != k;
        assert c[i + 1] != k;
      }
    }
  }

  /** With more shelves than rows, cursors are shared and a run can never find a title for every line. */
  lemma SharedCursorsStarve(m: nat, n: nat, k: nat, c: seq<int>)
    requires 2 <= m < n && k >= 1 && |c| == m * n
    requires forall i :: 0 <= i < |c| ==> 0 <= c[i] <= k
    requires forall i :: 0 <= i < |c| && (forall r, s :: 0 <= r < m && 0 <= s < n ==> Cursor(m, r, s) != i) ==> c[i] == 0
    ensures Sum(c) < m * n * k
  {
    var last := m * n - 1;
    forall r, s | 0 <= r < m && 0 <= s < n
      ensures Cursor(m, r, s) < last
    {
      MultiplyKeepsOrder(r, m - 1, m);
      assert (m - 1) * (m + 1) <= (m - 1) * n by { MultiplyKeepsOrder(m + 1, n, m - 1); }
      assert (m - 1) * n == m * n - n && (m - 1) * (m + 1) == (m - 1) * m + (m - 1);
    }
    assert last >= 0 && c[last] == 0;
    FullSumExactlyWhen(c, k);
    assert |c| * k == m * n * k;
  }

  // Which shapes the merge can print at all.

  predicate MergeIsSound(m: nat, n: nat, k: nat) {
    m == n || m == 1 || m * n * k == 0
  }

  /** One round of the outer loop: every look-up lies in the array, and an open shelf's cursor moves on. */
  ghost predicate Advances(m: nat, n: nat, k: nat, c: seq<int>, c': seq<int>) {
    && |c| == m * n
    && (forall r, s :: 0 <= r < m && 0 <= s < n ==> Cursor(m, r, s) < m * n)
    && exists r, s :: 0 <= r < m && 0 <= s < n && Advanced(k, c, Cursor(m, r, s), c')
  }

  ghost predicate Advanced(k: nat, c: seq<int>, i: nat, c': seq<int>) {
    i < |c| && c[i] != k && c' == c[i := c[i] + 1]
  }

  ghost predicate MergeRun(m: nat, n: nat, k: nat, run: seq<seq<int>>) {
    && run != [] && |run[0]| == m * n && (forall i :: 0 <= i < m * n ==> run[0][i] == 0)
    && forall t :: 0 <= t < |run| - 1 ==> Advances(m, n, k, run[t], run[t + 1])
  }

  /** A round for every title, each of which finds one. */
  ghost predicate PrintsEverything(m: nat, n: nat, k: nat) {
    exists run :: MergeRun(m, n, k, run) && |run| == m * n * k + 1
  }

  ghost predicate Counted(m: nat, n: nat, k: nat, c: seq<int>, sum: nat) {
    && |c| == m * n && Sum(c) == sum
    && (forall i :: 0 <= i < |c| ==> 0 <= c[i] <= k)
    && forall i :: 0 <= i < |c| && (forall r, s :: 0 <= r < m && 0 <= s < n ==> Cursor(m, r, s) != i) ==> c[i] == 0
  }

  lemma {:induction false} RunCounts(m: nat, n: nat, k: nat, run: seq<seq<int>>, t: nat)
    requires MergeRun(m, n, k, run) && t < |run|
    ensures Counted(m, n, k, run[t], t)
  {
    if t == 0 {
      SumOfZeros(run[0]);
    } else {
      RunCounts(m, n, k, run, t - 1);
      assert Advances(m, n, k, run[t - 1], run[t - 1 + 1]);
      RoundCounts(m, n, k, run[t - 1], run[t], t - 1);
    }
  }

  lemma RoundCounts(m: nat, n: nat, k: nat, c: seq<int>, c': seq<int>, sum: nat)
    requires Counted(m, n, k, c, sum) && Advances(m, n, k, c, c')
    ensures Counted(m, n, k, c', sum + 1)
  {
    hide Cursor, Sum;
    var r, s :| 0 <= r < m && 0 <= s < n && Advanced(k, c, Cursor(m, r, s), c');
    SumAfterAdvance(c, Cursor(m, r, s));
  }

  lemma RunExtends(m: nat, n: nat, k: nat, run: seq<seq<int>>) returns (c': seq<int>)
    requires (m == n || m == 1) && MergeRun(m, n, k, run) && |run| <= m * n * k
    ensures MergeRun(m, n, k, run + [c'])
  {
    var t := |run| - 1;
    var c := run[t];
    RunCounts(m, n, k, run, t);
    FullSumExactlyWhen(c, k);
    var i :| 0 <= i < |c| && c[i] != k;
    var r, s := ShelfOfCursor(m, n, i);
    c' := c[i := c[i] + 1];
    assert Advanced(k, c, Cursor(m, r, s), c');
    if m == n { SquareIsApart(m); } else { OneRowIsApart(n); }
    assert Advances(m, n, k, c, c');
  }

  /** The merge can print all titles exactly for square libraries, single rows and empty libraries. */
  lemma PrintsEverythingExactlyWhen(m: nat, n: nat, k: nat)
    ensures PrintsEverything(m, n, k) <==> MergeIsSound(m, n, k)
  {
    if MergeIsSound(m, n, k) {
      var run: seq<seq<int>> := [seq(m * n, _ => 0)];
      while |run| <= m * n * k
        invariant MergeRun(m, n, k, run) && |run| <= m * n * k + 1
        decreases m * n * k + 1 - |run|
      {
        var c' := RunExtends(m, n, k, run);
        run := run + [c'];
      }
    } else if PrintsEverything(m, n, k) {
      var run :| MergeRun(m, n, k, run) && |run| == m * n * k + 1;
      UnsoundCannotPrint(m, n, k, run);
    }
  }

  lemma UnsoundCannotPrint(m: nat, n: nat, k: nat, run: seq<seq<int>>)
    requires !MergeIsSound(m, n, k) && MergeRun(m, n, k, run)
    ensures |run| != m * n * k + 1
  {
    AllPositive(m, n, k);
    if m > n {
      LastCursorIsOutside(m, n);
      FirstRoundLeavesArray(m, n, k, run);
    } else if |run| == m * n * k + 1 {
      RunCounts(m, n, k, run, |run| - 1);
      SharedCursorsStarve(m, n, k, run[|run| - 1]);
    }
  }

  lemma FirstRoundLeavesArray(m: nat, n: nat, k: nat, run: seq<seq<int>>)
    requires MergeRun(m, n, k, run) && m >= 1 && n >= 1 && Cursor(m, m - 1, n - 1) >= m * n
    ensures |run| == 1
  {
    hide Cursor;
    var row: nat, shelf: nat := m - 1, n - 1;
    assert |run| > 1 ==> Advances(m, n, k, run[0], run[0 + 1]);
    assert Cursor(m, row, shelf) >= m * n;
  }

  lemma AllPositive(m: nat, n: nat, k: nat)
    requires m * n * k != 0
    ensures m >= 1 && n >= 1 && k >= 1 && m * n * k >= 1
  {
    assert m * n >= 0;
  }
}
