/** The stack of locked cells as a value: each row is the set of its occupied columns.
    What `block_collides`, `block_add`, `grid_check` and `grid_shift` compute, and the exact
    meaning of the row-clearing scan of main.c. */
module Board {
  import opened Layout
  import opened Gamma
  import opened Survivors

  type Row = set<int>
  type Grid = seq<Row>

  /** The columns tested by `grid_check`: GRID_COLS - 1 of them, the ones on the screen. */
  const BOARD: set<int> := Columns(GRID_COLS - 1)

  predicate Below(n: int, j: int) {
    0 <= j < n
  }

  function Columns(n: nat): set<int> {
    set j | 0 <= j < n && Below(n, j)
  }

  lemma {:induction false} ColumnsSize(n: nat)
    ensures |Columns(n)| == n
  {
    if n > 0 {
      ColumnsSize(n - 1);
      assert Columns(n) == Columns(n - 1) + {n - 1};
    }
  }

  predicate Full(r: Row) {
    BOARD <= r
  }

  // Rows below the floor read as empty.
  function RowAt(g: Grid, r: int): Row {
    if 0 <= r < |g| then g[r] else {}
  }

  /** Row i of the piece, shifted to its column. */
  function BlockRow(b: Block, i: nat): Row
    requires i < BLOCK_HEIGHT
  {
    set j | j in GammaCols(b.ori, i) :: j + b.y
  }

  predicate Collides(b: Block, g: Grid) {
    exists i | 0 <= i < BLOCK_HEIGHT :: BlockRow(b, i) * RowAt(g, b.x + i + 1) != {}
  }

  /** The piece covers no occupied cell. */
  predicate Free(b: Block, g: Grid) {
    forall i | 0 <= i < BLOCK_HEIGHT :: BlockRow(b, i) * RowAt(g, b.x + i) == {}
  }

  /** The cell in grid row i and column j is one of the piece's four. */
  ghost predicate InBlock(b: Block, i: int, j: int) {
    0 <= i - b.x < BLOCK_HEIGHT && j in BlockRow(b, i - b.x)
  }

  function Added(b: Block, g: Grid): (h: Grid)
    ensures |h| == |g|
  {
    seq(|g|, r requires 0 <= r < |g| => if b.x <= r < b.x + BLOCK_HEIGHT then g[r] + BlockRow(b, r - b.x) else g[r])
  }

  /** Nearest empty row at or above s, or the top row when there is none. */
  function Gap(g: Grid, s: nat): (k: nat)
    requires s < |g|
    ensures k <= s && (k == 0 || g[k] == {})
    ensures forall r :: k < r <= s ==> g[r] != {}
  {
    if s == 0 || g[s] == {} then s else Gap(g, s - 1)
  }

  /** Row s is deleted and the row at the nearest gap is duplicated. */
  function Shifted(g: Grid, s: nat): (h: Grid)
    requires s < |g|
    ensures |h| == |g|
  {
    var k := Gap(g, s);
    g[..k + 1] + g[k..s] + g[s + 1..]
  }

  datatype Scan = Scan(grid: Grid, cleared: nat)

  /** The scan of main.c from row i up to row 0. */
  function ScanFrom(g: Grid, i: int): (s: Scan)
    requires -1 <= i < |g|
    ensures |s.grid| == |g| && s.cleared <= i + 1
    decreases i + 1
  {
    if i < 0 then Scan(g, 0)
    else if Full(g[i]) then
      var s := ScanFrom(Shifted(g, i), i - 1);
      Scan(s.grid, s.cleared + 1)
    else ScanFrom(g, i - 1)
  }

  function ScanAll(g: Grid): Scan {
    ScanFrom(g, |g| - 1)
  }

  // ---------------------------------------------------------------- full rows and collisions

  /** A row is full exactly when its thirty visible cells are set, whatever the hidden column holds. */
  lemma FullExactly(r: Row)
    ensures Full(r) <==> |r * BOARD| == 30
    ensures Full(r) <==> Full(r * BOARD)
  {
    ColumnsSize(GRID_COLS - 1);
    if BOARD <= r {
      assert r * BOARD == BOARD;
    } else if |r * BOARD| == 30 {
      SameSize(r * BOARD, BOARD);
    }
  }

  lemma SameSize(a: set<int>, b: set<int>)
    requires a <= b && |a| == |b|
    ensures a == b
  {
    assert b == a + (b - a);
  }

  /** Adding cells never makes a full row incomplete. */
  lemma FullStays(b: Block, g: Grid, i: nat)
    requires i < |g| && Full(g[i])
    ensures Full(Added(b, g)[i])
  {
    hide BlockRow;
  }

  /** The piece is free exactly when none of its four cells is occupied. */
  lemma FreeExactly(b: Block, g: Grid)
    ensures Free(b, g) <==> forall i, j :: InBlock(b, i, j) ==> j !in RowAt(g, i)
  {
    hide BlockRow, RowAt;
    if Free(b, g) {
      forall i, j | InBlock(b, i, j) ensures j !in RowAt(g, i) {
        var s := BlockRow(b, i - b.x) * RowAt(g, b.x + (i - b.x));
        assert j in RowAt(g, i) ==> j in s;
      }
    } else {
      var k :| 0 <= k < BLOCK_HEIGHT && BlockRow(b, k) * RowAt(g, b.x + k) != {};
      var j := Member(BlockRow(b, k) * RowAt(g, b.x + k));
      assert InBlock(b, b.x + k, j);
    }
  }

  /** It collides exactly when one of its cells would be occupied one row further down. */
  lemma CollidesExactly(b: Block, g: Grid)
    ensures Collides(b, g) <==> exists i, j :: InBlock(b, i, j) && j in RowAt(g, i + 1)
  {
    hide BlockRow, RowAt;
    if Collides(b, g) {
      var k :| 0 <= k < BLOCK_HEIGHT && BlockRow(b, k) * RowAt(g, b.x + k + 1) != {};
      var j := Member(BlockRow(b, k) * RowAt(g, b.x + k + 1));
      assert InBlock(b, b.x + k, j);
    } else {
      forall i, j | InBlock(b, i, j) ensures j !in RowAt(g, i + 1) {
        var s := BlockRow(b, i - b.x) * RowAt(g, b.x + (i - b.x) + 1);
        assert j in RowAt(g, i + 1) ==> j in s;
      }
    }
  }

  // ---------------------------------------------------------------- the shift

  /** No empty row lies below an occupied one. */
  ghost predicate GapFree(g: Grid) {
    forall i, j :: 0 <= i < j < |g| && g[j] == {} ==> g[i] == {}
  }

  /** With a gap above, the early exit deletes row s and inserts an empty row at that gap. */
  lemma ShiftInsertsAtGap(g: Grid, s: nat)
    requires s < |g| && g[Gap(g, s)] == {}
    ensures var k := Gap(g, s); var rest := g[..s] + g[s + 1..];
            Shifted(g, s) == if k == s then g else rest[..k] + [{}] + rest[k..]
  {
    var k := Gap(g, s);
    if k < s {
      var rest := g[..s] + g[s + 1..];
      assert rest[..k] == g[..k];
      assert rest[k..] == g[k..s] + g[s + 1..];
      assert g[..k + 1] == g[..k] + [{}];
    }
  }

  /** On a gap-free stack the early exit is "delete row s, prepend a copy of the top row". */
  lemma ShiftDeletesRow(g: Grid, s: nat)
    requires s < |g| && GapFree(g)
    ensures Shifted(g, s) == [g[0]] + g[..s] + g[s + 1..]
    ensures GapFree(Shifted(g, s)) && Shifted(g, s)[0] == g[0]
  {
    var k := Gap(g, s);
    assert k == 0 || forall i :: 0 <= i <= k ==> g[i] == {};
    forall r | 0 <= r < |g| ensures Shifted(g, s)[r] == ([g[0]] + g[..s] + g[s + 1..])[r] {
    }
    ShiftKeepsGapFree(g, s);
  }

  lemma ShiftKeepsGapFree(g: Grid, s: nat)
    requires s < |g| && GapFree(g)
    ensures GapFree(Shifted(g, s))
  {
    var k, h := Gap(g, s), Shifted(g, s);
    assert forall r :: 0 <= r < |g| ==> h[r] == if k < r <= s then g[r - 1] else g[r];
  }

  lemma {:induction false} ScanKeepsGapFree(g: Grid, i: int)
    requires -1 <= i < |g| && GapFree(g)
    ensures GapFree(ScanFrom(g, i).grid)
    decreases i + 1
  {
    if i >= 0 {
      if Full(g[i]) {
        ShiftKeepsGapFree(g, i);
        ScanKeepsGapFree(Shifted(g, i), i - 1);
      } else {
        ScanKeepsGapFree(g, i - 1);
      }
    }
  }

  // ---------------------------------------------------------------- the scan

  function Copies(n: nat, t: Row): Grid {
    seq(n, _ => t)
  }

  function Empties(n: nat): Grid {
    Copies(n, {})
  }

  lemma {:induction false} KeptBelow(t: Row, u: Grid, n: nat)
    requires n <= |u| && !Full(t)
    ensures Kept(Full, [t] + u, n + 1) == [t] + Kept(Full, u, n)
  {
    hide Full, Kept;
    var v := [t] + u;
    KeptNothing(Full, u);
    KeptNothing(Full, v);
    if n == 0 {
      KeptStays(Full, v, 1);
    } else if !Full(u[n - 1]) {
      KeptBelow(t, u, n - 1);
      KeptStays(Full, v, n + 1);
      KeptStays(Full, u, n);
    } else if n == 1 {
      KeptDrops(Full, v, 2);
      KeptOne(Full, u);
    } else {
      KeptBelow(t, u, n - 2);
      KeptDrops(Full, v, n + 1);
      KeptDrops(Full, u, n);
    }
  }

  lemma NotFull()
    ensures !Full({})
  {
    assert 0 in BOARD;
  }

  /** The survivors of rows 0..i on top of the rows below, under copies of the top row. */
  function Settled(h: Grid, i: int): Scan
    requires 0 <= i < |h|
  {
    var k := Kept(Full, h, i + 1);
    Scan(Copies(i + 1 - |k|, h[0]) + k + h[i + 1..], i + 1 - |k|)
  }

  lemma SettledKeep(h: Grid, i: int)
    requires 0 < i < |h| && !Full(h[i])
    ensures Settled(h, i) == Settled(h, i - 1)
  {
    assert [h[i]] + h[i + 1..] == h[i..];
  }

  lemma Regroup(e: Grid, a: Row, k: Grid, r: Row, z: Grid)
    ensures e + ([a] + k) + ([r] + z) == (e + [a]) + (k + [r]) + z
  {
  }

  lemma SettledDrop(h: Grid, i: int)
    requires 0 < i < |h| && Full(h[i]) && !Full(h[0])
    ensures var s := Settled([h[0]] + h[..i] + h[i + 1..], i - 1);
            Settled(h, i) == Scan(s.grid, s.cleared + 1)
  {
    hide Full, Kept;
    var t := h[0];
    var h', k := [t] + h[..i] + h[i + 1..], Kept(Full, h, i - 1);
    KeptPrefix(Full, h', [t] + h, i);
    KeptBelow(t, h, i - 1);
    KeptDrops(Full, h, i + 1);
    var m := i - 1 - |k|;
    assert h'[i..] == [h[i - 1]] + h[i + 1..];
    assert Copies(m, t) + [t] == Copies(m + 1, t);
    Regroup(Copies(m, t), t, k, h[i - 1], h[i + 1..]);
  }

  lemma {:induction false} ScanPrefix(h: Grid, i: int)
    requires 0 <= i < |h| && GapFree(h) && !Full(h[0])
    ensures ScanFrom(h, i) == Settled(h, i)
    decreases i
  {
    if i == 0 {
      assert Copies(0, h[0]) + [h[0]] + h[1..] == h;
    } else if !Full(h[i]) {
      ScanPrefix(h, i - 1);
      SettledKeep(h, i);
    } else {
      ShiftDeletesRow(h, i);
      ScanPrefix(Shifted(h, i), i - 1);
      SettledDrop(h, i);
    }
  }

  /** The scan, exactly: the survivors settle at the bottom under as many copies of the top row as rows
      were dropped, and the score rises by that number. */
  lemma ScanMeaning(g: Grid)
    requires |g| > 0 && GapFree(g) && !Full(g[0])
    ensures var k := Survive(Full, g); ScanAll(g) == Scan(Copies(|g| - |k|, g[0]) + k, |g| - |k|)
  {
    ScanPrefix(g, |g| - 1);
  }

  lemma ShiftedRows(g: Grid, s: nat)
    requires s < |g|
    ensures forall r {:trigger Shifted(g, s)[r]} :: 0 <= r < |g| ==>
              Shifted(g, s)[r] == if Gap(g, s) < r <= s then g[r - 1] else g[r]
  {
  }

  // h is g with row i gone and row k duplicated: row k is empty or the top row.
  ghost predicate Slid(g: Grid, h: Grid, k: nat, i: nat) {
    && k < i < |g| == |h| && (k == 0 || !Full(g[k]))
    && (forall r {:trigger h[r]} :: 0 <= r < |g| ==> h[r] == if k < r <= i then g[r - 1] else g[r])
  }

  lemma ShiftSlides(g: Grid, i: nat)
    requires 0 < i < |g| && Full(g[i])
    ensures Slid(g, Shifted(g, i), Gap(g, i), i)
  {
    hide Shifted, Full;
    NotFull();
    ShiftedRows(g, i);
    assert Gap(g, i) < i;
  }

  // Sliding neither joins nor separates full rows above the one that falls into the gap.
  lemma SlidJoinsNothing(g: Grid, h: Grid, k: nat, i: nat)
    requires Slid(g, h, k, i) && Adjacent(Full, h, i)
    ensures Full(g[0]) || Adjacent(Full, g, i)
  {
    hide Full;
    var j :| 0 < j < i && Full(h[j - 1]) && Full(h[j]);
    if j > k + 1 {
      var m := j - 1;
      assert Full(g[m - 1]) && Full(g[m]);
    } else if j <= k {
      assert Full(g[j - 1]) && Full(g[j]);
    }
  }

  lemma SlidSeparatesNothing(g: Grid, h: Grid, k: nat, i: nat)
    requires Slid(g, h, k, i) && Adjacent(Full, g, i)
    ensures Adjacent(Full, h, i) || Full(g[i - 1])
  {
    hide Full;
    var j :| 0 < j < i && Full(g[j - 1]) && Full(g[j]);
    if j <= k {
      assert Full(h[j - 1]) && Full(h[j]);
    } else if j + 1 < i {
      var m := j + 1;
      assert Full(h[m - 1]) && Full(h[m]);
    }
  }

  lemma ShiftAdjacent(g: Grid, i: nat)
    requires 0 < i < |g| && Full(g[i])
    ensures var h := Shifted(g, i);
            && h[0] == g[0] && h[i] == g[i - 1] && h[i + 1..] == g[i + 1..]
            && (Adjacent(Full, h, i) ==> Full(g[0]) || Adjacent(Full, g, i))
            && (Adjacent(Full, g, i) ==> Adjacent(Full, h, i) || Full(g[i - 1]))
  {
    hide Full, Adjacent, Shifted;
    var k, h := Gap(g, i), Shifted(g, i);
    ShiftSlides(g, i);
    if Adjacent(Full, h, i) {
      SlidJoinsNothing(g, h, k, i);
    }
    if Adjacent(Full, g, i) {
      SlidSeparatesNothing(g, h, k, i);
    }
  }

  lemma {:induction false} ScanLeaves(g: Grid, i: int)
    requires -1 <= i < |g|
    ensures SomeFull(Full, ScanFrom(g, i).grid)
            <==> (i >= 0 && Full(g[0])) || Adjacent(Full, g, i + 1) || SomeFull(Full, g[i + 1..])
    decreases i + 1
  {
    hide Full, SomeFull, Adjacent;
    if i < 0 {
      NoneFull(Full, g);
      assert g[0..] == g;
    } else {
      AdjacentMore(Full, g, i + 1);
      SomeFullBelow(g, i);
      if !Full(g[i]) {
        ScanLeaves(g, i - 1);
        if i == 0 {
          NoneFull(Full, g);
        }
      } else {
        var h := Shifted(g, i);
        ScanLeaves(h, i - 1);
        SomeFullBelow(h, i);
        if i > 0 {
          ShiftAdjacent(g, i);
        } else {
          ShiftedRows(g, i);
          assert h == g;
        }
      }
    }
  }

  lemma SomeFullBelow(g: Grid, i: nat)
    requires i < |g|
    ensures SomeFull(Full, g[i..]) <==> Full(g[i]) || SomeFull(Full, g[i + 1..])
  {
    hide Full;
    var u, v := g[i..], g[i + 1..];
    assert u == [g[i]] + v;
    if SomeFull(Full, v) {
      var r :| 0 <= r < |v| && Full(v[r]);
      assert u[r + 1] == v[r];
    }
    if Full(g[i]) {
      assert u[0] == g[i];
    }
  }

  /** After the scan of any grid a full row is left exactly when two adjacent rows or the top row were
      full. */
  lemma ScanLeavesFullRowExactly(g: Grid)
    requires g != []
    ensures SomeFull(Full, ScanAll(g).grid) <==> Full(g[0]) || Adjacent(Full, g, |g|)
  {
    hide ScanFrom, Full, Adjacent;
    ScanLeaves(g, |g| - 1);
  }

  lemma {:induction false} ScanNothing(g: Grid, i: int)
    requires -1 <= i < |g| && forall r :: 0 <= r <= i ==> !Full(g[r])
    ensures ScanFrom(g, i) == Scan(g, 0)
    decreases i + 1
  {
    if i >= 0 {
      ScanNothing(g, i - 1);
    }
  }

  lemma {:induction false} NothingCleared(g: Grid, i: int)
    requires -1 <= i < |g| && ScanFrom(g, i).cleared == 0
    ensures ScanFrom(g, i).grid == g
    decreases i + 1
  {
    if i >= 0 {
      NothingCleared(g, i - 1);
    }
  }

  /** Nothing is cleared in rows 0..n exactly when none of them is full. */
  lemma ClearsNothingExactly(g: Grid, n: nat)
    requires n <= |g|
    ensures ScanFrom(g, n - 1).cleared == 0 <==> !SomeFull(Full, g[..n])
  {
    hide Full;
    if !SomeFull(Full, g[..n]) {
      assert forall r :: 0 <= r < n ==> g[r] == g[..n][r];
      ScanNothing(g, n - 1);
    } else if ScanFrom(g, n - 1).cleared == 0 {
      var r :| 0 <= r < n && Full(g[..n][r]);
      NoneFullBelow(g, n - 1, r);
    }
  }

  lemma {:induction false} NoneFullBelow(g: Grid, i: int, r: nat)
    requires -1 <= i < |g| && ScanFrom(g, i).cleared == 0 && r <= i
    ensures !Full(g[r])
    decreases i + 1
  {
    if r < i {
      NoneFullBelow(g, i - 1, r);
    }
  }

  // ---------------------------------------------------------------- counting cells

  /** Occupied cells of the first n rows in the columns w. */
  function CellsTo(g: Grid, n: nat, w: set<int>): nat
    requires n <= |g|
  {
    if n == 0 then 0 else CellsTo(g, n - 1, w) + |g[n - 1] * w|
  }

  function Cells(g: Grid, w: set<int>): nat {
    CellsTo(g, |g|, w)
  }

  // Rows i..j are the same in both grids: they contribute the same amount.
  lemma {:induction false} SameRows(g: Grid, h: Grid, i: nat, j: nat, w: set<int>)
    requires i <= j <= |g| && j <= |h|
    requires forall r :: i <= r < j ==> g[r] == h[r]
    ensures CellsTo(g, j, w) - CellsTo(g, i, w) == CellsTo(h, j, w) - CellsTo(h, i, w)
    decreases j
  {
    if i < j {
      SameRows(g, h, i, j - 1, w);
    }
  }

  // Rows i..j of g appear one row lower in h.
  lemma {:induction false} SlidRows(g: Grid, h: Grid, i: nat, j: nat, w: set<int>)
    requires i <= j <= |g| && j < |h|
    requires forall r :: i < r <= j ==> h[r] == g[r - 1]
    ensures CellsTo(g, j, w) - CellsTo(g, i, w) == CellsTo(h, j + 1, w) - CellsTo(h, i + 1, w)
    decreases j
  {
    if i < j {
      SlidRows(g, h, i, j - 1, w);
    }
  }

  /** The shift trades row s for a copy of the row at the gap. */
  lemma ShiftCells(g: Grid, s: nat, w: set<int>)
    requires s < |g|
    ensures Cells(Shifted(g, s), w) + |g[s] * w| == Cells(g, w) + |g[Gap(g, s)] * w|
  {
    var k, h := Gap(g, s), Shifted(g, s);
    RotatedCells(g, h, k, s, w);
  }

  lemma RotatedCells(g: Grid, h: Grid, k: nat, s: nat, w: set<int>)
    requires k <= s < |g| == |h|
    requires forall r :: 0 <= r <= k || s < r < |g| ==> h[r] == g[r]
    requires forall r :: k < r <= s ==> h[r] == g[r - 1]
    ensures Cells(h, w) + |g[s] * w| == Cells(g, w) + |g[k] * w|
  {
    SameRows(g, h, 0, k + 1, w);
    SlidRows(g, h, k, s, w);
    SameRows(g, h, s + 1, |g|, w);
    assert CellsTo(g, k + 1, w) == CellsTo(g, k, w) + |g[k] * w|;
    assert CellsTo(g, s + 1, w) == CellsTo(g, s, w) + |g[s] * w|;
  }

  lemma SubsetSize(a: set<int>, b: set<int>)
    requires a <= b
    ensures |a| <= |b|
  {
    assert b == a + (b - a);
  }

  lemma DropCells(g: Grid, i: nat, w: set<int>)
    requires i < |g| && g[0] == {} && Full(g[i])
    ensures Shifted(g, i)[0] == {}
    ensures Cells(Shifted(g, i), w) + |BOARD * w| <= Cells(g, w)
    ensures w <= BOARD ==> Cells(Shifted(g, i), w) + |BOARD * w| == Cells(g, w)
  {
    ShiftCells(g, i, w);
    assert g[Gap(g, i)] * w == {};
    SubsetSize(BOARD * w, g[i] * w);
    assert w <= BOARD ==> g[i] * w == BOARD * w;
  }

  // `after` accounts for `before` with c rows of n cells gone; n of each exactly when `exact`.
  ghost predicate Accounted(before: nat, after: nat, n: nat, c: nat, exact: bool) {
    after + n * c <= before && (exact ==> after + n * c == before)
  }

  lemma AccountedStep(before: nat, middle: nat, after: nat, n: nat, c: nat, exact: bool)
    requires Accounted(before, middle, n, 1, exact) && Accounted(middle, after, n, c, exact)
    ensures Accounted(before, after, n, c + 1, exact)
  {
    assert n * (c + 1) == n * c + n;
  }

  /** With an empty top row, every cleared row takes the board's columns with it. */
  lemma {:induction false} ScanCells(g: Grid, i: int, w: set<int>)
    requires -1 <= i < |g| && g != [] && g[0] == {}
    ensures var s := ScanFrom(g, i);
            s.grid[0] == {} && Accounted(Cells(g, w), Cells(s.grid, w), |BOARD * w|, s.cleared, w <= BOARD)
    decreases i + 1
  {
    if i >= 0 {
      if Full(g[i]) {
        var h := Shifted(g, i);
        DropCells(g, i, w);
        ScanCells(h, i - 1, w);
        var s := ScanFrom(h, i - 1);
        AccountedStep(Cells(g, w), Cells(h, w), Cells(s.grid, w), |BOARD * w|, s.cleared, w <= BOARD);
      } else {
        ScanCells(g, i - 1, w);
      }
    }
  }

  /** How many rows at the top are occupied, down to the first empty one. */
  function Solid(g: Grid): (m: nat)
    ensures m <= |g| && (m < |g| ==> g[m] == {}) && forall r :: 0 <= r < m ==> g[r] != {}
  {
    if g == [] || g[0] == {} then 0 else 1 + Solid(g[1..])
  }

  lemma SolidUnique(g: Grid, m: nat)
    requires m <= |g| && (m < |g| ==> g[m] == {}) && forall r :: 0 <= r < m ==> g[r] != {}
    ensures Solid(g) == m
  {
  }

  // Only rows 0..i matter for what is cleared there.
  lemma {:induction false} ClearedPrefix(g: Grid, h: Grid, i: int)
    requires -1 <= i < |g| && i < |h| && forall r :: 0 <= r <= i ==> g[r] == h[r]
    ensures ScanFrom(g, i).cleared == ScanFrom(h, i).cleared
    decreases i + 1
  {
    hide Full;
    if i >= 0 {
      if Full(g[i]) {
        GapPrefix(g, h, i);
        ShiftedRows(g, i);
        ShiftedRows(h, i);
        ClearedPrefix(Shifted(g, i), Shifted(h, i), i - 1);
      } else {
        ClearedPrefix(g, h, i - 1);
      }
    }
  }

  lemma {:induction false} GapPrefix(g: Grid, h: Grid, i: nat)
    requires i < |g| && i < |h| && forall r :: 0 <= r <= i ==> g[r] == h[r]
    ensures Gap(g, i) == Gap(h, i)
  {
    if i > 0 {
      GapPrefix(g, h, i - 1);
    }
  }

  lemma DropCellsExactly(g: Grid, i: nat, w: set<int>)
    requires i < |g| && Full(g[i]) && w <= BOARD
    ensures Cells(Shifted(g, i), w) + |w| == Cells(g, w) + |g[Gap(g, i)] * w|
  {
    ShiftCells(g, i, w);
    assert g[i] * w == w;
  }

  lemma OneMore(after: int, middle: int, before: int, lost: int, gained: int, c: int)
    requires after + lost * c == middle + gained * c && middle + lost == before + gained
    ensures after + lost * (c + 1) == before + gained * (c + 1)
  {
  }

  lemma OneMoreBelow(after: int, middle: int, before: int, lost: int, copied: int, c: int)
    requires after + lost * c == middle + copied && middle + lost == before
    ensures after + lost * (c + 1) == before + copied
  {
  }

  lemma ShiftSolid(g: Grid, i: nat)
    requires i < |g| && forall r :: 0 <= r <= i ==> g[r] != {}
    ensures var h := Shifted(g, i); Gap(g, i) == 0 && h[0] == g[0] && forall r :: 0 <= r < i ==> h[r] != {}
  {
    ShiftedRows(g, i);
    forall r | 0 <= r < i ensures Shifted(g, i)[r] != {} {
      assert g[r] != {} && (r > 0 ==> g[r - 1] != {});
    }
  }

  // Among occupied rows every cleared row brings in a copy of the top row.
  lemma {:induction false} SolidCells(g: Grid, i: int, w: set<int>)
    requires -1 <= i < |g| && g != [] && w <= BOARD && forall r :: 0 <= r <= i ==> g[r] != {}
    ensures var s := ScanFrom(g, i);
            Cells(s.grid, w) + |w| * s.cleared == Cells(g, w) + |g[0] * w| * s.cleared
    decreases i + 1
  {
    hide CellsTo, Cells, Shifted, Full;
    if i >= 0 {
      if Full(g[i]) {
        var h := Shifted(g, i);
        DropCellsExactly(g, i, w);
        ShiftSolid(g, i);
        SolidCells(h, i - 1, w);
        var s := ScanFrom(h, i - 1);
        OneMore(Cells(s.grid, w), Cells(h, w), Cells(g, w), |w|, |g[0] * w|, s.cleared);
      } else {
        SolidCells(g, i - 1, w);
      }
    }
  }

  // Below an empty row a cleared row brings in an empty one, and the top stays as it is.
  lemma DropBelowGap(g: Grid, i: nat, w: set<int>)
    requires Solid(g) < i < |g| && Full(g[i]) && w <= BOARD
    ensures var h := Shifted(g, i);
            && Cells(h, w) + |w| == Cells(g, w) && h[0] == g[0] && Solid(h) == Solid(g)
            && forall r :: 0 <= r <= Solid(g) ==> h[r] == g[r]
  {
    hide CellsTo, Full, Solid;
    var m, h := Solid(g), Shifted(g, i);
    ShiftedRows(g, i);
    DropCellsExactly(g, i, w);
    assert Gap(g, i) >= m;
    assert g[Gap(g, i)] * w == {};
    SolidUnique(h, m);
  }

  /** For any grid: every cleared row takes its visible cells away, and those among the occupied rows at
      the top bring in a copy of the top row. */
  lemma {:induction false} ScanCellsExactly(g: Grid, i: int, w: set<int>)
    requires Solid(g) - 1 <= i < |g| && g != [] && w <= BOARD
    ensures var s := ScanFrom(g, i);
            Cells(s.grid, w) + |w| * s.cleared
            == Cells(g, w) + |g[0] * w| * ScanFrom(g, Solid(g) - 1).cleared
    decreases i + 1
  {
    hide CellsTo, Cells, Shifted, Full, Solid;
    var m: int := Solid(g);
    if i == m - 1 {
      SolidCells(g, i, w);
    } else if Full(g[i]) {
      NotFull();
      var h := Shifted(g, i);
      DropBelowGap(g, i, w);
      ScanCellsExactly(h, i - 1, w);
      ClearedPrefix(g, h, m - 1);
      var s, copied := ScanFrom(h, i - 1), |g[0] * w| * ScanFrom(g, m - 1).cleared;
      OneMoreBelow(Cells(s.grid, w), Cells(h, w), Cells(g, w), |w|, copied, s.cleared);
    } else {
      ScanCellsExactly(g, i - 1, w);
    }
  }

  /** So the visible cells are accounted for exactly when the top row has no visible cell, or no row
      among the occupied ones at the top is full. */
  lemma ScanConservesExactly(g: Grid)
    requires g != []
    ensures var s := ScanAll(g);
            Cells(s.grid, BOARD) + |BOARD| * s.cleared == Cells(g, BOARD)
            <==> g[0] * BOARD == {} || !SomeFull(Full, g[..Solid(g)])
  {
    hide CellsTo, ScanFrom, SomeFull, Solid;
    ScanCellsExactly(g, |g| - 1, BOARD);
    ClearsNothingExactly(g, Solid(g));
    var a, c := |g[0] * BOARD|, ScanFrom(g, Solid(g) - 1).cleared;
    assert a * c == 0 <==> a == 0 || c == 0;
  }

  lemma RowSize(b: Block, i: nat)
    requires i < BLOCK_HEIGHT
    ensures |BlockRow(b, i)| == |GammaCols(b.ori, i)|
  {
    var s := GammaCols(b.ori, i);
    assert BlockRow(b, i) ==
      (if s == {} then {} else if s == {0} then {b.y} else if s == {2} then {b.y + 2}
       else if s == {0, 1} then {b.y, b.y + 1} else {b.y, b.y + 1, b.y + 2});
  }

  lemma UnionSize(r: Row, p: Row, w: set<int>)
    ensures |(r + p) * w| <= |r * w| + |p|
    ensures p <= w ==> (|(r + p) * w| == |r * w| + |p| <==> r * p == {})
  {
    var a, b := r * w, (p - r) * w;
    assert (r + p) * w == a + b && a * b == {};
    SubsetSize(b, p);
    if p <= w {
      if r * p == {} {
        assert b == p;
      } else if |b| == |p| {
        SameSize(b, p);
      }
    }
  }

  ghost predicate Inside(b: Block, w: set<int>) {
    forall i | 0 <= i < BLOCK_HEIGHT :: BlockRow(b, i) <= w
  }

  lemma LockedRow(b: Block, g: Grid, i: nat, w: set<int>)
    requires i < BLOCK_HEIGHT && 0 <= b.x && b.x + BLOCK_HEIGHT <= |g|
    ensures var was, now := |g[b.x + i] * w|, |Added(b, g)[b.x + i] * w|;
            && now <= was + |GammaCols(b.ori, i)|
            && (Inside(b, w) ==> (now == was + |GammaCols(b.ori, i)| <==> BlockRow(b, i) * g[b.x + i] == {}))
  {
    hide GammaCols, BlockRow;
    RowSize(b, i);
    UnionSize(g[b.x + i], BlockRow(b, i), w);
    assert BlockRow(b, i) * g[b.x + i] == g[b.x + i] * BlockRow(b, i);
  }

  lemma CellsOfThree(g: Grid, x: nat, w: set<int>)
    requires x + 3 <= |g|
    ensures CellsTo(g, x + 3, w) == CellsTo(g, x, w) + |g[x] * w| + |g[x + 1] * w| + |g[x + 2] * w|
  {
    assert CellsTo(g, x + 1, w) == CellsTo(g, x, w) + |g[x] * w|;
    assert CellsTo(g, x + 2, w) == CellsTo(g, x + 1, w) + |g[x + 1] * w|;
  }

  lemma ThreeRows(g: Grid, h: Grid, x: nat, w: set<int>)
    requires x + 3 <= |g| == |h|
    requires forall r :: 0 <= r < |g| && !(x <= r < x + 3) ==> g[r] == h[r]
    ensures Cells(h, w) - Cells(g, w) == |h[x] * w| - |g[x] * w| + |h[x + 1] * w| - |g[x + 1] * w|
                                         + |h[x + 2] * w| - |g[x + 2] * w|
  {
    SameRows(g, h, 0, x, w);
    SameRows(g, h, x + 3, |g|, w);
    CellsOfThree(g, x, w);
    CellsOfThree(h, x, w);
  }

  lemma PieceSize(ori: Ori)
    ensures |GammaCols(ori, 0)| + |GammaCols(ori, 1)| + |GammaCols(ori, 2)| == 4
  {
  }

  lemma FreeRows(b: Block, g: Grid)
    requires 0 <= b.x && b.x + BLOCK_HEIGHT <= |g|
    ensures Free(b, g) <==> BlockRow(b, 0) * g[b.x] == {} && BlockRow(b, 1) * g[b.x + 1] == {}
                            && BlockRow(b, 2) * g[b.x + 2] == {}
  {
    hide BlockRow;
    if Free(b, g) {
      assert RowAt(g, b.x + 0) == g[b.x] && RowAt(g, b.x + 1) == g[b.x + 1] && RowAt(g, b.x + 2) == g[b.x + 2];
    } else {
      var i :| 0 <= i < BLOCK_HEIGHT && BlockRow(b, i) * RowAt(g, b.x + i) != {};
      assert i == 0 || i == 1 || i == 2;
    }
  }

  /** Locking adds at most four cells; inside the counted columns exactly four if and only if the piece
      covers no occupied cell. */
  lemma AddedCells(b: Block, g: Grid, w: set<int>)
    requires 0 <= b.x && b.x + BLOCK_HEIGHT <= |g|
    ensures Cells(Added(b, g), w) <= Cells(g, w) + 4
    ensures Inside(b, w) ==> (Cells(Added(b, g), w) == Cells(g, w) + 4 <==> Free(b, g))
  {
    hide CellsTo, Free, Inside, Added, BlockRow;
    LockedRow(b, g, 0, w);
    LockedRow(b, g, 1, w);
    LockedRow(b, g, 2, w);
    PieceSize(b.ori);
    AddedElsewhere(b, g);
    ThreeRows(g, Added(b, g), b.x, w);
    FreeRows(b, g);
  }

  lemma AddedElsewhere(b: Block, g: Grid)
    ensures forall r :: 0 <= r < |g| && !(b.x <= r < b.x + 3) ==> g[r] == Added(b, g)[r]
  {
    hide BlockRow;
  }
}
