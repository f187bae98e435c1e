/** The grid operations of tetris.c on the array of 32-bit rows, in place, and the row-clearing
    scan of main.c; each refines its counterpart on sets of columns. */
module GridOps {
  import opened Layout
  import opened Words
  import opened Gamma
  import opened Board

  /** The abstract stack held by the array. */
  ghost function Rows(grid: array<Word32>): (g: Grid)
    reads grid
    ensures |g| == grid.Length
    ensures forall r :: 0 <= r < |g| ==> g[r] == Cols(grid[r])
  {
    seq(grid.Length, r requires 0 <= r < grid.Length reads grid => Cols(grid[r]))
  }

  /** `pattern << y` stays below 2^31 for every column the game can reach, and its bits are the
      piece's columns. */
  lemma PieceWord(b: Block, i: nat)
    requires i < BLOCK_HEIGHT && 0 <= b.y <= GRID_COLS - 3
    ensures Shl(PATTERNS[b.ori][i], b.y) < 0x8000_0000
    ensures Cols(Shl(PATTERNS[b.ori][i], b.y)) == BlockRow(b, i)
  {
    hide Bit, Shl, Pow2, GammaCols;
    var v, y := PATTERNS[b.ori][i], b.y;
    GammaBits(b.ori, i);
    WordSizes();
    ShlFits(v, y, 3);
    Pow2Monotone(3 + y, 31);
    forall j: nat ensures j in Cols(Shl(v, y)) <==> j in BlockRow(b, i) {
      BitShl(v, y, j);
      if j in BlockRow(b, i) {
        assert j - y in GammaCols(b.ori, i);
      }
      if y <= j && Bit(v, j - y) {
        Width(v, 3, j - y);
        assert j - y in Cols(v);
      }
    }
  }

  method GridClear(grid: array<Word32>)
    modifies grid
    ensures Rows(grid) == Empties(grid.Length)
  {
    for i := 0 to grid.Length
      invariant forall r :: 0 <= r < i ==> grid[r] == 0
    {
      grid[i] := 0;
    }
    forall r | 0 <= r < grid.Length ensures Cols(grid[r]) == {} {
      ZeroIsEmpty(grid[r]);
    }
  }

  /** The row below the floor, which the last test can reach, reads as empty. */
  method BlockCollides(b: Block, grid: array<Word32>) returns (r: bool)
    requires grid.Length == GRID_ROWS
    requires 0 <= b.x <= GRID_ROWS - BLOCK_HEIGHT && 0 <= b.y <= GRID_COLS - 3
    ensures r <==> Collides(b, Rows(grid))
  {
    hide Bit, Shl, Cols, And, GammaCols, BlockRow;
    ghost var g := Rows(grid);
    for i := 0 to BLOCK_HEIGHT
      invariant forall k :: 0 <= k < i ==> BlockRow(b, k) * RowAt(g, b.x + k + 1) == {}
    {
      var piece := Shl(PATTERNS[b.ori][i], b.y);
      var row: Word32 := if b.x + i + 1 < GRID_ROWS then grid[b.x + i + 1] else 0;
      PieceWord(b, i);
      ColsAnd(piece, row);
      ZeroIsEmpty(0);
      assert Cols(row) == RowAt(g, b.x + i + 1);
      AndFits(piece, row);
      ZeroIsEmpty(And(piece, row));
      if And(piece, row) != 0 {
        return true;
      }
    }
    return false;
  }

  lemma {:induction false} AndFits(a: nat, b: nat)
    ensures And(a, b) <= b
  {
    if a != 0 || b != 0 {
      AndFits(a / 2, b / 2);
    }
  }

  method BlockAdd(b: Block, grid: array<Word32>)
    requires grid.Length == GRID_ROWS
    requires 0 <= b.x <= GRID_ROWS - BLOCK_HEIGHT && 0 <= b.y <= GRID_COLS - 3
    modifies grid
    ensures Rows(grid) == Added(b, old(Rows(grid)))
  {
    hide Bit, Shl, Cols, Or, GammaCols, BlockRow;
    for i := b.x to b.x + BLOCK_HEIGHT
      invariant forall r :: 0 <= r < grid.Length && !(b.x <= r < i) ==> grid[r] == old(grid[r])
      invariant forall r :: b.x <= r < i ==> Cols(grid[r]) == Cols(old(grid[r])) + BlockRow(b, r - b.x)
    {
      var piece := Shl(PATTERNS[b.ori][i - b.x], b.y);
      PieceWord(b, i - b.x);
      ColsOr(grid[i], piece);
      WordSizes();
      OrFits(grid[i], piece, 32);
      grid[i] := Or(grid[i], piece);
    }
  }

  // The loop of `grid_shift` stops at the nearest gap.
  lemma {:induction false} GapIs(g: Grid, s: nat, k: nat)
    requires k <= s < |g| && (k == 0 || g[k] == {})
    requires forall r :: k < r <= s ==> g[r] != {}
    ensures Gap(g, s) == k
  {
    if k < s {
      GapIs(g, s - 1, k);
    }
  }

  lemma ShiftedRows(g: Grid, h: Grid, s: nat)
    requires s < |g| == |h|
    requires forall r :: 0 <= r <= Gap(g, s) || s < r < |g| ==> h[r] == g[r]
    requires forall r :: Gap(g, s) < r <= s ==> h[r] == g[r - 1]
    ensures h == Shifted(g, s)
  {
  }

  method GridShift(grid: array<Word32>, start: nat)
    requires start < grid.Length
    modifies grid
    ensures Rows(grid) == Shifted(old(Rows(grid)), start)
  {
    hide Bit, Cols, Shifted, Gap;
    var i := start;
    while i > 0 && grid[i] != 0
      invariant 0 <= i <= start
      invariant forall r :: 0 <= r <= i || start < r < grid.Length ==> grid[r] == old(grid[r])
      invariant forall r :: i < r <= start ==> grid[r] == old(grid[r - 1]) && old(grid[r]) != 0
    {
      grid[i] := grid[i - 1];
      i := i - 1;
    }
    ghost var g := old(Rows(grid));
    forall r | 0 <= r < |g| ensures old(grid[r]) == 0 <==> g[r] == {} {
      ZeroIsEmpty(old(grid[r]));
    }
    GapIs(g, start, i);
    ShiftedRows(g, Rows(grid), start);
  }

  method GridCheck(grid: array<Word32>, idx: nat) returns (full: bool)
    requires idx < grid.Length
    ensures full <==> Full(Rows(grid)[idx])
  {
    var v := grid[idx];
    var res := And(v, 1);
    ghost var bits: Row := Cols(v);
    ShiftTest(v, 0);
    assert 0 in bits <==> Bit(v, 0);
    for i := 0 to GRID_COLS - 1
      invariant res == 0 || res == 1
      invariant res == 1 <==> 0 in bits && forall k :: 0 <= k < i ==> k in bits
    {
      ShiftTest(v, i);
      assert i in bits <==> Bit(v, i);
      res := And(res, And(Shr(v, i), 1));
    }
    full := res != 0;
    assert forall k :: k in BOARD <==> 0 <= k < GRID_COLS - 1;
  }

  /** The scan of main.c. */
  method ScanRows(grid: array<Word32>, score: nat) returns (total: nat)
    requires grid.Length == GRID_ROWS
    modifies grid
    ensures Rows(grid) == ScanAll(old(Rows(grid))).grid
    ensures total == score + ScanAll(old(Rows(grid))).cleared
  {
    hide Full, Shifted;
    total := score;
    var i := GRID_ROWS - 1;
    while i >= 0
      invariant -1 <= i < GRID_ROWS
      invariant ScanFrom(Rows(grid), i).grid == ScanAll(old(Rows(grid))).grid
      invariant total + ScanFrom(Rows(grid), i).cleared == score + ScanAll(old(Rows(grid))).cleared
    {
      var full := GridCheck(grid, i);
      if full {
        total := total + 1;
        GridShift(grid, i);
      }
      i := i - 1;
    }
  }
}
