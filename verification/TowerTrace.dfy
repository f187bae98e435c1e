/** A run from power-up that breaks the conservation law: every lock covers free visible cells, but the
    stack reaches the top row when the bottom row is completed, so the shift copies the top row. */
module TowerTrace {
  import opened Layout
  import opened Gamma
  import opened Survivors
  import opened Board
  import opened Rules
  import opened World
  import opened Controls
  import opened Traces

  /** The run reaches a stack without points by clean locks: four visible cells for each piece. */
  ghost predicate Stacked(ins: seq<Input>, g: Grid, k: nat) {
    Reaches(ins, Game(SPAWN, g, 0), k) && Cells(g, BOARD) == 4 * k && Always(ins, CleanLock)
  }

  lemma {:induction false} MorePieces(ins: seq<Input>, now: seq<Input>)
    requires ins <= now
    ensures Pieces(ins) <= Pieces(now)
  {
    if |ins| < |now| {
      MorePieces(ins, now[..|now| - 1]);
    } else {
      assert now == ins;
    }
  }

  // Moves without a lock change nothing about clean locks.
  lemma {:induction false} SamePiecesClean(ins: seq<Input>, now: seq<Input>)
    requires ins <= now && Pieces(ins) == Pieces(now) && Always(ins, CleanLock)
    ensures Always(now, CleanLock)
  {
    hide Locks, Free, Inside;
    if |ins| < |now| {
      var pre := now[..|now| - 1];
      MorePieces(ins, pre);
      SamePiecesClean(ins, pre);
    } else {
      assert now == ins;
    }
  }

  lemma CleanMore(ins: seq<Input>, pre: seq<Input>, g: Game, k: nat, inp: Input)
    requires Pieces(ins) == k && Always(ins, CleanLock) && ins <= pre && Reaches(pre, g, k) && CleanLock(g, inp)
    ensures Always(pre + [inp], CleanLock)
  {
    hide CleanLock;
    SamePiecesClean(ins, pre);
    assert (pre + [inp])[..|pre|] == pre;
  }

  // One more clean lock, which fills no row.
  lemma CleanPlace(ins: seq<Input>, pre: seq<Input>, g: Grid, k: nat, at: Block, inp: Input) returns (now: seq<Input>)
    requires Stacked(ins, g, k) && |g| == GRID_ROWS
    requires Reaches(pre, Game(at, g, 0), k) && ins <= pre && Burst(pre) == 0 && Locks(Game(at, g, 0), inp)
    requires var b := Fallen(at, inp);
             && 0 <= b.x <= 27 && Inside(b, BOARD) && Free(b, g) && !SomeFull(Full, Added(b, g))
    ensures Stacked(now, Added(Fallen(at, inp), g), k + 1)
  {
    hide Reaches, Burst, SomeFull, Added, Free, Inside, Locks, Fallen, CellsTo;
    var b := Fallen(at, inp);
    AddedCells(b, g, BOARD);
    PlainLock(pre, Game(at, g, 0), k, inp, Added(b, g));
    assert Pieces(ins) == k by { ReachesPieces(ins, Game(SPAWN, g, 0), k); }
    CleanMore(ins, pre, Game(at, g, 0), k, inp);
    now := pre + [inp];
  }

  lemma ReachesPieces(ins: seq<Input>, g: Game, k: nat)
    requires Reaches(ins, g, k)
    ensures Pieces(ins) == k
  {
  }

  // Upright pieces between columns 0 and 28 are on the board.
  lemma UprightInside(b: Block)
    requires (b.ori == NORTH || b.ori == SOUTH) && 0 <= b.y <= 28
    ensures Inside(b, BOARD)
  {
    hide BlockRow;
    forall i | 0 <= i < BLOCK_HEIGHT ensures BlockRow(b, i) <= BOARD {
      NarrowRow(b, i);
    }
  }

  lemma FreeBelow(g: Grid, ori: Ori, y: int, x: int)
    requires PathFree(g, ori, y, x) && x >= 0
    ensures Free(Block(ori, x + 1, y), g)
  {
    hide Collides, Free;
    var b := Block(ori, x, y);
    assert !Collides(b, g);
    CollidesBelow(b, g);
  }

  // ---------------------------------------------------------------- fourteen pieces on the floor

  predicate InHall(k: int, j: int) {
    2 <= j < 2 * k + 2
  }

  predicate InPillars(k: int, j: int) {
    2 <= j < 2 * k + 2 && j % 2 == 0
  }

  function Hall(k: nat): set<int> {
    set j | 2 <= j < 2 * k + 2 && InHall(k, j)
  }

  function Pillars(k: nat): set<int> {
    set j | 2 <= j < 2 * k + 2 && InPillars(k, j)
  }

  function Floor(k: nat): Grid {
    Bottom(Pillars(k), Pillars(k), Hall(k))
  }

  lemma FloorShaft(k: nat)
    ensures PathFree(Floor(k), SOUTH, 2 * k + 2, 26)
  {
    ShaftIsFree(Floor(k), SOUTH, 2 * k + 2, 26);
  }

  lemma FloorGrows(k: nat)
    ensures Added(Block(SOUTH, 27, 2 * k + 2), Floor(k)) == Floor(k + 1) && !SomeFull(Full, Floor(k + 1))
  {
    hide Added, BlockRow, SomeFull, Bottom;
    var b := Block(SOUTH, 27, 2 * k + 2);
    UprightRows(b);
    LockedBottom(b, Pillars(k), Pillars(k), Hall(k));
    assert Pillars(k) + {2 * k + 2} == Pillars(k + 1);
    assert Hall(k) + {2 * k + 2, 2 * k + 3} == Hall(k + 1);
    BottomNotFull(Pillars(k + 1), Pillars(k + 1), Hall(k + 1));
  }

  lemma BottomTop(a: set<int>, b: set<int>, c: set<int>)
    ensures forall r :: 0 <= r < 27 ==> RowAt(Bottom(a, b, c), r) == {}
  {
  }

  lemma {:induction false} BuildFloor(k: nat) returns (ins: seq<Input>)
    requires k <= 14
    ensures Stacked(ins, Floor(k), k)
  {
    hide Reaches, Burst, SomeFull, Added, Free, Inside, Collides, PathFree, Bottom, BlockRow, TopFree, Cells;
    if k == 0 {
      StartReached();
      EmptyBottom();
      assert Pillars(0) == {} && Hall(0) == {};
      EmptyCells(GRID_ROWS, BOARD);
      ins := [];
    } else {
      var y := 2 * k;
      var g := Floor(k - 1);
      var before := BuildFloor(k - 1);
      BottomTop(Pillars(k - 1), Pillars(k - 1), Hall(k - 1));
      TopIsFree(g, SOUTH, y);
      FloorShaft(k - 1);
      FloorGrows(k - 1);
      var pre := Place(before, Game(SPAWN, g, 0), k - 1, SOUTH, y, 26);
      UprightInside(Block(SOUTH, 27, y));
      FreeBelow(g, SOUTH, y, 26);
      ins := CleanPlace(before, pre, g, k - 1, Block(SOUTH, 26, y), DOWN);
    }
  }

  // ---------------------------------------------------------------- a tower on columns 28 and 29

  function MastRow(r: int): set<int> {
    if r % 3 == 2 then {28, 29} else {28}
  }

  /** j pieces on top of the last piece of the floor. */
  function Mast(j: nat): (g: Grid)
    ensures |g| == GRID_ROWS
  {
    seq(GRID_ROWS, r requires 0 <= r < GRID_ROWS =>
        if r < 27 - 3 * j then {} else if r < 27 then MastRow(r) else Floor(14)[r])
  }

  lemma FloorRows()
    ensures Floor(14)[27] == Pillars(14) && Floor(14)[28] == Pillars(14) && Floor(14)[29] == Hall(14)
  {
  }

  lemma MastGrows(j: nat)
    requires j <= 8
    ensures Added(Block(SOUTH, 24 - 3 * j, 28), Mast(j)) == Mast(j + 1)
  {
    hide BlockRow;
    var b := Block(SOUTH, 24 - 3 * j, 28);
    UprightRows(b);
    var g, h := Added(b, Mast(j)), Mast(j + 1);
    forall r | 0 <= r < GRID_ROWS ensures g[r] == h[r] {
      if b.x <= r < b.x + 3 {
        assert g[r] == {} + BlockRow(b, r - b.x);
      }
    }
  }

  lemma MastNotFull(j: nat)
    ensures !SomeFull(Full, Mast(j))
  {
    hide Floor;
    FloorHasNoZero();
    var g := Mast(j);
    forall r | 0 <= r < |g| ensures !Full(g[r]) {
      assert 0 in BOARD && 0 !in g[r];
    }
  }

  lemma FloorHasNoZero()
    ensures |Floor(14)| == GRID_ROWS && forall r :: 27 <= r < GRID_ROWS ==> 0 !in Floor(14)[r]
  {
  }

  lemma MastAir(j: nat)
    ensures forall r :: 0 <= r < 27 - 3 * j ==> RowAt(Mast(j), r) == {}
  {
  }

  lemma MastStops(j: nat)
    requires j <= 8
    ensures Collides(Block(SOUTH, 24 - 3 * j, 28), Mast(j))
  {
    var b := Block(SOUTH, 24 - 3 * j, 28);
    NarrowRow(b, 2);
    FloorRows();
    assert InPillars(14, 28);
    assert 28 in RowAt(Mast(j), b.x + 2 + 1);
    assert 28 in BlockRow(b, 2) * RowAt(Mast(j), b.x + 2 + 1);
  }

  lemma {:induction false} BuildMast(j: nat) returns (ins: seq<Input>)
    requires j <= 8
    ensures Stacked(ins, Mast(j), 14 + j)
  {
    hide Reaches, Burst, SomeFull, Added, Free, Inside, Collides, PathFree, Mast, BlockRow, TopFree, Cells;
    if j == 0 {
      ins := BuildFloor(14);
      MastStarts();
    } else {
      var x, g := 27 - 3 * j, Mast(j - 1);
      var before := BuildMast(j - 1);
      MastAir(j - 1);
      TopIsFree(g, SOUTH, 28);
      AirIsFree(g, SOUTH, 28, x - 1, x + 3);
      MastGrows(j - 1);
      MastStops(j - 1);
      MastNotFull(j);
      var pre := Place(before, Game(SPAWN, g, 0), 13 + j, SOUTH, 28, x - 1);
      UprightInside(Block(SOUTH, x, 28));
      FreeBelow(g, SOUTH, 28, x - 1);
      ins := CleanPlace(before, pre, g, 13 + j, Block(SOUTH, x - 1, 28), DOWN);
    }
  }

  lemma MastStarts()
    ensures Mast(0) == Floor(14)
  {
  }

  // ---------------------------------------------------------------- the piece in the top rows

  /** One more piece beside the tower, in rows 0 to 2. */
  function Topped(): Grid {
    Added(Block(SOUTH, 0, 27), Mast(8))
  }

  lemma ToppedRows()
    ensures |Topped()| == GRID_ROWS && Topped()[0] == {27} && Topped()[1] == {27} && Topped()[2] == {27, 28}
    ensures forall r :: 3 <= r < GRID_ROWS ==> Topped()[r] == Mast(8)[r]
  {
    hide BlockRow;
    UprightRows(Block(SOUTH, 0, 27));
    MastAir(8);
  }

  lemma ToppedNotFull()
    ensures !SomeFull(Full, Topped())
  {
    hide Mast, Floor;
    ToppedRows();
    MastNotFull(8);
    var g := Topped();
    forall r | 0 <= r < |g| ensures !Full(g[r]) {
      if r < 3 {
        assert 0 in BOARD && 0 !in g[r];
      } else {
        assert g[r] == Mast(8)[r];
      }
    }
  }

  // At the top the tower is in the way only from column 27 on.
  lemma MastTop(y: nat)
    requires y <= 26
    ensures TopFree(Mast(8), SOUTH, y)
    ensures Collides(Block(SOUTH, 0, 27), Mast(8)) && Free(Block(SOUTH, 0, 27), Mast(8))
  {
    hide Collides;
    var g := Mast(8);
    assert RowAt(g, 0) == {} && RowAt(g, 1) == {} && RowAt(g, 2) == {} && RowAt(g, 3) == {28};
    forall o: Ori | o <= SOUTH ensures !Collides(Block(o, 0, 0), g) {
      ColumnsClear(Block(o, 0, 0), g);
    }
    forall c | 0 <= c <= y ensures !Collides(Block(SOUTH, 0, c), g) {
      NarrowClear(Block(SOUTH, 0, c), g);
    }
    MastCorner();
  }

  lemma MastCorner()
    ensures Collides(Block(SOUTH, 0, 27), Mast(8)) && Free(Block(SOUTH, 0, 27), Mast(8))
  {
    var b := Block(SOUTH, 0, 27);
    NarrowRow(b, 2);
    assert 28 in BlockRow(b, 2) * RowAt(Mast(8), b.x + 2 + 1);
  }

  lemma BuildTop() returns (ins: seq<Input>)
    ensures Stacked(ins, Topped(), 23)
  {
    hide Reaches, SomeFull, Added, Free, Inside, Collides, Mast, BlockRow, TopFree, Cells, Burst;
    var before := BuildMast(8);
    var g := Game(SPAWN, Mast(8), 0);
    MastTop(0);
    MastTop(26);
    var pre := Turn(before, g, 22, SOUTH);
    pre := Shove(pre, g.(blk := Block(SOUTH, 0, 0)), 22, 26);
    UprightInside(Block(SOUTH, 0, 27));
    ToppedNotFull();
    ins := CleanPlace(before, pre, Mast(8), 22, Block(SOUTH, 0, 26), RIGHT);
  }

  // ---------------------------------------------------------------- the bottom row is completed

  function Complete(): Grid {
    Added(Block(SOUTH, 27, 0), Topped())
  }

  lemma ToppedShaft()
    ensures TopFree(Topped(), SOUTH, 0) && PathFree(Topped(), SOUTH, 0, 26)
  {
    hide Collides, Topped;
    ToppedRows();
    var g := Topped();
    forall r, j | 0 <= r < |g| && j in g[r] ensures !(0 <= j <= 1) {
      FloorRows();
    }
    ShaftIsFree(g, SOUTH, 0, 26);
    assert RowAt(g, 1) == {27} && RowAt(g, 2) == {27, 28} && RowAt(g, 3) == {28};
    forall o: Ori | o <= SOUTH ensures !Collides(Block(o, 0, 0), g) {
      ColumnsClear(Block(o, 0, 0), g);
    }
  }

  lemma CompleteRows()
    ensures var g := Complete();
            |g| == GRID_ROWS && SomeFull(Full, g) && GapFree(g) && 27 in g[0] * BOARD
  {
    hide BlockRow, Topped;
    var b, g := Block(SOUTH, 27, 0), Complete();
    ToppedRows();
    FloorRows();
    UprightRows(b);
    assert Full(g[29]) by {
      assert g[29] == Hall(14) + {0, 1};
      assert forall j :: j in BOARD ==> InHall(14, j) || j == 0 || j == 1;
    }
    forall r | 0 <= r < GRID_ROWS ensures g[r] != {} {
      assert r >= 27 ==> 0 in g[r];
      assert 3 <= r < 27 ==> g[r] == MastRow(r);
    }
  }

  lemma CompleteStep()
    ensures var s := ScanAll(Complete());
            Step(Game(Block(SOUTH, 26, 0), Topped(), 0), DOWN) == Game(SPAWN, s.grid, s.cleared)
    ensures !Faults(Block(SOUTH, 26, 0), DOWN) && Locks(Game(Block(SOUTH, 26, 0), Topped(), 0), DOWN)
    ensures Fallen(Block(SOUTH, 26, 0), DOWN) == Block(SOUTH, 27, 0)
  {
    hide ScanFrom, Added, Collides;
  }

  lemma {:induction false} WiderCells(g: Grid, n: nat, v: set<int>, w: set<int>)
    requires n <= |g| && v <= w
    ensures CellsTo(g, n, v) <= CellsTo(g, n, w)
  {
    if n > 0 {
      WiderCells(g, n - 1, v, w);
      SubsetSize(g[n - 1] * v, g[n - 1] * w);
    }
  }

  // The scan brings in a copy of the top row, so the books no longer balance.
  lemma CopyBreaksTheBooks(g: Grid)
    requires g != [] && GapFree(g) && SomeFull(Full, g) && 27 in g[0] * BOARD
    ensures Cells(ScanAll(g).grid, BOARD) + 30 * ScanAll(g).cleared > Cells(g, BOARD)
  {
    hide CellsTo, ScanFrom, SomeFull, Full, Solid;
    assert forall r :: 0 <= r < |g| ==> g[r] != {};
    SolidUnique(g, |g|);
    ScanCellsExactly(g, |g| - 1, BOARD);
    assert g[..|g|] == g;
    ClearsNothingExactly(g, |g|);
    ColumnsSize(GRID_COLS - 1);
    SubsetSize({27}, g[0] * BOARD);
    var a, c := |g[0] * BOARD|, ScanAll(g).cleared;
    assert a * c >= 1;
  }

  /** Every piece was locked on free visible cells, and yet cells + 30 * score exceeds 4 * pieces: the
      hypothesis on the top row cannot be dropped. */
  lemma SomeRunBreaksTheBooks() returns (ins: seq<Input>)
    ensures Play(ins).Playing? && Always(ins, CleanLock)
    ensures Cells(Play(ins).game.grid, Columns(GRID_COLS)) + 30 * Play(ins).game.score > 4 * Pieces(ins)
  {
    hide SomeFull, Added, Free, Inside, Collides, BlockRow, TopFree, PathFree, Topped, Complete, Burst, Calm, ScanFrom,
      CellsTo, GapFree, Step, Locks, Faults;
    var before := BuildTop();
    var g := Game(SPAWN, Topped(), 0);
    ToppedShaft();
    var pre := Place(before, g, 23, SOUTH, 0, 26);
    CompleteStep();
    CompleteRows();
    Lock(pre, g.(blk := Block(SOUTH, 26, 0)), 23, DOWN);
    UprightInside(Block(SOUTH, 27, 0));
    FreeBelow(Topped(), SOUTH, 0, 26);
    CompleteCells();
    CopyBreaksTheBooks(Complete());
    CleanMore(before, pre, g.(blk := Block(SOUTH, 26, 0)), 23, DOWN);
    ins := pre + [DOWN];
    var h := ScanAll(Complete()).grid;
    WiderCells(h, |h|, BOARD, Columns(GRID_COLS));
  }

  lemma CompleteCells()
    requires Free(Block(SOUTH, 27, 0), Topped()) && Inside(Block(SOUTH, 27, 0), BOARD)
    ensures Cells(Complete(), BOARD) == Cells(Topped(), BOARD) + 4
  {
    hide CellsTo, Topped, Added, Free, Inside;
    ToppedRows();
    AddedCells(Block(SOUTH, 27, 0), Topped(), BOARD);
  }
}
