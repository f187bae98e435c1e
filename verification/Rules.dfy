/** The game loop of main.c as a transition on values, with the buttons of buttons.h and the
    one-second tick as inputs, and what every finite run of it keeps. */
module Rules {
  import opened Layout
  import opened Gamma
  import opened Survivors
  import opened Board

  datatype Input = Input(left: bool, up: bool, down: bool, right: bool, enter: bool, tick: bool)

  datatype Game = Game(blk: Block, grid: Grid, score: nat)

  const SPAWN := Block(NORTH, 0, 0)
  const START := Game(SPAWN, Empties(GRID_ROWS), 0)

  // ---------------------------------------------------------------- one iteration

  predicate CanLeft(b: Block) {
    b.y + GammaBox(b.ori).y > 0
  }

  predicate CanRight(b: Block) {
    b.y + GammaBox(b.ori).y < GRID_COLS - GammaBox(b.ori).sizey - 1
  }

  predicate CanDown(b: Block) {
    b.x + GammaBox(b.ori).x < GRID_ROWS - GammaBox(b.ori).sizex
  }

  /** The piece after `buttons_do_action`. */
  function Steered(b: Block, inp: Input): Block {
    var b1 := if inp.left && CanLeft(b) then b.(y := b.y - 1) else b;
    var b2 := if inp.right && CanRight(b1) then b1.(y := b1.y + 1) else b1;
    var b3 := if inp.down && CanDown(b2) then b2.(x := b2.x + 1) else b2;
    if inp.enter then b3.(ori := (b3.ori + 1) % 4) else b3
  }

  /** Its result: did any button act? */
  predicate Acted(b: Block, inp: Input) {
    var b1 := if inp.left && CanLeft(b) then b.(y := b.y - 1) else b;
    || (inp.left && CanLeft(b))
    || (inp.right && CanRight(b1))
    || (inp.down && CanDown(b))
    || inp.enter
  }

  // The loop keeps the bounding box of the spawn orientation, whatever the piece does later.
  predicate OnFloor(b: Block) {
    b.x + GammaBox(NORTH).x == GRID_ROWS - GammaBox(NORTH).sizex
  }

  /** The piece when the collision test or the floor branch sees it. */
  function Fallen(b: Block, inp: Input): Block {
    var s := Steered(b, inp);
    if !OnFloor(s) && inp.tick then s.(x := s.x + 1) else s
  }

  /** The piece has left the grid: reading or locking it would index past the last row. */
  predicate Faults(b: Block, inp: Input) {
    Fallen(b, inp).x + BLOCK_HEIGHT > GRID_ROWS
  }

  predicate Locks(g: Game, inp: Input) {
    OnFloor(Steered(g.blk, inp)) || Collides(Fallen(g.blk, inp), g.grid)
  }

  function Step(g: Game, inp: Input): Game {
    var b := Fallen(g.blk, inp);
    if Locks(g, inp) then
      var s := ScanAll(Added(b, g.grid));
      Game(SPAWN, s.grid, g.score + s.cleared)
    else g.(blk := b)
  }

  // ---------------------------------------------------------------- runs

  datatype Outcome = Fault | Playing(game: Game)

  /** The state after a sequence of iterations from power-up. */
  function Play(ins: seq<Input>): Outcome {
    if ins == [] then Playing(START)
    else match Play(ins[..|ins| - 1])
      case Fault => Fault
      case Playing(g) => if Faults(g.blk, ins[|ins| - 1]) then Fault else Playing(Step(g, ins[|ins| - 1]))
  }

  /** Every iteration of the run satisfies P. */
  ghost predicate Always(ins: seq<Input>, P: (Game, Input) -> bool) {
    ins == [] || (var n := |ins| - 1;
                  Always(ins[..n], P) && (Play(ins[..n]).Playing? ==> P(Play(ins[..n]).game, ins[n])))
  }

  /** Pieces locked during the run. */
  function Pieces(ins: seq<Input>): nat {
    if ins == [] then 0
    else
      var n := |ins| - 1;
      Pieces(ins[..n]) + (if Play(ins[..n]).Playing? && Locks(Play(ins[..n]).game, ins[n]) then 1 else 0)
  }

  // ---------------------------------------------------------------- bounds

  /** Piece and cells are inside the grid. */
  ghost predicate InGrid(g: Game) {
    && |g.grid| == GRID_ROWS
    && 0 <= g.blk.x <= GRID_ROWS - BLOCK_HEIGHT
    && 0 <= g.blk.y <= GRID_COLS - 3
    && RowsWithin(g.grid, Columns(GRID_COLS))
  }

  /** The same, with the piece perhaps one row too low: the buttons have just overshot the floor. */
  ghost predicate InReach(g: Game) {
    && |g.grid| == GRID_ROWS
    && 0 <= g.blk.x <= GRID_ROWS - BLOCK_HEIGHT + 1
    && 0 <= g.blk.y <= GRID_COLS - 3
    && RowsWithin(g.grid, Columns(GRID_COLS))
  }

  ghost predicate RowsWithin(g: Grid, w: set<int>) {
    forall r :: 0 <= r < |g| ==> g[r] <= w
  }

  lemma {:induction false} ScanRowsWithin(g: Grid, i: int, w: set<int>)
    requires -1 <= i < |g| && RowsWithin(g, w)
    ensures RowsWithin(ScanFrom(g, i).grid, w)
    decreases i + 1
  {
    if i >= 0 {
      ScanRowsWithin(if Full(g[i]) then Shifted(g, i) else g, i - 1, w);
    }
  }

  lemma BlockRowWithin(b: Block, i: nat)
    requires i < BLOCK_HEIGHT
    ensures forall j :: j in BlockRow(b, i) ==> b.y <= j <= b.y + 2
  {
    var s := GammaCols(b.ori, i);
    assert forall j :: j in s ==> 0 <= j <= 2;
  }

  lemma AddedWithin(b: Block, g: Grid)
    requires RowsWithin(g, Columns(GRID_COLS)) && 0 <= b.y <= GRID_COLS - 3
    ensures RowsWithin(Added(b, g), Columns(GRID_COLS))
  {
    hide BlockRow, GammaCols;
    forall r | 0 <= r < |g| ensures Added(b, g)[r] <= Columns(GRID_COLS) {
      if b.x <= r < b.x + BLOCK_HEIGHT {
        BlockRowWithin(b, r - b.x);
      }
    }
  }

  predicate Overshoots(g: Game, inp: Input) {
    inp.down && g.blk.ori == WEST && g.blk.x == GRID_ROWS - BLOCK_HEIGHT
  }

  /** One iteration leaves the grid exactly when DOWN is acted on in the West orientation at the floor. */
  lemma FaultsExactly(g: Game, inp: Input)
    requires InGrid(g)
    ensures Faults(g.blk, inp) <==> Overshoots(g, inp)
  {
    hide RowsWithin;
  }

  /** Unless it faults, the piece stays in the grid and in columns 0..30. */
  lemma FallenInGrid(g: Game, inp: Input)
    requires InGrid(g) && !Faults(g.blk, inp)
    ensures 0 <= Fallen(g.blk, inp).x <= GRID_ROWS - BLOCK_HEIGHT && 0 <= Fallen(g.blk, inp).y <= GRID_COLS - 3
  {
    hide RowsWithin;
  }

  /** The buttons move the piece by at most one row and one column, and keep its columns in range. */
  lemma SteeredInGrid(g: Game, inp: Input)
    requires InGrid(g)
    ensures var s := Steered(g.blk, inp); g.blk.x <= s.x <= g.blk.x + 1 && 0 <= s.y <= GRID_COLS - 3
  {
    hide RowsWithin;
  }

  lemma StepInGrid(g: Game, inp: Input)
    requires InGrid(g) && !Faults(g.blk, inp)
    ensures InGrid(Step(g, inp))
  {
    hide RowsWithin, Steered, Fallen, Faults, ScanFrom, Collides, OnFloor;
    var b := Fallen(g.blk, inp);
    FallenInGrid(g, inp);
    if Locks(g, inp) {
      AddedWithin(b, g.grid);
      ScanRowsWithin(Added(b, g.grid), GRID_ROWS - 1, Columns(GRID_COLS));
    }
  }

  /** For all button inputs, in every run, piece and cells stay inside the grid. */
  lemma {:induction false} RunInGrid(ins: seq<Input>)
    requires Play(ins).Playing?
    ensures InGrid(Play(ins).game)
  {
    if ins != [] {
      var n := |ins| - 1;
      RunInGrid(ins[..n]);
      StepInGrid(Play(ins[..n]).game, ins[n]);
    }
  }

  lemma {:induction false} PlayPrefix(ins: seq<Input>, k: nat)
    requires Play(ins).Playing? && k <= |ins|
    ensures Play(ins[..k]).Playing?
  {
    if k < |ins| {
      var n := |ins| - 1;
      PlayPrefix(ins[..n], k);
      assert ins[..n][..k] == ins[..k];
    } else {
      assert ins[..k] == ins;
    }
  }

  /** A run leaves the grid exactly when some iteration overshoots the floor. */
  lemma {:induction false} RunFaultsExactly(ins: seq<Input>)
    ensures Play(ins).Playing? <==> Always(ins, (g: Game, inp: Input) => !Overshoots(g, inp))
  {
    if ins != [] {
      var n := |ins| - 1;
      RunFaultsExactly(ins[..n]);
      if Play(ins[..n]).Playing? {
        RunInGrid(ins[..n]);
        FaultsExactly(Play(ins[..n]).game, ins[n]);
      }
    }
  }

  // ---------------------------------------------------------------- no gaps in the stack

  /** A West piece resting on the floor, above a bottom row that is still empty. */
  predicate WestGap(g: Game, inp: Input) {
    OnFloor(Steered(g.blk, inp)) && Steered(g.blk, inp).ori == WEST && RowAt(g.grid, GRID_ROWS - 1) == {}
  }

  lemma RowOccupied(b: Block, i: nat)
    requires i < BLOCK_HEIGHT
    ensures BlockRow(b, i) == {} <==> (b.ori == EAST && i == 0) || (b.ori == WEST && i == 2)
  {
    assert forall j :: j in GammaCols(b.ori, i) ==> j + b.y in BlockRow(b, i);
    assert GammaCols(b.ori, i) != {} ==> 0 in GammaCols(b.ori, i) || 2 in GammaCols(b.ori, i);
  }

  lemma LockGapFree(b: Block, g: Grid)
    requires |g| == GRID_ROWS && 0 <= b.x <= GRID_ROWS - BLOCK_HEIGHT && GapFree(g)
    requires Collides(b, g) || (OnFloor(b) && !(b.ori == WEST && g[GRID_ROWS - 1] == {}))
    ensures GapFree(Added(b, g))
  {
    var h := Added(b, g);
    RowOccupied(b, 0);
    RowOccupied(b, 1);
    RowOccupied(b, 2);
    if Collides(b, g) {
      var i :| 0 <= i < BLOCK_HEIGHT && BlockRow(b, i) * RowAt(g, b.x + i + 1) != {};
      assert b.x + i + 1 < |g| && g[b.x + i + 1] != {};
      assert forall r :: b.x + i + 1 <= r < |g| ==> g[r] != {};
    }
    forall i, j | 0 <= i < j < |h| && h[j] == {} ensures h[i] == {} {
      assert g[j] == {};
      assert g[i] == {};
    }
  }

  // A piece alone fills no row.
  lemma PieceFillsNoRow(b: Block, i: nat)
    requires i < BLOCK_HEIGHT
    ensures !Full(BlockRow(b, i)) && !Full({})
  {
    hide BlockRow, GammaCols;
    BlockRowWithin(b, i);
    var c := if b.y > 0 then 0 else if b.y < -2 then 0 else 3;
    assert c in BOARD && c !in BlockRow(b, i);
  }

  lemma WestGapIsAGap(g: Game, inp: Input)
    requires InGrid(g) && GapFree(g.grid) && WestGap(g, inp)
    ensures !GapFree(Step(g, inp).grid)
  {
    hide RowsWithin, Full, BlockRow, GammaCols, Steered;
    var b := Fallen(g.blk, inp);
    var h := Added(b, g.grid);
    forall r | 0 <= r < |h| ensures !Full(h[r]) {
      assert g.grid[r] == {};
      PieceFillsNoRow(b, if b.x <= r < b.x + BLOCK_HEIGHT then r - b.x else 0);
      assert b.x <= r < b.x + BLOCK_HEIGHT ==> h[r] == BlockRow(b, r - b.x);
    }
    ScanNothing(h, |h| - 1);
    RowOccupied(b, 1);
    RowOccupied(b, 2);
    assert h[b.x + 1] != {} && h[b.x + 2] == {};
  }

  /** An iteration keeps the stack free of gaps exactly when it is not such a West lock,
      even if sideways moves have pushed the piece into occupied cells. */
  lemma StepGapFreeExactly(g: Game, inp: Input)
    requires InGrid(g) && GapFree(g.grid) && !Faults(g.blk, inp)
    ensures GapFree(Step(g, inp).grid) <==> !WestGap(g, inp)
  {
    hide RowsWithin, GapFree, Steered, Collides, ScanFrom, Added;
    var b := Fallen(g.blk, inp);
    if WestGap(g, inp) {
      WestGapIsAGap(g, inp);
    } else if Locks(g, inp) {
      FallenInGrid(g, inp);
      LockGapFree(b, g.grid);
      ScanKeepsGapFree(Added(b, g.grid), GRID_ROWS - 1);
    }
  }

  /** In every run without such a lock the stack has no gap. */
  lemma {:induction false} RunGapFree(ins: seq<Input>)
    requires Play(ins).Playing?
    requires Always(ins, (g: Game, inp: Input) => !WestGap(g, inp))
    ensures GapFree(Play(ins).game.grid)
  {
    if ins != [] {
      var n := |ins| - 1;
      RunGapFree(ins[..n]);
      RunInGrid(ins[..n]);
      StepGapFreeExactly(Play(ins[..n]).game, ins[n]);
    }
  }

  /** Gap-free after every iteration, exactly when no iteration is such a lock. */
  lemma {:induction false} RunGapFreeExactly(ins: seq<Input>)
    requires Play(ins).Playing?
    ensures (forall k :: 0 <= k <= |ins| ==> GapFreeAfter(ins[..k]))
            <==> Always(ins, (g: Game, inp: Input) => !WestGap(g, inp))
  {
    hide GapFree, WestGap, Step;
    if ins == [] {
      StartGapFree();
      assert ins[..0] == [];
    } else {
      var n := |ins| - 1;
      PlayPrefix(ins, n);
      RunGapFreeExactly(ins[..n]);
      RunInGrid(ins[..n]);
      assert forall k :: 0 <= k <= n ==> ins[..n][..k] == ins[..k];
      assert ins[..n + 1] == ins;
      if GapFreeAfter(ins[..n]) {
        StepGapFreeExactly(Play(ins[..n]).game, ins[n]);
      }
      if forall k :: 0 <= k <= n ==> GapFreeAfter(ins[..k]) {
        assert forall k :: 0 <= k <= n ==> GapFreeAfter(ins[..n][..k]);
      } else {
        var k :| 0 <= k <= n && !GapFreeAfter(ins[..k]);
        assert !GapFreeAfter(ins[..n][..k]);
      }
    }
  }

  ghost predicate GapFreeAfter(ins: seq<Input>) {
    Play(ins).Playing? && GapFree(Play(ins).game.grid)
  }

  lemma StartGapFree()
    ensures GapFreeAfter([])
  {
  }

  /** The stack that the scan of a locking iteration starts from. */
  function Stack(g: Game, inp: Input): (h: Grid)
    ensures |h| == |g.grid|
  {
    Added(Fallen(g.blk, inp), g.grid)
  }

  /** In such a run the next lock, unless it fills the top row, clears rows exactly as the survivors of
      the stack say, and scores the number of rows that disappear; copies of the top row move in. */
  lemma RunClearsExactly(ins: seq<Input>, inp: Input)
    requires Play(ins).Playing? && Always(ins, (g: Game, i: Input) => !WestGap(g, i))
    requires var g := Play(ins).game;
             !Faults(g.blk, inp) && Locks(g, inp) && !WestGap(g, inp) && !Full(RowAt(Stack(g, inp), 0))
    ensures var g := Play(ins).game;
            var stack := Stack(g, inp);
            var rest := Survive(Full, stack);
            && |stack| > 0
            && Step(g, inp) == Game(SPAWN, Copies(|stack| - |rest|, stack[0]) + rest, g.score + |stack| - |rest|)
  {
    hide RowsWithin, GapFree, Steered, Collides, ScanFrom, Added, Kept, Faults, Play, Full;
    var g := Play(ins).game;
    RunGapFree(ins);
    RunInGrid(ins);
    FallenInGrid(g, inp);
    LockGapFree(Fallen(g.blk, inp), g.grid);
    ScanMeaning(Stack(g, inp));
  }

  /** In every run a lock leaves a full row on the grid exactly when it made two adjacent rows or the top
      row full. */
  lemma RunLeavesFullRowExactly(ins: seq<Input>, inp: Input)
    requires Play(ins).Playing?
    requires var g := Play(ins).game; !Faults(g.blk, inp) && Locks(g, inp)
    ensures var g := Play(ins).game;
            var stack := Stack(g, inp);
            SomeFull(Full, Step(g, inp).grid) <==> Full(RowAt(stack, 0)) || Adjacent(Full, stack, |stack|)
  {
    hide RowsWithin, Steered, Collides, ScanFrom, Added, Faults, Play, Adjacent, SomeFull, Full;
    RunInGrid(ins);
    ScanLeavesFullRowExactly(Stack(Play(ins).game, inp));
  }

  // ---------------------------------------------------------------- conservation of cells

  /** The top row is empty whenever the scan starts. */
  predicate TopClear(g: Game, inp: Input) {
    Locks(g, inp) ==> RowAt(Added(Fallen(g.blk, inp), g.grid), 0) == {}
  }

  /** The locked piece covers free cells of the visible board only. */
  ghost predicate CleanLock(g: Game, inp: Input) {
    Locks(g, inp) ==> Free(Fallen(g.blk, inp), g.grid) && Inside(Fallen(g.blk, inp), BOARD)
  }

  lemma StepCells(g: Game, inp: Input, w: set<int>)
    requires InGrid(g) && !Faults(g.blk, inp) && TopClear(g, inp)
    ensures var h, n, p := Step(g, inp), |BOARD * w|, (if Locks(g, inp) then 4 else 0);
            && Accounted(Cells(g.grid, w) + p, Cells(h.grid, w), n, h.score - g.score, false)
            && (w <= BOARD && CleanLock(g, inp) && (Locks(g, inp) ==> Inside(Fallen(g.blk, inp), w))
                ==> Accounted(Cells(g.grid, w) + p, Cells(h.grid, w), n, h.score - g.score, true))
  {
    hide RowsWithin, Steered, Collides, ScanFrom, CellsTo, Free, Inside;
    if Locks(g, inp) {
      var b := Fallen(g.blk, inp);
      FallenInGrid(g, inp);
      AddedCells(b, g.grid, w);
      ScanCells(Added(b, g.grid), GRID_ROWS - 1, w);
    }
  }

  /** Conservation, for any set w of columns: what is left plus what was cleared never exceeds
      four cells per locked piece. */
  lemma {:induction false} RunCells(ins: seq<Input>, w: set<int>)
    requires Play(ins).Playing? && Always(ins, TopClear)
    ensures Accounted(4 * Pieces(ins), Cells(Play(ins).game.grid, w), |BOARD * w|, Play(ins).game.score, false)
  {
    hide CellsTo, Step, Locks, Faults, Cells;
    if ins == [] {
      EmptyCells(GRID_ROWS, w);
    } else {
      var n := |ins| - 1;
      RunCells(ins[..n], w);
      RunInGrid(ins[..n]);
      var g, inp := Play(ins[..n]).game, ins[n];
      StepCells(g, inp, w);
      Spread(|BOARD * w|, g.score, Step(g, inp).score);
    }
  }

  lemma Spread(n: nat, a: int, b: int)
    ensures n * b == n * a + n * (b - a)
  {
  }

  lemma {:induction false} EmptyCells(n: nat, w: set<int>)
    ensures Cells(Empties(n), w) == 0
  {
    EmptyCellsTo(n, n, w);
  }

  lemma {:induction false} EmptyCellsTo(n: nat, k: nat, w: set<int>)
    requires k <= n
    ensures CellsTo(Empties(n), k, w) == 0
  {
    if k > 0 {
      EmptyCellsTo(n, k - 1, w);
      assert Empties(n)[k - 1] * w == {};
    }
  }

  /** All cells: set cells + 30 * score <= 4 * pieces locked. */
  lemma RunConservesCells(ins: seq<Input>)
    requires Play(ins).Playing? && Always(ins, TopClear)
    ensures Cells(Play(ins).game.grid, Columns(GRID_COLS)) + 30 * Play(ins).game.score <= 4 * Pieces(ins)
  {
    hide CellsTo, Cells, Play;
    RunCells(ins, Columns(GRID_COLS));
    ColumnsSize(GRID_COLS - 1);
    assert BOARD * Columns(GRID_COLS) == BOARD;
  }

  /** Visible cells that the scan of an iteration makes out of nothing: its copies of the top row. */
  function CopiedBy(g: Game, inp: Input): nat {
    var h := Stack(g, inp);
    if Locks(g, inp) then |RowAt(h, 0) * BOARD| * ScanFrom(h, Solid(h) - 1).cleared else 0
  }

  function Copied(ins: seq<Input>): nat {
    if ins == [] then 0
    else
      var n := |ins| - 1;
      Copied(ins[..n]) + (if Play(ins[..n]).Playing? then CopiedBy(Play(ins[..n]).game, ins[n]) else 0)
  }

  /** At the scan the top row has no visible cell, or no row among the occupied ones at the top is full. */
  ghost predicate Balanced(g: Game, inp: Input) {
    var h := Stack(g, inp);
    Locks(g, inp) ==> RowAt(h, 0) * BOARD == {} || !SomeFull(Full, h[..Solid(h)])
  }

  lemma StepBalance(g: Game, inp: Input)
    requires InGrid(g) && !Faults(g.blk, inp) && CleanLock(g, inp)
    ensures var h, p := Step(g, inp), (if Locks(g, inp) then 4 else 0);
            Cells(h.grid, BOARD) + 30 * (h.score - g.score) == Cells(g.grid, BOARD) + p + CopiedBy(g, inp)
    ensures CopiedBy(g, inp) == 0 <==> Balanced(g, inp)
  {
    hide RowsWithin, Steered, Collides, ScanFrom, CellsTo, Free, Inside, Added, SomeFull, Solid;
    if Locks(g, inp) {
      var b, h := Fallen(g.blk, inp), Stack(g, inp);
      FallenInGrid(g, inp);
      AddedCells(b, g.grid, BOARD);
      ColumnsSize(GRID_COLS - 1);
      ScanCellsExactly(h, |h| - 1, BOARD);
      ClearsNothingExactly(h, Solid(h));
      var a, c := |RowAt(h, 0) * BOARD|, ScanFrom(h, Solid(h) - 1).cleared;
      assert a * c == 0 <==> a == 0 || c == 0;
    }
  }

  /** The balance of every run with clean locks, gaps and occupied top rows included. */
  lemma {:induction false} RunBalance(ins: seq<Input>)
    requires Play(ins).Playing? && Always(ins, CleanLock)
    ensures Cells(Play(ins).game.grid, BOARD) + 30 * Play(ins).game.score == 4 * Pieces(ins) + Copied(ins)
    ensures Copied(ins) == 0 <==> Always(ins, Balanced)
  {
    hide CellsTo, Step, Locks, Faults, Cells, CopiedBy, Balanced, CleanLock;
    if ins == [] {
      EmptyCells(GRID_ROWS, BOARD);
    } else {
      var n := |ins| - 1;
      RunBalance(ins[..n]);
      RunInGrid(ins[..n]);
      StepBalance(Play(ins[..n]).game, ins[n]);
    }
  }

  /** So they conserve visible cells exactly when no scan copies a visible cell. */
  lemma RunConservesExactly(ins: seq<Input>)
    requires Play(ins).Playing? && Always(ins, CleanLock)
    ensures Cells(Play(ins).game.grid, BOARD) + 30 * Play(ins).game.score == 4 * Pieces(ins) <==> Always(ins, Balanced)
  {
    hide Always, Play, Cells;
    RunBalance(ins);
  }

  lemma {:induction false} ClearIsBalanced(ins: seq<Input>)
    requires Always(ins, TopClear)
    ensures Always(ins, Balanced)
  {
    hide Play, Locks, Added, Fallen, SomeFull;
    if ins != [] {
      ClearIsBalanced(ins[..|ins| - 1]);
    }
  }

  /** Visible cells: equality when every lock covers free visible cells only and leaves the top row empty. */
  lemma RunConservesVisibleCells(ins: seq<Input>)
    requires Play(ins).Playing? && Always(ins, TopClear) && Always(ins, CleanLock)
    ensures Cells(Play(ins).game.grid, BOARD) + 30 * Play(ins).game.score == 4 * Pieces(ins)
  {
    hide Always, Play, Cells;
    ClearIsBalanced(ins);
    RunConservesExactly(ins);
  }

  // ---------------------------------------------------------------- no overlap

  /** An iteration that only lets the piece fall by at most one row, or that ends on free cells;
      and a spawn area (rows 0..3) that is empty after each lock. */
  ghost predicate Careful(g: Game, inp: Input) {
    var b := Fallen(g.blk, inp);
    && (b == g.blk || b == g.blk.(x := g.blk.x + 1) || Free(b, g.grid))
    && (Locks(g, inp) ==> forall r :: 0 <= r <= BLOCK_HEIGHT ==> RowAt(Step(g, inp).grid, r) == {})
  }

  // The collision test looks exactly one row further down.
  lemma CollidesBelow(b: Block, g: Grid)
    ensures !Collides(b, g) <==> Free(b.(x := b.x + 1), g)
  {
    var c := b.(x := b.x + 1);
    assert forall i :: 0 <= i < BLOCK_HEIGHT ==> BlockRow(b, i) == BlockRow(c, i);
  }

  /** A piece collides exactly when locking it one row further down would add fewer than four cells. */
  lemma CollidesCounts(b: Block, g: Grid, w: set<int>)
    requires 0 <= b.x + 1 && b.x + 1 + BLOCK_HEIGHT <= |g| && Inside(b, w)
    ensures Collides(b, g) <==> Cells(Added(b.(x := b.x + 1), g), w) < Cells(g, w) + 4
  {
    hide Collides, Free, CellsTo, Added, BlockRow;
    var c := b.(x := b.x + 1);
    CollidesBelow(b, g);
    assert Inside(c, w) by {
      assert forall i :: 0 <= i < BLOCK_HEIGHT ==> BlockRow(b, i) == BlockRow(c, i) by { SameColumns(b, c); }
    }
    AddedCells(c, g, w);
  }

  lemma SameColumns(b: Block, c: Block)
    requires b.ori == c.ori && b.y == c.y
    ensures forall i :: 0 <= i < BLOCK_HEIGHT ==> BlockRow(b, i) == BlockRow(c, i)
  {
  }

  lemma CarefulStep(g: Game, inp: Input)
    requires Free(g.blk, g.grid) && !Collides(g.blk, g.grid) && Careful(g, inp)
    ensures Free(Fallen(g.blk, inp), g.grid)
    ensures Free(Step(g, inp).blk, Step(g, inp).grid) && !Collides(Step(g, inp).blk, Step(g, inp).grid)
  {
    CollidesBelow(g.blk, g.grid);
  }

  /** In every careful run no piece is ever locked over an occupied cell. */
  lemma {:induction false} CarefulRunsNeverOverlap(ins: seq<Input>)
    requires Play(ins).Playing? && Always(ins, Careful)
    ensures Free(Play(ins).game.blk, Play(ins).game.grid) && !Collides(Play(ins).game.blk, Play(ins).game.grid)
    ensures Always(ins, (g: Game, inp: Input) => Locks(g, inp) ==> Free(Fallen(g.blk, inp), g.grid))
  {
    if ins != [] {
      var n := |ins| - 1;
      CarefulRunsNeverOverlap(ins[..n]);
      CarefulStep(Play(ins[..n]).game, ins[n]);
    }
  }

  /** The locked piece lies on the visible board. */
  ghost predicate OnBoard(g: Game, inp: Input) {
    Locks(g, inp) ==> Inside(Fallen(g.blk, inp), BOARD)
  }

  lemma {:induction false} CarefulLocksAreClean(ins: seq<Input>)
    requires Play(ins).Playing? && Always(ins, Careful) && Always(ins, OnBoard)
    ensures Always(ins, CleanLock)
  {
    hide Careful, Locks, Fallen, Free, Inside, Collides, Step, Faults;
    if ins != [] {
      var n := |ins| - 1;
      CarefulLocksAreClean(ins[..n]);
      CarefulRunsNeverOverlap(ins[..n]);
      CarefulStep(Play(ins[..n]).game, ins[n]);
    }
  }

  /** Careful play on the visible board loses and gains nothing. */
  lemma CarefulRunsConserve(ins: seq<Input>)
    requires Play(ins).Playing? && Always(ins, Careful) && Always(ins, OnBoard) && Always(ins, TopClear)
    ensures Cells(Play(ins).game.grid, BOARD) + 30 * Play(ins).game.score == 4 * Pieces(ins)
  {
    CarefulLocksAreClean(ins);
    RunConservesVisibleCells(ins);
  }
}
