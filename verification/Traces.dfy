/** Concrete runs of the game from power-up that show why the hypotheses of the run theorems are needed. */
module Traces {
  import opened Layout
  import opened Gamma
  import opened Survivors
  import opened Board
  import opened Rules
  import opened Controls
  import opened World

  const TICK := IDLE.(tick := true)

  // ---------------------------------------------------------------- stepping through a run

  /** The run `ins` reaches `g`, with a redraw at most now and then, and k pieces locked. */
  ghost predicate Reaches(ins: seq<Input>, g: Game, k: nat) {
    Play(ins) == Playing(g) && Calm(ins) && Burst(ins) <= 1 && Pieces(ins) == k
  }

  lemma StartReached()
    ensures Reaches([], START, 0)
  {
  }

  lemma Quiet(ins: seq<Input>, g: Game, k: nat, inp: Input)
    requires Reaches(ins, g, k) && !Faults(g.blk, inp) && !Locks(g, inp)
    ensures Reaches(ins + [inp], g.(blk := Fallen(g.blk, inp)), k) && (ins != [] ==> Burst(ins + [inp]) == 0)
  {
    hide Faults, Locks, Fallen;
    var now := ins + [inp];
    assert now[..|ins|] == ins;
    assert Before(now) == Playing(g);
  }

  lemma Lock(ins: seq<Input>, g: Game, k: nat, inp: Input)
    requires Reaches(ins, g, k) && Burst(ins) == 0 && !Faults(g.blk, inp) && Locks(g, inp)
    ensures Reaches(ins + [inp], Step(g, inp), k + 1)
  {
    hide Faults, Locks, Fallen, Step;
    var now := ins + [inp];
    assert now[..|ins|] == ins;
    assert Before(now) == Playing(g);
  }

  // A lock that fills no row.
  lemma PlainLock(ins: seq<Input>, g: Game, k: nat, inp: Input, stack: Grid)
    requires Reaches(ins, g, k) && Burst(ins) == 0 && !Faults(g.blk, inp) && Locks(g, inp)
    requires stack == Added(Fallen(g.blk, inp), g.grid) && !SomeFull(Full, stack)
    ensures Reaches(ins + [inp], Game(SPAWN, stack, g.score), k + 1)
  {
    hide Faults, Locks, Fallen, Added, ScanFrom, Full, Reaches;
    Lock(ins, g, k, inp);
    ScanNothing(stack, |stack| - 1);
  }

  // ---------------------------------------------------------------- moving a piece into place

  /** The piece meets nothing while it turns and moves sideways at the top. */
  ghost predicate TopFree(g: Grid, ori: Ori, y: nat) {
    && (forall o: Ori :: o <= ori ==> !Collides(Block(o, 0, 0), g))
    && (forall c :: 0 <= c <= y ==> !Collides(Block(ori, 0, c), g))
  }

  /** The piece meets nothing on its way down to row x. */
  ghost predicate PathFree(g: Grid, ori: Ori, y: int, x: int) {
    forall r :: 0 <= r <= x ==> !Collides(Block(ori, r, y), g)
  }

  // No occupied column is among the three columns of the piece's box.
  lemma ColumnsClear(b: Block, g: Grid)
    requires forall r, j :: b.x < r <= b.x + 3 && j in RowAt(g, r) ==> !(b.y <= j <= b.y + 2)
    ensures !Collides(b, g)
  {
    hide BlockRow, GammaCols;
    forall i | 0 <= i < BLOCK_HEIGHT ensures BlockRow(b, i) * RowAt(g, b.x + i + 1) == {} {
      var r := b.x + i + 1;
      BlockRowWithin(b, i);
      assert forall j :: j in BlockRow(b, i) ==> j !in RowAt(g, r);
    }
  }

  lemma NarrowRow(b: Block, i: nat)
    requires i < BLOCK_HEIGHT && (b.ori == NORTH || b.ori == SOUTH)
    ensures forall j :: j in BlockRow(b, i) ==> b.y <= j <= b.y + 1
    ensures b.y in BlockRow(b, i)
    ensures b.y + 1 in BlockRow(b, i) <==> i == if b.ori == NORTH then 0 else 2
  {
    var s := GammaCols(b.ori, i);
    assert 0 in s && (1 in s <==> i == if b.ori == NORTH then 0 else 2) && forall j :: j in s ==> 0 <= j <= 1;
    assert 0 + b.y in BlockRow(b, i);
    assert 1 in s ==> 1 + b.y in BlockRow(b, i);
  }

  // Upright pieces are two columns wide.
  lemma NarrowClear(b: Block, g: Grid)
    requires b.ori == NORTH || b.ori == SOUTH
    requires forall r, j :: b.x < r <= b.x + 3 && j in RowAt(g, r) ==> !(b.y <= j <= b.y + 1)
    ensures !Collides(b, g)
  {
    hide BlockRow;
    forall i | 0 <= i < BLOCK_HEIGHT ensures BlockRow(b, i) * RowAt(g, b.x + i + 1) == {} {
      var r := b.x + i + 1;
      NarrowRow(b, i);
      assert forall j :: j in BlockRow(b, i) ==> j !in RowAt(g, r);
    }
  }

  lemma TopIsFree(g: Grid, ori: Ori, y: nat)
    requires forall r :: 0 <= r < 4 ==> RowAt(g, r) == {}
    ensures TopFree(g, ori, y)
  {
    hide Collides, RowAt;
    forall o: Ori | o <= ori ensures !Collides(Block(o, 0, 0), g) {
      ColumnsClear(Block(o, 0, 0), g);
    }
    forall c | 0 <= c <= y ensures !Collides(Block(ori, 0, c), g) {
      ColumnsClear(Block(ori, 0, c), g);
    }
  }

  // Nothing in the two columns of an upright piece, anywhere.
  lemma ShaftIsFree(g: Grid, ori: Ori, y: int, x: int)
    requires ori == NORTH || ori == SOUTH
    requires forall r, j :: 0 <= r < |g| && j in g[r] ==> !(y <= j <= y + 1)
    ensures PathFree(g, ori, y, x)
  {
    hide Collides;
    forall r | 0 <= r <= x ensures !Collides(Block(ori, r, y), g) {
      NarrowClear(Block(ori, r, y), g);
    }
  }

  // Nothing above row t.
  lemma AirIsFree(g: Grid, ori: Ori, y: int, x: int, t: int)
    requires x + 3 < t && forall r :: 0 <= r < t ==> RowAt(g, r) == {}
    ensures PathFree(g, ori, y, x)
  {
    hide Collides, RowAt;
    forall r | 0 <= r <= x ensures !Collides(Block(ori, r, y), g) {
      ColumnsClear(Block(ori, r, y), g);
    }
  }

  lemma EnterTurns(g: Game)
    requires g.blk.x == 0 && g.blk.ori < 3 && !Collides(g.blk.(ori := g.blk.ori + 1), g.grid)
    ensures !Faults(g.blk, ENTER) && !Locks(g, ENTER) && Fallen(g.blk, ENTER) == g.blk.(ori := g.blk.ori + 1)
  {
    hide Collides;
  }

  lemma {:induction false} Turn(ins: seq<Input>, g: Game, k: nat, ori: Ori) returns (now: seq<Input>)
    requires Reaches(ins, g, k) && g.blk == SPAWN && TopFree(g.grid, ori, 0)
    ensures Reaches(now, g.(blk := Block(ori, 0, 0)), k) && (ori > 0 ==> now != []) && ins <= now
  {
    hide Reaches, Collides, Faults, Locks, Fallen;
    if ori == 0 {
      now := ins;
    } else {
      assert TopFree(g.grid, ori - 1, 0);
      var before := Turn(ins, g, k, ori - 1);
      assert !Collides(Block(ori, 0, 0), g.grid);
      EnterTurns(g.(blk := Block(ori - 1, 0, 0)));
      Quiet(before, g.(blk := Block(ori - 1, 0, 0)), k, ENTER);
      now := before + [ENTER];
    }
  }

  lemma {:induction false} Shove(ins: seq<Input>, g: Game, k: nat, y: nat) returns (now: seq<Input>)
    requires Reaches(ins, g, k) && g.blk.x == g.blk.y == 0 && (g.blk.ori == NORTH || g.blk.ori == SOUTH) && y <= 28
    requires TopFree(g.grid, g.blk.ori, y)
    ensures Reaches(now, g.(blk := g.blk.(y := y)), k) && ins <= now
    ensures y > 0 && ins != [] ==> Burst(now) == 0
  {
    hide Reaches, Collides, Burst;
    if y == 0 {
      now := ins;
    } else {
      var before := Shove(ins, g, k, y - 1);
      assert !Collides(Block(g.blk.ori, 0, y), g.grid);
      Quiet(before, g.(blk := g.blk.(y := y - 1)), k, RIGHT);
      now := before + [RIGHT];
    }
  }

  lemma {:induction false} Fall(ins: seq<Input>, g: Game, k: nat, inp: Input, x: nat) returns (now: seq<Input>)
    requires Reaches(ins, g, k) && g.blk.x == 0 && PathFree(g.grid, g.blk.ori, g.blk.y, x)
    requires (inp == TICK && x <= 27) || (inp == DOWN && (g.blk.ori == NORTH || g.blk.ori == SOUTH) && x <= 26)
    ensures Reaches(now, g.(blk := g.blk.(x := x)), k) && ins <= now
    ensures x > 1 ==> Burst(now) == 0 && |now| > 1
  {
    hide Reaches, Collides, Burst;
    if x == 0 {
      now := ins;
    } else {
      var before := Fall(ins, g, k, inp, x - 1);
      assert !Collides(Block(g.blk.ori, x, g.blk.y), g.grid);
      Quiet(before, g.(blk := g.blk.(x := x - 1)), k, inp);
      now := before + [inp];
      if x > 1 {
        NotEmpty(before, g.(blk := g.blk.(x := x - 1)), k);
      }
    }
  }

  lemma NotEmpty(ins: seq<Input>, g: Game, k: nat)
    requires Reaches(ins, g, k) && g.blk.x > 0
    ensures ins != []
  {
  }

  // An upright piece: turned, shoved to column y, lowered to row x.
  lemma Place(ins: seq<Input>, g: Game, k: nat, ori: Ori, y: nat, x: nat) returns (now: seq<Input>)
    requires Reaches(ins, g, k) && g.blk == SPAWN && (ori == NORTH || ori == SOUTH) && y <= 28 && 1 < x <= 26
    requires TopFree(g.grid, ori, y) && PathFree(g.grid, ori, y, x)
    ensures Reaches(now, g.(blk := Block(ori, x, y)), k) && Burst(now) == 0 && |now| > 1 && ins <= now
  {
    hide Reaches, Collides, Burst;
    now := Turn(ins, g, k, ori);
    now := Shove(now, g.(blk := Block(ori, 0, 0)), k, y);
    now := Fall(now, g.(blk := Block(ori, 0, y)), k, DOWN, x);
  }

  lemma LeftMoves(g: Game)
    requires 0 < g.blk.y && g.blk.x < 27 && !Collides(g.blk.(y := g.blk.y - 1), g.grid)
    ensures !Faults(g.blk, LEFT) && !Locks(g, LEFT) && Fallen(g.blk, LEFT) == g.blk.(y := g.blk.y - 1)
  {
    hide Collides, Steered;
    OneButton(g.blk);
    FloorExactly(g.blk, LEFT);
    FloorExactly(Steered(g.blk, LEFT), LEFT);
  }

  /** From wherever a run has brought the piece, every smaller column is reachable if the way is free. */
  lemma {:induction false} ShoveLeft(ins: seq<Input>, g: Game, k: nat, y: nat) returns (now: seq<Input>)
    requires Reaches(ins, g, k) && y <= g.blk.y && g.blk.x < 27
    requires forall c :: y <= c < g.blk.y ==> !Collides(g.blk.(y := c), g.grid)
    ensures Reaches(now, g.(blk := g.blk.(y := y)), k) && ins <= now
    decreases g.blk.y - y
  {
    hide Reaches, Collides, Faults, Locks, Fallen;
    if y == g.blk.y {
      now := ins;
    } else {
      var before := ShoveLeft(ins, g, k, y + 1);
      LeftMoves(g.(blk := g.blk.(y := y + 1)));
      Quiet(before, g.(blk := g.blk.(y := y + 1)), k, LEFT);
      now := before + [LEFT];
    }
  }

  /** A run to the last column, and back to any other. */
  lemma SomeRunComesBack(y: nat) returns (out: seq<Input>, back: seq<Input>)
    requires y <= 28
    ensures out <= back && Play(out) == Playing(START.(blk := Block(NORTH, 0, 28)))
    ensures Play(back) == Playing(START.(blk := Block(NORTH, 0, y)))
  {
    hide Collides;
    StartReached();
    TopIsFree(START.grid, NORTH, 28);
    out := Shove([], START, 0, 28);
    assert forall c {:trigger Block(NORTH, 0, c)} :: y <= c < 28 ==> !Collides(Block(NORTH, 0, c), START.grid);
    back := ShoveLeft(out, START.(blk := Block(NORTH, 0, 28)), 0, y);
  }

  // ---------------------------------------------------------------- a West piece on the floor

  lemma WestOnFloor() returns (ins: seq<Input>)
    ensures Reaches(ins, Game(Block(WEST, 27, 0), Empties(GRID_ROWS), 0), 0)
  {
    hide Reaches, Collides;
    StartReached();
    TopIsFree(START.grid, WEST, 0);
    EmptyPath(WEST, 0, 27);
    ins := Turn([], START, 0, WEST);
    ins := Fall(ins, START.(blk := Block(WEST, 0, 0)), 0, TICK, 27);
  }

  lemma EmptyPath(ori: Ori, y: int, x: int)
    ensures PathFree(Empties(GRID_ROWS), ori, y, x)
  {
    hide Collides;
    forall r | 0 <= r <= x ensures !Collides(Block(ori, r, y), Empties(GRID_ROWS)) {
      ColumnsClear(Block(ori, r, y), Empties(GRID_ROWS));
    }
  }

  /** The piece can leave the grid through the floor. */
  lemma SomeRunFaults() returns (ins: seq<Input>)
    ensures Play(ins) == Fault
  {
    var pre := WestOnFloor();
    ins := pre + [DOWN];
    assert ins[..|pre|] == pre;
  }

  /** The stack can have a gap. */
  lemma SomeRunHasAGap() returns (ins: seq<Input>)
    ensures Play(ins).Playing? && !GapFree(Play(ins).game.grid)
  {
    hide GapFree, Step;
    var pre := WestOnFloor();
    var g := Game(Block(WEST, 27, 0), Empties(GRID_ROWS), 0);
    RunInGrid(pre);
    assert GapFree(g.grid) by { EmptiesGapFree(); }
    WestGapIsAGap(g, IDLE);
    ins := pre + [IDLE];
    assert ins[..|pre|] == pre;
  }

  lemma EmptiesGapFree()
    ensures GapFree(Empties(GRID_ROWS))
  {
  }

  // ---------------------------------------------------------------- rows 27 to 29 filled from the right

  predicate InRight(t: int, j: int) {
    t <= j < 30
  }

  function Right(t: int): set<int> {
    set j | t <= j < 30 && InRight(t, j)
  }

  function Bottom(a: set<int>, b: set<int>, c: set<int>): (g: Grid)
    ensures |g| == GRID_ROWS
  {
    seq(GRID_ROWS, r => if r < 27 then {} else if r == 27 then a else if r == 28 then b else c)
  }

  function Slab(t: int): Grid {
    Bottom(Right(t), Right(t), Right(t))
  }

  lemma LockedBottom(b: Block, a: set<int>, m: set<int>, c: set<int>)
    requires b.x == 27
    ensures Added(b, Bottom(a, m, c)) == Bottom(a + BlockRow(b, 0), m + BlockRow(b, 1), c + BlockRow(b, 2))
  {
    hide BlockRow;
    var g, h := Added(b, Bottom(a, m, c)), Bottom(a + BlockRow(b, 0), m + BlockRow(b, 1), c + BlockRow(b, 2));
    forall r | 0 <= r < GRID_ROWS ensures g[r] == h[r] {
    }
  }

  lemma BottomNotFull(a: set<int>, b: set<int>, c: set<int>)
    requires 0 !in a && 0 !in b && 0 !in c
    ensures !SomeFull(Full, Bottom(a, b, c))
  {
    var g := Bottom(a, b, c);
    forall r | 0 <= r < |g| ensures !Full(g[r]) {
      assert 0 in BOARD && 0 !in g[r];
    }
  }

  lemma UprightRows(b: Block)
    requires b.ori == NORTH || b.ori == SOUTH
    ensures BlockRow(b, 0) == if b.ori == NORTH then {b.y, b.y + 1} else {b.y}
    ensures BlockRow(b, 1) == {b.y}
    ensures BlockRow(b, 2) == if b.ori == SOUTH then {b.y, b.y + 1} else {b.y}
  {
    NarrowRow(b, 0);
    NarrowRow(b, 1);
    NarrowRow(b, 2);
    var one, two := {b.y}, {b.y, b.y + 1};
    assert BlockRow(b, 1) == one;
    if b.ori == NORTH {
      assert BlockRow(b, 0) == two && BlockRow(b, 2) == one;
    } else {
      assert BlockRow(b, 0) == one && BlockRow(b, 2) == two;
    }
  }

  lemma EastRows(b: Block)
    requires b.ori == EAST
    ensures BlockRow(b, 0) == {} && BlockRow(b, 1) == {b.y, b.y + 1, b.y + 2} && BlockRow(b, 2) == {b.y}
  {
    assert GammaCols(EAST, 0) == {} && GammaCols(EAST, 1) == {0, 1, 2} && GammaCols(EAST, 2) == {0};
    assert 0 + b.y in BlockRow(b, 1) && 1 + b.y in BlockRow(b, 1) && 2 + b.y in BlockRow(b, 1);
    assert 0 + b.y in BlockRow(b, 2);
  }

  lemma WestRows(b: Block)
    requires b.ori == WEST
    ensures BlockRow(b, 0) == {b.y + 2} && BlockRow(b, 1) == {b.y, b.y + 1, b.y + 2} && BlockRow(b, 2) == {}
  {
    assert GammaCols(WEST, 0) == {2} && GammaCols(WEST, 1) == {0, 1, 2} && GammaCols(WEST, 2) == {};
    assert 2 + b.y in BlockRow(b, 0);
    assert 0 + b.y in BlockRow(b, 1) && 1 + b.y in BlockRow(b, 1) && 2 + b.y in BlockRow(b, 1);
  }

  // A piece lowered to row 26, then moved into place and locked on the floor in one iteration.
  lemma LowerAndLock(ins: seq<Input>, k: nat, ori: Ori, y: nat, a: set<int>, m: set<int>, c: set<int>, last: Input,
                     b: Block)
    returns (now: seq<Input>)
    requires Reaches(ins, Game(SPAWN, Bottom(a, m, c), 0), k) && (ori == NORTH || ori == SOUTH) && y <= 28
    requires PathFree(Bottom(a, m, c), ori, y, 26) && !last.tick
    requires Steered(Block(ori, 26, y), last) == b && b.x == 27
    requires var s := Added(b, Bottom(a, m, c)); !SomeFull(Full, s)
    ensures Reaches(now, Game(SPAWN, Added(b, Bottom(a, m, c)), 0), k + 1)
  {
    hide Reaches, Collides, Burst, SomeFull, Added, Steered;
    var g := Game(SPAWN, Bottom(a, m, c), 0);
    TopIsFree(g.grid, ori, y);
    now := Place(ins, g, k, ori, y, 26);
    PlainLock(now, g.(blk := Block(ori, 26, y)), k, last, Added(b, g.grid));
    now := now + [last];
  }

  const RIGHT_DOWN := DOWN.(right := true)
  const RIGHT_DOWN_ENTER := RIGHT_DOWN.(enter := true)

  lemma SlabCorner() returns (ins: seq<Input>, k: nat)
    ensures Reaches(ins, Game(SPAWN, Slab(27), 0), k)
  {
    hide Reaches, Collides, PathFree, Added, BlockRow, Bottom, SomeFull;
    StartReached();
    assert START.grid == Bottom({}, {}, {}) by { EmptyBottom(); }
    EmptyPath(SOUTH, 28, 26);
    var b := Block(SOUTH, 27, 28);
    UprightRows(b);
    LockedBottom(b, {}, {}, {});
    BottomNotFull({28}, {28}, {28, 29});
    assert {} + BlockRow(b, 0) == {28} && {} + BlockRow(b, 1) == {28} && {} + BlockRow(b, 2) == {28, 29};
    ins := LowerAndLock([], 0, SOUTH, 28, {}, {}, {}, DOWN, b);

    b := Block(WEST, 27, 27);
    CornerPath();
    WestRows(b);
    LockedBottom(b, {28}, {28}, {28, 29});
    BottomNotFull({28, 29}, {27, 28, 29}, {28, 29});
    assert {28} + BlockRow(b, 0) == {28, 29} && {28} + BlockRow(b, 1) == {27, 28, 29};
    assert {28, 29} + BlockRow(b, 2) == {28, 29};
    ins := LowerAndLock(ins, 1, SOUTH, 26, {28}, {28}, {28, 29}, RIGHT_DOWN_ENTER, b);

    b := Block(NORTH, 27, 27);
    UprightRows(b);
    LockedBottom(b, {28, 29}, {27, 28, 29}, {28, 29});
    assert {28, 29} + BlockRow(b, 0) == Right(27) && {27, 28, 29} + BlockRow(b, 1) == Right(27);
    assert {28, 29} + BlockRow(b, 2) == Right(27);
    BottomNotFull(Right(27), Right(27), Right(27));
    ins := LowerAndLock(ins, 2, NORTH, 26, {28, 29}, {27, 28, 29}, {28, 29}, RIGHT_DOWN, b);
    k := 3;
  }

  lemma EmptyBottom()
    ensures Bottom({}, {}, {}) == Empties(GRID_ROWS)
  {
  }

  lemma CornerPath()
    ensures PathFree(Bottom({28}, {28}, {28, 29}), SOUTH, 26, 26)
    ensures PathFree(Bottom({28, 29}, {27, 28, 29}, {28, 29}), NORTH, 26, 26)
  {
    hide Collides;
    ShaftIsFree(Bottom({28}, {28}, {28, 29}), SOUTH, 26, 26);
    var g := Bottom({28, 29}, {27, 28, 29}, {28, 29});
    forall r | 0 <= r <= 26 ensures !Collides(Block(NORTH, r, 26), g) {
      var b := Block(NORTH, r, 26);
      UprightClear(b, g);
    }
  }

  lemma UprightClear(b: Block, g: Grid)
    requires b.ori == NORTH
    requires b.y !in RowAt(g, b.x + 1) && b.y + 1 !in RowAt(g, b.x + 1)
    requires b.y !in RowAt(g, b.x + 2) && b.y !in RowAt(g, b.x + 3)
    ensures !Collides(b, g)
  {
    hide BlockRow;
    UprightRows(b);
    assert RowAt(g, b.x + 0 + 1) == RowAt(g, b.x + 1) && RowAt(g, b.x + 1 + 1) == RowAt(g, b.x + 2);
    forall i | 0 <= i < BLOCK_HEIGHT ensures BlockRow(b, i) * RowAt(g, b.x + i + 1) == {} {
      assert i == 0 || i == 1 || i == 2;
    }
  }

  lemma SlabShaft(t: nat, y: int)
    requires y + 1 < t
    ensures PathFree(Slab(t), NORTH, y, 26)
  {
    ShaftIsFree(Slab(t), NORTH, y, 26);
  }

  lemma {:induction false} BuildSlab(t: nat) returns (ins: seq<Input>, k: nat)
    requires 1 <= t <= 27
    ensures Reaches(ins, Game(SPAWN, Slab(t), 0), k)
    decreases 27 - t
  {
    hide Reaches, Collides, PathFree, Added, BlockRow, Bottom, SomeFull;
    if t == 27 {
      ins, k := SlabCorner();
    } else {
      var r := Right(t + 1);
      ins, k := BuildSlab(t + 1);
      var b := Block(NORTH, 27, t);
      UprightRows(b);
      LockedBottom(b, r, r, r);
      assert r + BlockRow(b, 0) == Right(t) && r + BlockRow(b, 1) == Right(t) && r + BlockRow(b, 2) == Right(t);
      BottomNotFull(Right(t), Right(t), Right(t));
      SlabShaft(t + 1, t - 1);
      ins := LowerAndLock(ins, k, NORTH, t - 1, r, r, r, RIGHT_DOWN, b);
      k := k + 1;
    }
  }

  /** The last piece completes rows 27 to 29 at once, and the scan leaves one of them standing. */
  lemma SomeRunLeavesAFullRow() returns (ins: seq<Input>)
    ensures Play(ins).Playing? && SomeFull(Full, Play(ins).game.grid)
  {
    hide Collides, PathFree, Added, BlockRow, Bottom, SomeFull, ScanFrom, Adjacent, Burst, Calm;
    var pre, k := BuildSlab(1);
    var g := Game(SPAWN, Slab(1), 0);
    TopIsFree(g.grid, NORTH, 0) by { SlabTop(1); }
    LastPath();
    pre := Place(pre, g, k, NORTH, 0, 25);
    var h, last := g.(blk := Block(NORTH, 25, 0)), DOWN.(tick := true);
    LastCollides();
    var b := Block(NORTH, 27, 0);
    UprightRows(b);
    LockedBottom(b, Right(1), Right(1), Right(1));
    assert Right(1) + BlockRow(b, 0) == Right(0) && Right(1) + BlockRow(b, 1) == Right(0);
    assert Right(1) + BlockRow(b, 2) == Right(0);
    Lock(pre, h, k, last);
    SlabAdjacent();
    ScanLeavesFullRowExactly(Slab(0));
    ins := pre + [last];
  }

  lemma SlabTop(t: int)
    ensures forall r :: 0 <= r < 4 ==> RowAt(Slab(t), r) == {}
  {
  }

  lemma LastPath()
    ensures PathFree(Slab(1), NORTH, 0, 25)
  {
    hide Collides;
    forall r | 0 <= r <= 25 ensures !Collides(Block(NORTH, r, 0), Slab(1)) {
      UprightClear(Block(NORTH, r, 0), Slab(1));
    }
  }

  lemma LastCollides()
    ensures Collides(Block(NORTH, 27, 0), Slab(1))
  {
    var b := Block(NORTH, 27, 0);
    NarrowRow(b, 0);
    assert 1 in BlockRow(b, 0) * RowAt(Slab(1), b.x + 0 + 1);
  }

  lemma SlabAdjacent()
    ensures Adjacent(Full, Slab(0), |Slab(0)|) && GapFree(Slab(0)) && Slab(0)[0] == {}
  {
    var g := Slab(0);
    assert Full(g[28]) && Full(g[29]);
    var i := 29;
    assert Full(g[i - 1]) && Full(g[i]);
    assert 0 in Right(0);
  }
}
