/** A run from power-up that completes a row whose hidden column is set: the row is cleared and scored
    like any other. */
module HiddenTrace {
  import opened Layout
  import opened Survivors
  import opened Board
  import opened Rules
  import opened Controls
  import opened Traces

  predicate From(t: int, j: int) {
    t <= j < 29
  }

  /** Columns t to 28. */
  function Span(t: int): set<int> {
    set j | t <= j < 29 && From(t, j)
  }

  /** Rows 27 and 29 hold columns t to 28, row 28 also columns 29 and 30. */
  function Shelf(t: int): Grid {
    Bottom(Span(t), Span(t) + {29, 30}, Span(t))
  }

  const DOWN_ENTER := DOWN.(enter := true)

  // A piece turned at the last moment, so that it reaches into the hidden column.
  lemma HiddenCorner() returns (ins: seq<Input>)
    ensures Reaches(ins, Game(SPAWN, Bottom({}, {28, 29, 30}, {28}), 0), 1)
  {
    hide Reaches, Collides, PathFree, Added, BlockRow, Bottom, SomeFull;
    StartReached();
    EmptyBottom();
    EmptyPath(NORTH, 28, 26);
    var b := Block(EAST, 27, 28);
    EastRows(b);
    LockedBottom(b, {}, {}, {});
    assert {} + BlockRow(b, 0) == {} && {} + BlockRow(b, 1) == {28, 29, 30} && {} + BlockRow(b, 2) == {28};
    BottomNotFull({}, {28, 29, 30}, {28});
    ins := LowerAndLock([], 0, NORTH, 28, {}, {}, {}, DOWN_ENTER, b);
  }

  // North pieces from column 27 down to column 1 fill the three rows.
  lemma {:induction false} BuildShelf(t: nat) returns (ins: seq<Input>, k: nat)
    requires 1 <= t <= 27
    ensures Reaches(ins, Game(SPAWN, Shelf(t), 0), k)
    decreases 27 - t
  {
    hide Reaches, Collides, PathFree, Added, BlockRow, Bottom, SomeFull;
    var b := Block(NORTH, 27, t);
    UprightRows(b);
    BottomNotFull(Span(t), Span(t) + {29, 30}, Span(t));
    if t == 27 {
      ins := HiddenCorner();
      LockedBottom(b, {}, {28, 29, 30}, {28});
      assert {} + BlockRow(b, 0) == Span(27) && {28, 29, 30} + BlockRow(b, 1) == Span(27) + {29, 30};
      assert {28} + BlockRow(b, 2) == Span(27);
      CornerShaft();
      ins := LowerAndLock(ins, 1, NORTH, 26, {}, {28, 29, 30}, {28}, RIGHT_DOWN, b);
      k := 2;
    } else {
      var s := Span(t + 1);
      ins, k := BuildShelf(t + 1);
      LockedBottom(b, s, s + {29, 30}, s);
      assert s + BlockRow(b, 0) == Span(t) && s + BlockRow(b, 2) == Span(t);
      assert s + {29, 30} + BlockRow(b, 1) == Span(t) + {29, 30};
      ShelfShaft(t + 1, t - 1);
      ins := LowerAndLock(ins, k, NORTH, t - 1, s, s + {29, 30}, s, RIGHT_DOWN, b);
      k := k + 1;
    }
  }

  lemma CornerShaft()
    ensures PathFree(Bottom({}, {28, 29, 30}, {28}), NORTH, 26, 26)
  {
    ShaftIsFree(Bottom({}, {28, 29, 30}, {28}), NORTH, 26, 26);
  }

  lemma ShelfShaft(t: nat, y: int)
    requires y + 1 < t <= 27
    ensures PathFree(Shelf(t), NORTH, y, 26)
  {
    ShaftIsFree(Shelf(t), NORTH, y, 26);
  }

  lemma ShelfPath()
    ensures PathFree(Shelf(1), NORTH, 0, 25)
  {
    hide Collides;
    forall r | 0 <= r <= 25 ensures !Collides(Block(NORTH, r, 0), Shelf(1)) {
      UprightClear(Block(NORTH, r, 0), Shelf(1));
    }
  }

  lemma ShelfStops()
    ensures Collides(Block(NORTH, 27, 0), Shelf(1))
  {
    var b := Block(NORTH, 27, 0);
    NarrowRow(b, 0);
    assert 1 in BlockRow(b, 0) * RowAt(Shelf(1), b.x + 0 + 1);
  }

  lemma ShelfTop(t: int)
    ensures forall r :: 0 <= r < 4 ==> RowAt(Shelf(t), r) == {}
  {
  }

  // Only row 28 is full, with the hidden column set.
  lemma ShelfRows()
    ensures var g := Shelf(0);
            && |g| == GRID_ROWS && g[28] == Columns(31) && Full(g[28])
            && forall r :: 0 <= r < GRID_ROWS && r != 28 ==> !Full(g[r])
  {
    var g := Shelf(0);
    assert Span(0) + {29, 30} == Columns(31);
    forall r | 0 <= r < GRID_ROWS && r != 28 ensures !Full(g[r]) {
      assert 29 in BOARD && 29 !in g[r];
    }
  }

  lemma ShelfScores()
    ensures ScanAll(Shelf(0)).cleared == 1
  {
    hide Full, Bottom, Shifted, Gap;
    ShelfRows();
    var g := Shelf(0);
    var h := Shifted(g, 28);
    assert ScanAll(g).cleared == ScanFrom(g, 28).cleared;
    ShiftedRows(g, 28);
    forall r | 0 <= r <= 27 ensures !Full(h[r]) {
      assert h[r] == g[r] || (r > 0 && h[r] == g[r - 1]);
    }
    ScanNothing(h, 27);
  }

  /** The last piece completes row 28 with columns 0 to 30, and the run scores. */
  lemma SomeHiddenColumnScores() returns (ins: seq<Input>, last: Input)
    ensures Play(ins).Playing? && Play(ins).game.score == 0
    ensures var g := Play(ins).game; RowAt(Stack(g, last), 28) == Columns(31) && 30 in RowAt(g.grid, 28)
    ensures Play(ins + [last]).Playing? && Play(ins + [last]).game.score == 1
  {
    hide Collides, PathFree, Added, BlockRow, Bottom, SomeFull, ScanFrom, Columns;
    var k;
    ins, k := BuildShelf(1);
    var g := Game(SPAWN, Shelf(1), 0);
    TopIsFree(g.grid, NORTH, 0) by { ShelfTop(1); }
    ShelfPath();
    ins := Place(ins, g, k, NORTH, 0, 25);
    last := DOWN.(tick := true);
    var b := Block(NORTH, 27, 0);
    ShelfStops();
    UprightRows(b);
    LockedBottom(b, Span(1), Span(1) + {29, 30}, Span(1));
    assert Span(1) + BlockRow(b, 0) == Span(0) && Span(1) + BlockRow(b, 2) == Span(0);
    assert Span(1) + {29, 30} + BlockRow(b, 1) == Span(0) + {29, 30};
    ShelfRows();
    ShelfScores();
    HiddenSet();
    Lock(ins, g.(blk := Block(NORTH, 25, 0)), k, last);
  }

  lemma HiddenSet()
    ensures 30 in RowAt(Shelf(1), 28)
  {
  }
}
