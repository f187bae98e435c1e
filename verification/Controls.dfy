/** What the buttons of buttons.h do to the piece, in coordinates, and what undoes what. */
module Controls {
  import opened Layout
  import opened Gamma
  import opened Board
  import opened Rules
  import opened Turns

  const IDLE := Input(false, false, false, false, false, false)
  const LEFT := IDLE.(left := true)
  const RIGHT := IDLE.(right := true)
  const DOWN := IDLE.(down := true)
  const ENTER := IDLE.(enter := true)

  predicate Upright(b: Block) {
    b.ori == NORTH || b.ori == SOUTH
  }

  /** The last column that RIGHT reaches. */
  function LastColumn(b: Block): int {
    if Upright(b) then 28 else 27
  }

  /** The last row that DOWN reaches; for West one too many. */
  function LastRow(b: Block): int {
    if b.ori == WEST then 28 else 27
  }

  /** The four buttons, each pressed alone. */
  lemma OneButton(b: Block)
    requires 0 <= b.y
    ensures Steered(b, LEFT) == if 0 < b.y then b.(y := b.y - 1) else b
    ensures Steered(b, RIGHT) == if b.y < LastColumn(b) then b.(y := b.y + 1) else b
    ensures Steered(b, DOWN) == if b.x < LastRow(b) then b.(x := b.x + 1) else b
    ensures Steered(b, ENTER) == b.(ori := Next(b.ori))
    ensures Steered(b, IDLE) == b
  {
  }

  /** Which of them act. */
  lemma OneButtonActs(b: Block)
    requires 0 <= b.y
    ensures Acted(b, LEFT) <==> 0 < b.y
    ensures Acted(b, RIGHT) <==> b.y < LastColumn(b)
    ensures Acted(b, DOWN) <==> b.x < LastRow(b)
    ensures Acted(b, ENTER) && !Acted(b, IDLE)
  {
  }

  /** Several at once act one after the other: left, right, down, enter. UP does nothing. */
  lemma InOrder(b: Block, inp: Input)
    ensures var b1 := Steered(b, IDLE.(left := inp.left));
            var b2 := Steered(b1, IDLE.(right := inp.right));
            var b3 := Steered(b2, IDLE.(down := inp.down));
            && Steered(b, inp) == Steered(b3, IDLE.(enter := inp.enter))
            && (Acted(b, inp) <==> Acted(b, IDLE.(left := inp.left)) || Acted(b1, IDLE.(right := inp.right))
                                   || Acted(b2, IDLE.(down := inp.down)) || inp.enter)
  {
  }

  /** LEFT takes back every RIGHT that acted. */
  lemma LeftUndoesRight(b: Block)
    requires 0 <= b.y < LastColumn(b)
    ensures Steered(Steered(b, RIGHT), LEFT) == b
  {
    hide Steered;
    OneButton(b);
    OneButton(b.(y := b.y + 1));
  }

  /** RIGHT takes back a LEFT that acted, except where turning has put a lying piece at column 28. */
  lemma RightUndoesLeftExactly(b: Block)
    requires 0 < b.y <= 28
    ensures Steered(Steered(b, LEFT), RIGHT) == b <==> b.y <= LastColumn(b)
  {
    hide Steered;
    OneButton(b);
    OneButton(b.(y := b.y - 1));
  }

  /** Four turns are none. */
  lemma FourTurns(b: Block)
    requires 0 <= b.y
    ensures Steered(Steered(Steered(Steered(b, ENTER), ENTER), ENTER), ENTER) == b
  {
    hide Steered;
    OneButton(b);
    OneButton(b.(ori := Next(b.ori)));
    OneButton(b.(ori := Next(Next(b.ori))));
    OneButton(b.(ori := Next(Next(Next(b.ori)))));
  }

  /** The piece after pressing buttons in turn. */
  function Pressed(b: Block, ins: seq<Input>): Block {
    if ins == [] then b else Steered(Pressed(b, ins[..|ins| - 1]), ins[|ins| - 1])
  }

  lemma PressMore(b: Block, ins: seq<Input>, inp: Input)
    ensures Pressed(b, ins + [inp]) == Steered(Pressed(b, ins), inp)
  {
    hide Steered;
    assert (ins + [inp])[..|ins|] == ins;
  }

  /** From any column the buttons reach every column up to the last one. */
  lemma {:induction false} ReachColumn(b: Block, c: int) returns (ins: seq<Input>)
    requires 0 <= b.y <= 28 && 0 <= c <= LastColumn(b)
    ensures Pressed(b, ins) == b.(y := c)
    decreases if c < b.y then b.y - c else c - b.y
  {
    hide Steered;
    if c == b.y {
      ins := [];
    } else {
      var d := if c < b.y then c + 1 else c - 1;
      if d <= LastColumn(b) {
        ins := ReachColumn(b, d);
      } else {
        ins := [];
      }
      var inp := if c < b.y then LEFT else RIGHT;
      PressMore(b, ins, inp);
      OneButton(b.(y := d));
      ins := ins + [inp];
    }
  }

  /** The piece reaches into the hidden column exactly when it lies at column 28. */
  lemma HiddenExactly(b: Block)
    requires 0 <= b.y <= 28
    ensures !Inside(b, BOARD) <==> b.y == 28 && !Upright(b)
  {
    hide BlockRow;
    Spans(b);
    if Upright(b) || b.y < 28 {
      forall i | 0 <= i < BLOCK_HEIGHT ensures BlockRow(b, i) <= BOARD {
        assert forall j :: j in BlockRow(b, i) ==> Below(30, j);
      }
    } else {
      assert 30 in BlockRow(b, 1) && !Below(30, 30);
      assert 30 !in BOARD;
    }
  }

  lemma Spans(b: Block)
    ensures forall i, j :: 0 <= i < BLOCK_HEIGHT && j in BlockRow(b, i) ==>
              b.y <= j <= b.y + if Upright(b) then 1 else 2
    ensures !Upright(b) ==> b.y + 2 in BlockRow(b, 1)
  {
    forall i, j | 0 <= i < BLOCK_HEIGHT && j in BlockRow(b, i)
      ensures b.y <= j <= b.y + if Upright(b) then 1 else 2
    {
      assert forall k :: k in GammaCols(b.ori, i) ==> 0 <= k <= if Upright(b) then 1 else 2;
    }
    if !Upright(b) {
      assert 2 in GammaCols(b.ori, 1);
      assert 2 + b.y in BlockRow(b, 1);
    }
  }

  /** The floor test, in coordinates: the last pattern row is the last grid row. */
  lemma FloorExactly(b: Block, inp: Input)
    ensures OnFloor(b) <==> b.x == 27
    ensures var s := Steered(b, inp);
            Fallen(b, inp) == if inp.tick && s.x != 27 then s.(x := s.x + 1) else s
  {
  }

  /** An iteration locks exactly when the buttons leave the piece on the floor, or when after the tick one
      of its cells lies directly above an occupied one. */
  lemma LocksExactly(g: Game, inp: Input)
    ensures Locks(g, inp) <==> Steered(g.blk, inp).x == 27
                               || exists i, j :: InBlock(Fallen(g.blk, inp), i, j) && j in RowAt(g.grid, i + 1)
  {
    hide Collides, Steered, InBlock, RowAt, OnFloor;
    FloorExactly(Steered(g.blk, inp), inp);
    CollidesExactly(Fallen(g.blk, inp), g.grid);
  }
}
