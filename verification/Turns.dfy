/** How the four patterns of tetris.h relate to each other, and what ENTER therefore does to the piece. */
module Turns {
  import opened Layout
  import opened Gamma

  predicate InShape(ori: Ori, i: int, j: int) {
    0 <= i < BLOCK_HEIGHT && j in GammaCols(ori, i)
  }

  /** West is East after half a turn. */
  lemma HalfTurn(i: int, j: int)
    ensures InShape(WEST, i, j) <==> InShape(EAST, 2 - i, 2 - j)
  {
  }

  /** South is North upside down. */
  lemma UpsideDown(i: int, j: int)
    ensures InShape(SOUTH, i, j) <==> InShape(NORTH, 2 - i, j)
  {
  }

  /** A quarter turn takes a to b, moved by (di, dj). */
  ghost predicate TurnedBy(a: Ori, b: Ori, di: int, dj: int) {
    forall i, j :: InShape(a, i, j) <==> InShape(b, 2 - j + di, i + dj)
  }

  /** A reflection in a diagonal does. */
  ghost predicate FlippedBy(a: Ori, b: Ori, di: int, dj: int) {
    || (forall i, j :: InShape(a, i, j) <==> InShape(b, j + di, i + dj))
    || (forall i, j :: InShape(a, i, j) <==> InShape(b, 2 - j + di, 2 - i + dj))
  }

  ghost predicate Turned(a: Ori, b: Ori) {
    exists di, dj :: TurnedBy(a, b, di, dj)
  }

  ghost predicate Flipped(a: Ori, b: Ori) {
    exists di, dj :: FlippedBy(a, b, di, dj)
  }

  function Next(ori: Ori): Ori {
    (ori + 1) % 4
  }

  // The four cells of a pattern.
  function Dots(ori: Ori): seq<(int, int)> {
    if ori == NORTH then [(0, 0), (1, 0), (2, 0), (0, 1)]
    else if ori == EAST then [(1, 0), (1, 1), (1, 2), (2, 0)]
    else if ori == SOUTH then [(0, 0), (1, 0), (2, 0), (2, 1)]
    else [(1, 0), (1, 1), (1, 2), (0, 2)]
  }

  lemma InDots(ori: Ori, i: int, j: int)
    ensures InShape(ori, i, j) <==> (i, j) == Dots(ori)[0] || (i, j) == Dots(ori)[1] || (i, j) == Dots(ori)[2]
                                    || (i, j) == Dots(ori)[3]
  {
  }

  lemma EnterTurns(ori: Ori)
    requires ori == EAST || ori == SOUTH
    ensures Turned(ori, Next(ori))
  {
    hide InShape;
    var di, dj := if ori == EAST then 0 else -1, if ori == EAST then -1 else 0;
    forall i, j ensures InShape(ori, i, j) <==> InShape(Next(ori), 2 - j + di, i + dj) {
      InDots(ori, i, j);
      InDots(Next(ori), 2 - j + di, i + dj);
    }
    assert TurnedBy(ori, Next(ori), di, dj);
  }

  lemma EnterFlips(ori: Ori)
    requires ori == NORTH || ori == WEST
    ensures Flipped(ori, Next(ori))
  {
    hide InShape;
    var di, dj := if ori == NORTH then 1 else 0, if ori == NORTH then 0 else -1;
    forall i, j
      ensures ori == NORTH ==> (InShape(ori, i, j) <==> InShape(Next(ori), j + di, i + dj))
      ensures ori == WEST ==> (InShape(ori, i, j) <==> InShape(Next(ori), 2 - j + di, 2 - i + dj))
    {
      InDots(ori, i, j);
      InDots(Next(ori), j + di, i + dj);
      InDots(Next(ori), 2 - j + di, 2 - i + dj);
    }
    assert FlippedBy(ori, Next(ori), di, dj);
  }

  // Where the cells of a would have to go.
  lemma TurnedDots(a: Ori, b: Ori, di: int, dj: int)
    requires TurnedBy(a, b, di, dj)
    ensures forall d <- Dots(a) :: InShape(b, 2 - d.1 + di, d.0 + dj)
  {
    forall d <- Dots(a) ensures InShape(b, 2 - d.1 + di, d.0 + dj) {
      InDots(a, d.0, d.1);
    }
  }

  lemma NoTurnBy(a: Ori, b: Ori, di: int, dj: int)
    requires (a == NORTH && b == EAST) || (a == WEST && b == NORTH) || a == Next(b)
    ensures !TurnedBy(a, b, di, dj)
  {
    hide TurnedBy;
    var s := Dots(a);
    assert s[0] in s && s[1] in s && s[2] in s && s[3] in s;
    if TurnedBy(a, b, di, dj) {
      TurnedDots(a, b, di, dj);
    }
  }

  lemma FlippedDots(a: Ori, b: Ori, di: int, dj: int)
    requires FlippedBy(a, b, di, dj)
    ensures || (forall d <- Dots(a) :: InShape(b, d.1 + di, d.0 + dj))
            || (forall d <- Dots(a) :: InShape(b, 2 - d.1 + di, 2 - d.0 + dj))
  {
    forall d <- Dots(a) ensures InShape(a, d.0, d.1) {
      InDots(a, d.0, d.1);
    }
  }

  lemma NoFlipBy(ori: Ori, di: int, dj: int)
    requires ori == EAST || ori == SOUTH
    ensures !FlippedBy(ori, Next(ori), di, dj)
  {
    hide FlippedBy;
    var a := Dots(ori);
    assert a[0] in a && a[1] in a && a[2] in a && a[3] in a;
    if FlippedBy(ori, Next(ori), di, dj) {
      FlippedDots(ori, Next(ori), di, dj);
    }
  }

  lemma NoTurn(a: Ori, b: Ori)
    requires (a == NORTH && b == EAST) || (a == WEST && b == NORTH) || a == Next(b)
    ensures !Turned(a, b)
  {
    hide TurnedBy;
    forall di, dj ensures !TurnedBy(a, b, di, dj) {
      NoTurnBy(a, b, di, dj);
    }
  }

  lemma NoFlip(ori: Ori)
    requires ori == EAST || ori == SOUTH
    ensures !Flipped(ori, Next(ori))
  {
    hide FlippedBy;
    forall di, dj ensures !FlippedBy(ori, Next(ori), di, dj) {
      NoFlipBy(ori, di, dj);
    }
  }

  /** ENTER turns the piece by a quarter exactly from East and from South; from North and from West it
      reflects it, and it never turns it the other way. */
  lemma EnterTurnsExactly(ori: Ori)
    ensures Turned(ori, Next(ori)) <==> ori == EAST || ori == SOUTH
    ensures Flipped(ori, Next(ori)) <==> ori == NORTH || ori == WEST
    ensures !Turned(Next(ori), ori)
  {
    hide Turned, Flipped;
    NoTurn(Next(ori), ori);
    if ori == EAST || ori == SOUTH {
      EnterTurns(ori);
      NoFlip(ori);
    } else {
      EnterFlips(ori);
      NoTurn(ori, Next(ori));
    }
  }
}
