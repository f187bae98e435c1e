/** The piece patterns of tetris.h and the bounding box computation of tetris.c. */
module Gamma {
  import opened Layout
  import opened Words

  /** The four orientations of the only piece, one byte per pattern row. */
  const PATTERNS: seq<seq<Byte>> := [[3, 1, 1], [0, 7, 1], [1, 1, 3], [4, 7, 0]]

  /** The same patterns as sets of columns. */
  function GammaCols(ori: Ori, i: nat): set<nat>
    requires i < BLOCK_HEIGHT
  {
    if ori == NORTH then (if i == 0 then {0, 1} else {0})
    else if ori == EAST then (if i == 0 then {} else if i == 1 then {0, 1, 2} else {0})
    else if ori == SOUTH then (if i == 2 then {0, 1} else {0})
    else (if i == 0 then {2} else if i == 1 then {0, 1, 2} else {})
  }

  function GammaBox(ori: Ori): BBox {
    if ori == NORTH || ori == SOUTH then BBox(0, 0, 3, 2)
    else if ori == EAST then BBox(1, 0, 2, 3)
    else BBox(0, 0, 2, 3)
  }

  // The bits of a number below eight.
  lemma SmallBits(v: nat)
    requires v < 8
    ensures Cols(v) == (if v % 2 == 1 then {0} else {}) + (if v / 2 % 2 == 1 then {1} else {})
                       + (if v / 2 / 2 == 1 then {2} else {})
  {
    var h := v / 2;
    var q := h / 2;
    forall j: nat ensures Bit(v, j) <==> (j == 0 && v % 2 == 1) || (j == 1 && h % 2 == 1) || (j == 2 && q == 1) {
      if j > 2 {
        assert Bit(v, j) == Bit(h, j - 1) == Bit(q, j - 2) == Bit(0, j - 3);
        NoBits(j - 3);
      } else if j == 2 {
        assert Bit(v, 2) == Bit(h, 1) == Bit(q, 0);
      } else if j == 1 {
        assert Bit(v, 1) == Bit(h, 0);
      }
    }
  }

  lemma GammaBits(ori: Ori, i: nat)
    requires i < BLOCK_HEIGHT
    ensures PATTERNS[ori][i] < 8
    ensures Cols(PATTERNS[ori][i]) == GammaCols(ori, i)
  {
    SmallBits(PATTERNS[ori][i]);
  }

  /** The cells that `get_bbox` looks at: as many columns as the pattern has rows. */
  predicate Cell(ptr: seq<Byte>, i: int, j: int) {
    0 <= i < |ptr| && 0 <= j < |ptr| && Bit(ptr[i], j)
  }

  ghost predicate Covers(ptr: seq<Byte>, r: BBox) {
    forall i, j :: Cell(ptr, i, j) ==> r.x <= i < r.x + r.sizex && r.y <= j < r.y + r.sizey
  }

  ghost predicate RowTouched(ptr: seq<Byte>, i: int) {
    exists j :: Cell(ptr, i, j)
  }

  ghost predicate ColTouched(ptr: seq<Byte>, j: int) {
    exists i :: Cell(ptr, i, j)
  }

  /** `r` covers every set cell, and each of its four sides touches one. */
  ghost predicate Tight(ptr: seq<Byte>, r: BBox) {
    && Covers(ptr, r)
    && RowTouched(ptr, r.x)
    && RowTouched(ptr, r.x + r.sizex - 1)
    && ColTouched(ptr, r.y)
    && ColTouched(ptr, r.y + r.sizey - 1)
  }

  /** `get_bbox`: the pattern must not be empty, since the final subtraction would overflow. */
  method GetBBox(ptr: seq<Byte>) returns (r: BBox)
    requires |ptr| < INT_MAX
    requires exists i, j :: Cell(ptr, i, j)
    ensures Tight(ptr, r)
  {
    var x, y, xe, ye := INT_MAX, INT_MAX, INT_MIN, INT_MIN;
    ghost var seen := false;
    ghost var north, south, west, east := 0, 0, 0, 0;
    var i := 0;
    while i < |ptr|
      invariant 0 <= i <= |ptr|
      invariant !seen ==> x == y == INT_MAX && xe == ye == INT_MIN
      invariant forall a, b :: Cell(ptr, a, b) && a < i ==> seen && x <= a <= xe && y <= b <= ye
      invariant seen ==> Cell(ptr, x, north) && Cell(ptr, xe, south) && Cell(ptr, west, y) && Cell(ptr, east, ye)
    {
      var j := 0;
      while j < |ptr|
        invariant 0 <= j <= |ptr|
        invariant !seen ==> x == y == INT_MAX && xe == ye == INT_MIN
        invariant forall a, b :: Cell(ptr, a, b) && (a < i || (a == i && b < j))
                    ==> seen && x <= a <= xe && y <= b <= ye
        invariant seen ==> Cell(ptr, x, north) && Cell(ptr, xe, south) && Cell(ptr, west, y) && Cell(ptr, east, ye)
      {
        ShiftTest(ptr[i], j);
        if And(Shr(ptr[i], j), 1) != 0 {
          if i <= x { north := j; }
          if j <= y { west := i; }
          if i >= xe { south := j; }
          if j >= ye { east := i; }
          x := Min(x, i);
          y := Min(y, j);
          xe := Max(xe, i);
          ye := Max(ye, j);
          seen := true;
        }
        j := j + 1;
      }
      i := i + 1;
    }
    assert RowTouched(ptr, xe) && ColTouched(ptr, ye);
    r := BBox(x, y, xe - (x - 1), ye - (y - 1));
  }

  /** The tight box lies inside every box that covers the pattern. */
  lemma TightIsSmallest(ptr: seq<Byte>, r: BBox, q: BBox)
    requires Tight(ptr, r) && Covers(ptr, q)
    ensures q.x <= r.x && r.x + r.sizex <= q.x + q.sizex
    ensures q.y <= r.y && r.y + r.sizey <= q.y + q.sizey
  {
    var south, east := r.x + r.sizex - 1, r.y + r.sizey - 1;
    assert RowTouched(ptr, south) && ColTouched(ptr, east);
  }

  lemma TightIsUnique(ptr: seq<Byte>, r: BBox, q: BBox)
    requires Tight(ptr, r) && Tight(ptr, q)
    ensures r == q
  {
    TightIsSmallest(ptr, r, q);
    TightIsSmallest(ptr, q, r);
  }

  /** For every orientation the computed box is the tabulated one. */
  lemma GammaBoxIsTight(ori: Ori)
    ensures Tight(PATTERNS[ori], GammaBox(ori))
  {
    var ptr, r := PATTERNS[ori], GammaBox(ori);
    forall i: nat, j: nat | i < 3 && j < 3
      ensures Cell(ptr, i, j) <==> j in GammaCols(ori, i)
    {
      GammaBits(ori, i);
      assert j in Cols(ptr[i]) <==> Bit(ptr[i], j);
    }
    assert Covers(ptr, r);
    assert Cell(ptr, 1, 0);
    if ori == NORTH || ori == SOUTH {
      assert Cell(ptr, 0, 0) && Cell(ptr, 2, 0);
      assert Cell(ptr, if ori == NORTH then 0 else 2, 1);
    } else {
      assert Cell(ptr, 1, 2);
      assert ori == EAST ==> Cell(ptr, 2, 0);
      assert ori == WEST ==> Cell(ptr, 0, 2);
    }
  }
}
