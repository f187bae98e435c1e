/** The packed framebuffer of display.c with its stack of dirty rectangles, and everything that is
    drawn into it: rectangles, piece, grid (tetris.c) and score (text.c). */
module Framebuffer {
  import opened Layout
  import opened Words
  import opened Gamma
  import opened Board
  import opened GridOps
  import opened Pictures

  class Vbuf {
    const buf: array2<Byte>
    const arr: array<BBox>
    var size: nat
    var clearFlag: bool

    ghost predicate Shaped() {
      buf.Length0 == DISP_COLS && buf.Length1 == DISP_ROWS && arr.Length == STACKSIZE
    }

    ghost predicate Valid()
      reads this
    {
      Shaped() && size <= STACKSIZE
    }

    /** The pixels that are lit. */
    ghost function Lit(): Picture
      requires Shaped()
      reads buf
    {
      iset p: Pixel | OnScreen(p) && Bit(buf[p.c, p.r / 8], p.r % 8)
    }

    /** The rectangles waiting to be sent. */
    ghost function Pending(): seq<BBox>
      requires Valid()
      reads this, arr
    {
      arr[..size]
    }

    /** `vbuf_init` on the zero-initialised record. */
    constructor ()
      ensures Valid() && Pending() == [] && !clearFlag && fresh(buf) && fresh(arr)
    {
      buf := new Byte[DISP_COLS, DISP_ROWS]((i, j) => 0xFF);
      arr := new BBox[STACKSIZE](i => BBox(0, 0, 0, 0));
      size := 0;
      clearFlag := false;
    }

    method SetBit(col: int, row: int)
      requires Valid() && OnScreen(Px(col, row))
      modifies buf
      ensures Lit() == old(Lit()) + iset{Px(col, row)}
    {
      hide Bit, Or, Shl;
      SetBitFits(buf[col, row / 8], row % 8);
      ghost var was := buf[col, row / 8];
      buf[col, row / 8] := Or(buf[col, row / 8], Shl(1, row % 8));
      forall p: Pixel | OnScreen(p)
        ensures p in Lit() <==> p in old(Lit()) || p == Px(col, row)
      {
        assert p == Px(p.c, p.r);
        if p.c == col && p.r / 8 == row / 8 {
          SetBitTest(was, row % 8, p.r % 8);
        }
      }
    }

    method Clear()
      requires Valid()
      modifies buf
      ensures Lit() == iset{}
    {
      for i := 0 to DISP_COLS
        invariant forall c, b :: 0 <= c < i && 0 <= b < DISP_ROWS ==> buf[c, b] == 0
      {
        for j := 0 to DISP_ROWS
          invariant forall c, b :: 0 <= c < i && 0 <= b < DISP_ROWS ==> buf[c, b] == 0
          invariant forall b :: 0 <= b < j ==> buf[i, b] == 0
        {
          buf[i, j] := 0;
        }
      }
      forall p: Pixel ensures p !in Lit() {
        if OnScreen(p) {
          NoBits(p.r % 8);
        }
      }
    }

    method DrawRect(x: int, y: int, h: int, w: int)
      requires Valid() && 0 <= x && 0 <= y
      modifies buf
      ensures Lit() == old(Lit()) + RectPicture(x, y, h, w)
    {
      hide Lit;
      ghost var was := Lit();
      var i := x;
      NoRect(x, y, h, was);
      while i < DISP_COLS && i < x + w
        invariant x <= i
        invariant Lit() == was + RectPicture(x, y, h, i - x) && (i == x || i <= x + w)
        decreases DISP_COLS - i
      {
        var j := y;
        ghost var before := Lit();
        NoStrip(i, y, before);
        while j < PIX_ROWS && j < y + h
          invariant y <= j
          invariant Lit() == before + RectPicture(i, y, j - y, 1) && (j == y || j <= y + h)
          decreases PIX_ROWS - j
        {
          SetBit(i, j);
          NextInStrip(i, y, j - y, before);
          j := j + 1;
        }
        NextStrip(x, y, h, i - x, j - y, was);
        i := i + 1;
      }
      ClipRect(x, y, h, w, i - x, was);
    }

    method SetFlag()
      modifies this`clearFlag
      ensures clearFlag
    {
      clearFlag := true;
    }

    method Push(q: BBox) returns (ok: bool)
      requires Valid()
      modifies this`size, arr
      ensures Valid() && ok == (old(size) < 16)
      ensures Pending() == if ok then old(Pending()) + [q] else old(Pending())
    {
      if size < STACKSIZE {
        arr[size] := q;
        size := size + 1;
        return true;
      }
      return false;
    }

    method Pop(q0: BBox) returns (ok: bool, q: BBox)
      requires Valid()
      modifies this`size
      ensures Valid() && ok == (old(size) > 0)
      ensures ok ==> old(Pending()) == Pending() + [q]
      ensures !ok ==> Pending() == old(Pending()) && q == q0
    {
      q := q0;
      if size > 0 {
        size := size - 1;
        q := arr[size];
        return true, q;
      }
      return false, q;
    }

    /** One grid cell. */
    method SuppxDraw(x: int, y: int)
      requires Valid() && 0 <= x && 0 <= y
      modifies buf
      ensures Lit() == old(Lit()) + CellPicture(x, y)
    {
      hide Lit;
      DrawRect(x * GRID_STEP, y * GRID_STEP, GRID_STEP, GRID_STEP);
      CellIsRect(x, y);
    }

    method BlockDraw(b: Block)
      requires Valid() && 0 <= b.x && 0 <= b.y
      modifies buf
      ensures Lit() == old(Lit()) + BlockPicture(b)
    {
      hide Lit, BlockPicture, CellPicture, Bit, And, Shl;
      ghost var was := Lit();
      BlockPartAll(b);
      for i := 0 to BLOCK_HEIGHT
        invariant Lit() == was + BlockPart(b, i, 0)
      {
        var j := 2;
        while j >= 0
          invariant -1 <= j <= 2
          invariant Lit() == was + BlockPart(b, i, 2 - j)
        {
          MaskTest(PATTERNS[b.ori][i], j);
          if And(PATTERNS[b.ori][i], Shl(1, j)) != 0 {
            SuppxDraw(b.x + i, b.y + j);
          }
          BlockPartNext(b, i, j);
          j := j - 1;
        }
        BlockPartRow(b, i);
      }
    }

    method GridDraw(grid: array<Word32>)
      requires Valid() && grid.Length == GRID_ROWS
      modifies buf
      ensures Lit() == old(Lit()) + GridPicture(Rows(grid))
    {
      hide Lit, GridPicture, CellPicture, Bit, And, Shl, Cols;
      ghost var was, g := Lit(), Rows(grid);
      GridPartAll(g);
      for i := 0 to GRID_ROWS
        invariant Lit() == was + GridPart(g, i, 0)
      {
        for j := 0 to GRID_COLS
          invariant Lit() == was + GridPart(g, i, j)
        {
          MaskTest(grid[i], j);
          ZeroIsEmpty(grid[i]);
          if And(grid[i], Shl(1, j)) != 0 {
            SuppxDraw(i, j);
          }
          GridPartNext(g, i, j);
        }
        GridPartRow(g, i);
      }
    }

    // -------------------------------------------------------------- text.c

    /** Half a grid cell, the dot of a glyph. */
    method SuppxTextDraw(x: int, y: int)
      requires Valid() && 0 <= x && 0 <= y
      modifies buf
      ensures Lit() == old(Lit()) + DotPicture(x, y)
    {
      hide Lit;
      DrawRect(x * GRID_STEP / 2, y * GRID_STEP / 2, GRID_STEP / 2, GRID_STEP / 2);
      DotIsRect(x, y);
    }

    method DrawChar(d: nat, x: int, y: int)
      requires Valid() && 0 <= x && 0 <= y && d < |FONT|
      modifies buf
      ensures Lit() == old(Lit()) + GlyphPicture(d, x, y)
    {
      hide Lit, GlyphPicture, DotPicture, Bit, And, Shl, GlyphPart;
      ghost var was := Lit();
      GlyphPartAll(d, x, y);
      for i := 0 to CHAR_SIZE
        invariant Lit() == was + GlyphPart(d, x, y, i, 0)
      {
        for j := 0 to CHAR_SIZE
          invariant Lit() == was + GlyphPart(d, x, y, i, j)
        {
          MaskTest(FONT[d].ptr[i], j);
          if And(FONT[d].ptr[i], Shl(1, j)) != 0 {
            SuppxTextDraw(x + i, y + j);
          }
          GlyphPartNext(d, x, y, i, j);
        }
        GlyphPartRow(d, x, y, i);
      }
    }

    /** Only positions on whole grid cells are drawn, and only characters of the font. */
    method TextDrawChar(c: nat, x: int, y: int)
      requires Valid() && 0 <= x && 0 <= y
      modifies buf
      ensures Lit() == old(Lit()) + if x % GRID_STEP == 0 && y % GRID_STEP == 0 then GlyphPicture(c, x, y) else iset{}
    {
      hide Lit, GlyphPicture;
      if x % GRID_STEP != 0 || y % GRID_STEP != 0 {
        return;
      }
      NoGlyph(c, x, y);
      for i := 0 to |FONT|
        invariant Lit() == old(Lit()) + if c < i then GlyphPicture(c, x, y) else iset{}
      {
        if c == FONT[i].c {
          DrawChar(i, x, y);
        }
      }
    }

    /** Every digit is drawn at the same place. */
    method TextDrawNumber(value: Byte, x: int, y: int)
      requires Valid() && 0 <= x && 0 <= y
      modifies buf
      ensures Lit() == old(Lit()) +
                       if x % GRID_STEP == 0 && y % GRID_STEP == 0 then DigitsPicture(Digits(value), x, y) else iset{}
    {
      hide Lit, GlyphPicture, DigitsPicture;
      ghost var was, done := Lit(), [];
      ghost var drawn := x % GRID_STEP == 0 && y % GRID_STEP == 0;
      NoDigits(x, y);
      if value == 0 {
        TextDrawChar(0, x, y);
        NextDigit([], 0, x, y);
        assert [] + [0] == Digits(0);
        return;
      }
      var v := value;
      while v > 0
        invariant Digits(value) == if v > 0 then done + Digits(v) else done
        invariant Lit() == was + if drawn then DigitsPicture(done, x, y) else iset{}
      {
        TextDrawChar(v % 10, x, y);
        NextDigit(done, v % 10, x, y);
        done := done + [v % 10];
        v := v / 10;
      }
    }
  }

  // ---------------------------------------------------------------- pictures built step by step

  ghost function CellPicture(i: int, j: int): Picture {
    iset p: Pixel | OnScreen(p) && CellRow(p) == i && CellCol(p) == j
  }

  lemma CellIsRect(i: int, j: int)
    ensures RectPicture(i * GRID_STEP, j * GRID_STEP, GRID_STEP, GRID_STEP) == CellPicture(i, j)
  {
  }

  lemma NoRect(x: int, y: int, h: int, was: Picture)
    ensures was + RectPicture(x, y, h, 0) == was
  {
  }

  lemma NoStrip(x: int, y: int, was: Picture)
    ensures was + RectPicture(x, y, 0, 1) == was
  {
  }

  lemma NextInStrip(x: int, y: int, h: int, was: Picture)
    requires 0 <= h && OnScreen(Px(x, y + h))
    ensures was + RectPicture(x, y, h, 1) + iset{Px(x, y + h)} == was + RectPicture(x, y, h + 1, 1)
  {
    forall p: Pixel
      ensures p in RectPicture(x, y, h + 1, 1) <==> p in RectPicture(x, y, h, 1) || p == Px(x, y + h)
    {
      assert p == Px(p.c, p.r);
    }
  }

  lemma NextStrip(x: int, y: int, h: int, w: int, k: int, was: Picture)
    requires 0 <= w && 0 <= k && 0 <= y && (k == 0 || k <= h) && (y + k >= PIX_ROWS || k >= h)
    ensures was + RectPicture(x, y, h, w) + RectPicture(x + w, y, k, 1) == was + RectPicture(x, y, h, w + 1)
  {
  }

  lemma ClipRect(x: int, y: int, h: int, w: int, k: int, was: Picture)
    requires 0 <= x && 0 <= k && (k == 0 || k <= w) && (x + k >= DISP_COLS || k >= w)
    ensures was + RectPicture(x, y, h, k) == was + RectPicture(x, y, h, w)
  {
  }

  /** Rows above i of the piece, and the k rightmost columns of row i. */
  ghost function BlockPart(b: Block, i: int, k: int): Picture {
    iset p: Pixel | p in BlockPicture(b)
      && (CellRow(p) - b.x < i || (CellRow(p) - b.x == i && CellCol(p) - b.y > 2 - k))
  }

  lemma BlockPartNext(b: Block, i: nat, j: nat)
    requires i < BLOCK_HEIGHT && j <= 2
    ensures BlockPart(b, i, 3 - j)
            == BlockPart(b, i, 2 - j) + if Bit(PATTERNS[b.ori][i], j) then CellPicture(b.x + i, b.y + j) else iset{}
  {
    hide GammaCols;
    GammaBits(b.ori, i);
    assert Bit(PATTERNS[b.ori][i], j) <==> j in GammaCols(b.ori, i);
    assert b.y + j in BlockRow(b, i) <==> j in GammaCols(b.ori, i);
  }

  lemma BlockPartRow(b: Block, i: nat)
    ensures BlockPart(b, i, 3) == BlockPart(b, i + 1, 0)
  {
    hide GammaCols, BlockRow;
    forall p: Pixel | p in BlockPicture(b) ensures b.y <= CellCol(p) <= b.y + 2 {
      Rules.BlockRowWithin(b, CellRow(p) - b.x);
    }
  }

  lemma BlockPartAll(b: Block)
    ensures BlockPart(b, BLOCK_HEIGHT, 0) == BlockPicture(b)
    ensures BlockPart(b, 0, 0) == iset{}
  {
    hide GammaCols, BlockRow;
    forall p: Pixel | p in BlockPicture(b) ensures b.y <= CellCol(p) <= b.y + 2 {
      Rules.BlockRowWithin(b, CellRow(p) - b.x);
    }
  }

  /** Rows above i of the grid, and the first j columns of row i. */
  ghost function GridPart(g: Grid, i: int, j: int): Picture {
    iset p: Pixel | p in GridPicture(g) && (CellRow(p) < i || (CellRow(p) == i && CellCol(p) < j))
  }

  lemma GridPartNext(g: Grid, i: nat, j: nat)
    requires i < |g|
    ensures GridPart(g, i, j + 1) == GridPart(g, i, j) + if j in g[i] then CellPicture(i, j) else iset{}
  {
  }

  lemma GridPartRow(g: Grid, i: nat)
    ensures GridPart(g, i, GRID_COLS) == GridPart(g, i + 1, 0)
  {
  }

  lemma GridPartAll(g: Grid)
    requires |g| == GRID_ROWS
    ensures GridPart(g, GRID_ROWS, 0) == GridPicture(g)
    ensures GridPart(g, 0, 0) == iset{}
  {
  }

  ghost function DotPicture(i: int, j: int): Picture {
    iset p: Pixel | OnScreen(p) && p.c / HALF == i && p.r / HALF == j
  }

  lemma DotIsRect(i: int, j: int)
    ensures RectPicture(i * GRID_STEP / 2, j * GRID_STEP / 2, GRID_STEP / 2, GRID_STEP / 2) == DotPicture(i, j)
  {
  }

  /** Rows above i of the glyph, and the first j dots of row i. */
  ghost function GlyphPart(d: nat, x: int, y: int, i: int, j: int): Picture {
    iset p: Pixel | p in GlyphPicture(d, x, y)
      && (p.c / HALF - x < i || (p.c / HALF - x == i && p.r / HALF - y < j))
  }

  lemma GlyphPartAll(d: nat, x: int, y: int)
    ensures GlyphPart(d, x, y, 0, 0) == iset{}
    ensures GlyphPart(d, x, y, CHAR_SIZE, 0) == GlyphPicture(d, x, y)
  {
    hide Bit;
  }

  lemma GlyphPartNext(d: nat, x: int, y: int, i: nat, j: nat)
    requires d < |FONT| && i < CHAR_SIZE && j < CHAR_SIZE
    ensures GlyphPart(d, x, y, i, j + 1)
            == GlyphPart(d, x, y, i, j) + if Bit(FONT[d].ptr[i], j) then DotPicture(x + i, y + j) else iset{}
  {
    hide Bit;
  }

  lemma GlyphPartRow(d: nat, x: int, y: int, i: nat)
    ensures GlyphPart(d, x, y, i, CHAR_SIZE) == GlyphPart(d, x, y, i + 1, 0)
  {
    hide Bit;
  }

  lemma NoGlyph(d: nat, x: int, y: int)
    ensures d >= |FONT| ==> GlyphPicture(d, x, y) == iset{}
  {
  }

  lemma NoDigits(x: int, y: int)
    ensures DigitsPicture([], x, y) == iset{}
  {
  }

  lemma NextDigit(ds: seq<nat>, d: nat, x: int, y: int)
    ensures DigitsPicture(ds + [d], x, y) == DigitsPicture(ds, x, y) + GlyphPicture(d, x, y)
  {
    hide InGlyph;
    forall p: Pixel ensures InSomeGlyph(ds + [d], p, x, y)
                            <==> InSomeGlyph(ds, p, x, y) || InGlyph(d, p.c / HALF - x, p.r / HALF - y) {
      assert d in ds + [d];
      assert forall e :: e in ds ==> e in ds + [d];
    }
  }
}
