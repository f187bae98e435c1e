/** What the screen should show: sets of lit pixels. The finished frame of a game state, the
    rectangles pushed for redrawing, and which pixels one iteration can change. */
module Pictures {
  import opened Layout
  import opened Words
  import opened Gamma
  import opened Board
  import opened Rules

  type Picture = iset<Pixel>

  // ---------------------------------------------------------------- drawing primitives

  /** `vbuf_draw_rect`: `w` pixels along c, `h` along r, clipped to the screen. */
  ghost function RectPicture(x: int, y: int, h: int, w: int): Picture {
    iset p: Pixel | OnScreen(p) && x <= p.c < x + w && y <= p.r < y + h
  }

  /** The grid cell that a pixel belongs to. */
  function CellRow(p: Pixel): int { p.c / GRID_STEP }

  function CellCol(p: Pixel): int { p.r / GRID_STEP }

  ghost function GridPicture(g: Grid): Picture {
    iset p: Pixel | OnScreen(p) && CellCol(p) in RowAt(g, CellRow(p))
  }

  ghost function BlockPicture(b: Block): Picture {
    iset p: Pixel | OnScreen(p) && InBlock(b, CellRow(p), CellCol(p))
  }

  // ---------------------------------------------------------------- the score

  datatype Glyph = Glyph(c: nat, ptr: seq<Byte>)

  /** font.h: one five-row glyph per decimal digit. */
  const FONT: seq<Glyph> := [
    Glyph(0, [31, 17, 17, 17, 31]), Glyph(1, [4, 6, 4, 4, 14]), Glyph(2, [2, 5, 4, 2, 7]),
    Glyph(3, [30, 16, 30, 16, 30]), Glyph(4, [18, 18, 30, 16, 16]), Glyph(5, [30, 2, 30, 16, 30]),
    Glyph(6, [30, 16, 30, 18, 30]), Glyph(7, [30, 16, 8, 4, 2]), Glyph(8, [30, 18, 30, 18, 30]),
    Glyph(9, [30, 18, 30, 16, 30])]

  const HALF := GRID_STEP / 2

  ghost predicate InGlyph(d: nat, i: int, j: int) {
    d < |FONT| && 0 <= i < CHAR_SIZE && 0 <= j < CHAR_SIZE && Bit(FONT[d].ptr[i], j)
  }

  /** Glyph d with its corner at half-cell (x, y). */
  ghost function GlyphPicture(d: nat, x: int, y: int): Picture {
    iset p: Pixel | OnScreen(p) && InGlyph(d, p.c / HALF - x, p.r / HALF - y)
  }

  /** The decimal digits of v, lowest first. */
  function Digits(v: nat): seq<nat> {
    if v < 10 then [v] else [v % 10] + Digits(v / 10)
  }

  function FromDigits(ds: seq<nat>): nat {
    if ds == [] then 0 else ds[0] + 10 * FromDigits(ds[1..])
  }

  /** Decimal digits, lowest first, without leading zeros. */
  predicate Canonical(ds: seq<nat>) {
    ds != [] && (forall d :: d in ds ==> d < 10) && (|ds| > 1 ==> ds[|ds| - 1] != 0)
  }

  /** `Digits` is the decimal representation ... */
  lemma {:induction false} DigitsDenote(v: nat)
    ensures FromDigits(Digits(v)) == v && Canonical(Digits(v))
  {
    if v >= 10 {
      var rest := Digits(v / 10);
      DigitsDenote(v / 10);
      assert Digits(v)[1..] == rest;
      assert rest[|rest| - 1] == 0 ==> rest == [0];
    } else {
      assert Digits(v)[1..] == [];
    }
  }

  /** ... and the only one without leading zeros. */
  lemma {:induction false} DigitsUnique(ds: seq<nat>)
    requires Canonical(ds)
    ensures Digits(FromDigits(ds)) == ds
  {
    var rest := ds[1..];
    if rest != [] {
      assert rest[|rest| - 1] == ds[|ds| - 1];
      assert ds == [ds[0]] + rest && ds[0] in ds;
      assert forall d :: d in rest ==> d in ds;
      DigitsUnique(rest);
      LeadingDigitCounts(rest);
    } else {
      assert ds == [ds[0]] && ds[0] in ds;
    }
  }

  lemma {:induction false} LeadingDigitCounts(ds: seq<nat>)
    requires ds != [] && ds[|ds| - 1] != 0
    ensures FromDigits(ds) > 0
  {
    if |ds| > 1 {
      LeadingDigitCounts(ds[1..]);
    }
  }

  /** Several digits drawn over each other at one place. */
  ghost function DigitsPicture(ds: seq<nat>, x: int, y: int): Picture {
    iset p: Pixel | OnScreen(p) && InSomeGlyph(ds, p, x, y)
  }

  ghost predicate InSomeGlyph(ds: seq<nat>, p: Pixel, x: int, y: int) {
    exists d :: d in ds && InGlyph(d, p.c / HALF - x, p.r / HALF - y)
  }

  /** `text_draw_number` takes the score as `uint8_t`. */
  ghost function TextPicture(score: nat): Picture {
    DigitsPicture(Digits(score % 0x100), 0, 0)
  }

  /** The finished frame of a game state. */
  ghost function Frame(g: Game): Picture {
    BlockPicture(g.blk) + GridPicture(g.grid) + TextPicture(g.score)
  }

  // ---------------------------------------------------------------- dirty rectangles

  const SCORE_BOX := BBox(0, 0, GRID_STEP * CHAR_SIZE, GRID_STEP * CHAR_SIZE * 3)
  const SCREEN_BOX := BBox(0, 0, DISP_COLS, PIX_ROWS)

  /** `update_block`. */
  function UpdateBox(b: Block): BBox {
    BBox(0, Max((b.y - 2) * GRID_STEP, 0), DISP_COLS * GRID_STEP, (BLOCK_HEIGHT + 4) * GRID_STEP)
  }

  predicate InBox(p: Pixel, q: BBox) {
    q.x <= p.c < Min(q.x + q.sizex, DISP_COLS) && q.y <= p.r < Min(q.y + q.sizey, PIX_ROWS)
  }

  predicate InBoxes(p: Pixel, s: seq<BBox>) {
    exists i | 0 <= i < |s| :: InBox(p, s[i])
  }

  /** The digits always lie inside the rectangle pushed for the score. */
  lemma ScoreInsideBox(score: nat, p: Pixel)
    requires p in TextPicture(score)
    ensures InBox(p, SCORE_BOX)
  {
  }

  /** The rectangle of a piece spans the whole height of the grid and the seven cell columns y - 2 to
      y + 4; at the left edge columns 0 to 6; beyond the right edge it is cut off. */
  lemma UpdateBoxExactly(b: Block, p: Pixel)
    requires OnScreen(p) && 0 <= b.y
    ensures var left := if b.y < 2 then 0 else b.y - 2;
            InBox(p, UpdateBox(b)) <==> left <= CellCol(p) <= left + 6
  {
    assert 8 * CellCol(p) <= p.r < 8 * CellCol(p) + 8;
  }

  /** The rectangle of the score: 40 by 120 pixels in the corner. */
  lemma ScoreBoxExactly(p: Pixel)
    ensures InBox(p, SCORE_BOX) <==> 0 <= p.c < 40 && 0 <= p.r < 120
  {
  }

  /** A piece within two columns of `at` is drawn inside the rectangle pushed for `at`. */
  lemma BlockInsideBox(b: Block, at: Block, p: Pixel)
    requires at.y - 2 <= b.y <= at.y + 2 && p in BlockPicture(b)
    ensures InBox(p, UpdateBox(at))
  {
    hide BlockRow, GammaCols;
    BlockRowWithin(b, CellRow(p) - b.x);
    assert GRID_STEP * CellCol(p) <= p.r < GRID_STEP * CellCol(p) + GRID_STEP;
  }

  lemma SteeredNearby(b: Block, inp: Input)
    ensures Steered(b, inp).y - 1 <= b.y <= Steered(b, inp).y + 1
    ensures Fallen(b, inp).y == Steered(b, inp).y
    ensures !Acted(b, inp) ==> Steered(b, inp) == b
  {
  }

  /** The rectangles pushed for the piece in one iteration: after a button, after a tick. */
  function Pushes(b: Block, inp: Input): seq<BBox> {
    var s := Steered(b, inp);
    (if Acted(b, inp) then [UpdateBox(s)] else [])
    + (if !OnFloor(s) && inp.tick then [UpdateBox(Fallen(b, inp))] else [])
  }

  lemma OutsidePushes(b: Block, inp: Input, p: Pixel)
    requires !InBoxes(p, Pushes(b, inp))
    ensures Fallen(b, inp) == b || (p !in BlockPicture(b) && p !in BlockPicture(Fallen(b, inp)))
  {
    hide BlockPicture, Steered, Acted, UpdateBox, InBox;
    SteeredNearby(b, inp);
    var s, f, pushes := Steered(b, inp), Fallen(b, inp), Pushes(b, inp);
    if f != b {
      assert pushes[0] == UpdateBox(s) || pushes[0] == UpdateBox(f);
      var at := if pushes[0] == UpdateBox(s) then s else f;
      if p in BlockPicture(b) {
        BlockInsideBox(b, at, p);
      }
      if p in BlockPicture(f) {
        BlockInsideBox(f, at, p);
      }
    }
  }

  /** Without a lock, every pixel that changes lies in a rectangle pushed by this iteration. */
  lemma StepCoverage(g: Game, inp: Input, p: Pixel)
    requires !Locks(g, inp) && !InBoxes(p, Pushes(g.blk, inp))
    ensures p in Frame(g) <==> p in Frame(Step(g, inp))
  {
    hide BlockPicture, GridPicture, TextPicture, Pushes, Fallen, InBoxes;
    OutsidePushes(g.blk, inp, p);
  }

  lemma LockedPicture(b: Block, g: Grid, p: Pixel)
    requires 0 <= b.x && b.x + BLOCK_HEIGHT <= |g|
    ensures p in GridPicture(Added(b, g)) <==> p in GridPicture(g) || p in BlockPicture(b)
  {
    hide BlockRow;
  }

  /** A floor lock that clears no row keeps the cells of the frame, outside the pushed rectangles. */
  lemma FloorLockKeepsCells(g: Game, inp: Input, p: Pixel)
    requires InGrid(g) && OnFloor(Steered(g.blk, inp)) && Step(g, inp).score == g.score
    requires !InBoxes(p, Pushes(g.blk, inp)) && p in Frame(g)
    ensures p in GridPicture(Step(g, inp).grid) || p in TextPicture(g.score)
  {
    hide BlockPicture, GridPicture, TextPicture, Pushes, Steered, InBoxes, Added, ScanFrom;
    var b := Fallen(g.blk, inp);
    OutsidePushes(g.blk, inp, p);
    NothingCleared(Added(b, g.grid), |g.grid| - 1);
    LockedPicture(b, g.grid, p);
  }

  /** So it only adds to the picture there. */
  lemma FloorLockGrows(g: Game, inp: Input, p: Pixel)
    requires InGrid(g) && OnFloor(Steered(g.blk, inp)) && Step(g, inp).score == g.score
    requires !InBoxes(p, Pushes(g.blk, inp)) && p in Frame(g)
    ensures p in Frame(Step(g, inp))
  {
    hide BlockPicture, GridPicture, TextPicture, Pushes, Steered, InBoxes, InGrid, Step;
    FloorLockKeepsCells(g, inp, p);
  }
}
