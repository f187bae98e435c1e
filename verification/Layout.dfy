/** Sizes and records shared by the whole program (types.h, tetris.h, font.h). */
module Layout {

  const DISP_COLS := 240          // pixel columns of the panel
  const DISP_ROWS := 30           // bytes per pixel column, eight pixel rows each
  const PIX_ROWS := DISP_ROWS * 8
  const GRID_STEP := 8            // pixels per grid cell
  const GRID_ROWS := 30
  const GRID_COLS := 31           // the preprocessor adds one column, which is never visible
  const BLOCK_HEIGHT := 3
  const STACKSIZE := 16
  const BUFSIZE := 64
  const CHAR_SIZE := 5
  const INT_MAX := 0x7fff_ffff
  const INT_MIN := -0x8000_0000

  datatype BBox = BBox(x: int, y: int, sizex: int, sizey: int)

  type Ori = o: nat | o < 4
  const NORTH: Ori := 0
  const EAST: Ori := 1
  const SOUTH: Ori := 2
  const WEST: Ori := 3

  /** The falling piece: grid row `x`, grid column `y`. */
  datatype Block = Block(ori: Ori, x: int, y: int)

  /** A pixel of the panel: `c` runs along DISP_COLS, `r` along DISP_ROWS * 8. */
  datatype Pixel = Px(c: int, r: int)

  predicate OnScreen(p: Pixel) {
    0 <= p.c < DISP_COLS && 0 <= p.r < PIX_ROWS
  }

  function Min(a: int, b: int): int {
    if a < b then a else b
  }

  function Max(a: int, b: int): int {
    if a > b then a else b
  }

  lemma Member<T>(s: set<T>) returns (e: T)
    requires s != {}
    ensures e in s
  {
    e :| e in s;
  }
}
