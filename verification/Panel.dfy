/** The display controller as seen on the wire: set_column_address (2Ah), set_page_address (2Bh)
    and write_memory_start (2Ch) of the MIPI Display Command Set, followed by a pixel stream that
    fills the window with the column running fastest. */
module Panel {
  import opened Layout
  import opened Pictures

  const CASET := 0x2A
  const RASET := 0x2B
  const RAMWR := 0x2C
  const NOP := 0x00

  const WHITE := 0xFFFF
  const BLACK := 0x0000

  /** One SPI transfer: a command byte, four address bytes, or a block of 16-bit pixels. */
  datatype Event = Command(op: int) | Params(bytes: seq<int>) | Pixels(ws: seq<int>)

  type Memory = imap<Pixel, int>

  /** Last command, window (columns sc..ec, pages sp..ep), write position, pixel memory. */
  datatype Panel = Panel(mode: int, sc: int, ec: int, sp: int, ep: int, c: int, r: int, mem: Memory)

  function HighByte(v: int): int { v / 0x100 % 0x100 }

  function LowByte(v: int): int { v % 0x100 }

  /** The four bytes of an address command. */
  function Address(start: int, end: int): Event {
    Params([HighByte(start), LowByte(start), HighByte(end), LowByte(end)])
  }

  /** Stores one pixel and advances; past the end of the window the position wraps. */
  ghost function WriteOne(p: Panel, w: int): Panel {
    var q := p.(mem := p.mem[Px(p.c, p.r) := w]);
    if p.c < p.ec then q.(c := p.c + 1)
    else q.(c := p.sc, r := if p.r < p.ep then p.r + 1 else p.sp)
  }

  ghost function WriteAll(p: Panel, ws: seq<int>): Panel {
    if ws == [] then p else WriteOne(WriteAll(p, ws[..|ws| - 1]), ws[|ws| - 1])
  }

  ghost function Exec(p: Panel, e: Event): Panel {
    match e
    case Command(op) => if op == RAMWR then p.(mode := op, c := p.sc, r := p.sp) else p.(mode := op)
    case Params(b) =>
      if |b| == 4 && p.mode == CASET then p.(sc := b[0] * 0x100 + b[1], ec := b[2] * 0x100 + b[3])
      else if |b| == 4 && p.mode == RASET then p.(sp := b[0] * 0x100 + b[1], ep := b[2] * 0x100 + b[3])
      else p
    case Pixels(ws) => if p.mode == RAMWR then WriteAll(p, ws) else p
  }

  ghost function ExecAll(p: Panel, es: seq<Event>): Panel {
    if es == [] then p else Exec(ExecAll(p, es[..|es| - 1]), es[|es| - 1])
  }

  lemma {:induction false} ExecConcat(p: Panel, a: seq<Event>, b: seq<Event>)
    ensures ExecAll(p, a + b) == ExecAll(ExecAll(p, a), b)
    decreases |b|
  {
    if b == [] {
      assert a + b == a;
    } else {
      var n := |b| - 1;
      ExecConcat(p, a, b[..n]);
      assert (a + b)[..|a + b| - 1] == a + b[..n];
    }
  }

  lemma ExecSnoc(p: Panel, a: seq<Event>, e: Event)
    ensures ExecAll(p, a + [e]) == Exec(ExecAll(p, a), e)
  {
    assert (a + [e])[..|a|] == a;
  }

  lemma {:induction false} WriteConcat(p: Panel, a: seq<int>, b: seq<int>)
    ensures WriteAll(p, a + b) == WriteAll(WriteAll(p, a), b)
    decreases |b|
  {
    if b == [] {
      assert a + b == a;
    } else {
      var n := |b| - 1;
      WriteConcat(p, a, b[..n]);
      assert (a + b)[..|a + b| - 1] == a + b[..n];
    }
  }

  // ---------------------------------------------------------------- the pixel stream

  ghost function Ink(pic: Picture, p: Pixel): int {
    if p in pic then WHITE else BLACK
  }

  /** The words of pixel row r for columns x0 up to x. */
  ghost function RowWords(pic: Picture, r: int, x0: int, x: int): seq<int>
    decreases x - x0
  {
    if x <= x0 then [] else RowWords(pic, r, x0, x - 1) + [Ink(pic, Px(x - 1, r))]
  }

  /** Pixel rows r0 up to r, one after the other. */
  ghost function Stream(pic: Picture, x0: int, x1: int, r0: int, r: int): seq<int>
    decreases r - r0
  {
    if r <= r0 then [] else Stream(pic, x0, x1, r0, r - 1) + RowWords(pic, r - 1, x0, x1)
  }

  lemma {:induction false} StreamLength(pic: Picture, x0: int, x1: int, r0: int, r: int)
    requires x0 <= x1 && r0 <= r
    ensures |Stream(pic, x0, x1, r0, r)| == (x1 - x0) * (r - r0)
    decreases r - r0
  {
    if r0 < r {
      StreamLength(pic, x0, x1, r0, r - 1);
      RowLength(pic, r - 1, x0, x1);
      assert (x1 - x0) * (r - r0) == (x1 - x0) * (r - 1 - r0) + (x1 - x0);
    }
  }

  lemma {:induction false} RowLength(pic: Picture, r: int, x0: int, x: int)
    requires x0 <= x
    ensures |RowWords(pic, r, x0, x)| == x - x0
    decreases x - x0
  {
    if x0 < x {
      RowLength(pic, r, x0, x - 1);
    }
  }

  /** Memory with the rectangle x0..x1, r0..r1 replaced by the picture. */
  ghost function PaintRect(m: Memory, pic: Picture, x0: int, x1: int, r0: int, r1: int): Memory {
    imap p: Pixel | p in m || InRect(p, x0, x1, r0, r1) :: if InRect(p, x0, x1, r0, r1) then Ink(pic, p) else m[p]
  }

  predicate InRect(p: Pixel, x0: int, x1: int, r0: int, r1: int) {
    x0 <= p.c < x1 && r0 <= p.r < r1
  }

  lemma PaintNextPixel(m: Memory, pic: Picture, x0: int, x: int, r: int)
    requires x0 <= x
    ensures PaintRect(m, pic, x0, x, r, r + 1)[Px(x, r) := Ink(pic, Px(x, r))] == PaintRect(m, pic, x0, x + 1, r, r + 1)
  {
    var a := PaintRect(m, pic, x0, x, r, r + 1)[Px(x, r) := Ink(pic, Px(x, r))];
    var b := PaintRect(m, pic, x0, x + 1, r, r + 1);
    forall p: Pixel ensures (p in a <==> p in b) && (p in a ==> a[p] == b[p]) {
      assert p == Px(p.c, p.r);
      if p != Px(x, r) {
        assert InRect(p, x0, x, r, r + 1) == InRect(p, x0, x + 1, r, r + 1);
      }
    }
  }

  lemma WriteNothing(p: Panel)
    ensures WriteAll(p, []) == p
  {
  }

  lemma WriteSnoc(p: Panel, ws: seq<int>, w: int)
    ensures WriteAll(p, ws + [w]) == WriteOne(WriteAll(p, ws), w)
  {
    assert (ws + [w])[..|ws|] == ws;
  }

  // Writing a row from the left edge of the window.
  lemma {:induction false} WriteRow(p: Panel, pic: Picture, x: int)
    requires p.c == p.sc <= p.ec && p.sc <= x <= p.ec + 1 && p.sp <= p.r <= p.ep
    ensures WriteAll(p, RowWords(pic, p.r, p.sc, x))
            == p.(mem := PaintRect(p.mem, pic, p.sc, x, p.r, p.r + 1),
                  c := if x <= p.ec then x else p.sc,
                  r := if x <= p.ec then p.r else if p.r < p.ep then p.r + 1 else p.sp)
    decreases x - p.sc
  {
    hide PaintRect, Ink, WriteAll;
    if p.sc < x {
      WriteRow(p, pic, x - 1);
      var ws := RowWords(pic, p.r, p.sc, x - 1);
      var w := Ink(pic, Px(x - 1, p.r));
      WriteSnoc(p, ws, w);
      PaintNextPixel(p.mem, pic, p.sc, x - 1, p.r);
    } else {
      PaintNothing(p.mem, pic, p.sc, p.r, p.r + 1);
      WriteNothing(p);
    }
  }

  lemma PaintNextRow(m: Memory, pic: Picture, x0: int, x1: int, r0: int, r: int)
    requires r0 <= r
    ensures PaintRect(PaintRect(m, pic, x0, x1, r0, r), pic, x0, x1, r, r + 1) == PaintRect(m, pic, x0, x1, r0, r + 1)
  {
  }

  lemma {:induction false} WriteRows(p: Panel, pic: Picture, r: int)
    requires p.c == p.sc <= p.ec && p.r == p.sp <= r <= p.ep + 1
    ensures WriteAll(p, Stream(pic, p.sc, p.ec + 1, p.sp, r))
            == p.(mem := PaintRect(p.mem, pic, p.sc, p.ec + 1, p.sp, r), r := if r <= p.ep then r else p.sp)
    decreases r - p.sp
  {
    hide PaintRect, WriteAll, RowWords;
    WriteNothing(p);
    if p.sp < r {
      WriteRows(p, pic, r - 1);
      var q := WriteAll(p, Stream(pic, p.sc, p.ec + 1, p.sp, r - 1));
      WriteConcat(p, Stream(pic, p.sc, p.ec + 1, p.sp, r - 1), RowWords(pic, r - 1, p.sc, p.ec + 1));
      WriteRow(q, pic, p.ec + 1);
      PaintNextRow(p.mem, pic, p.sc, p.ec + 1, p.sp, r - 1);
    } else {
      PaintNoRows(p.mem, pic, p.sc, p.ec + 1, r);
    }
  }

  lemma PaintNothing(m: Memory, pic: Picture, x0: int, r0: int, r1: int)
    ensures PaintRect(m, pic, x0, x0, r0, r1) == m
  {
  }

  lemma PaintNoRows(m: Memory, pic: Picture, x0: int, x1: int, r: int)
    ensures PaintRect(m, pic, x0, x1, r, r) == m
  {
  }

  // ---------------------------------------------------------------- one rectangle

  function XEnd(q: BBox): int { Min(q.x + q.sizex, DISP_COLS) }

  function YEnd(q: BBox): int { Min(q.y + q.sizey, PIX_ROWS) }

  /** The commands that open the window of a rectangle. */
  function OpenWindow(q: BBox): seq<Event> {
    [Command(CASET), Address(q.x, XEnd(q) - 1), Command(RASET), Address(q.y, YEnd(q) - 1), Command(RAMWR)]
  }

  function Chunks(cs: seq<seq<int>>): seq<Event> {
    seq(|cs|, i requires 0 <= i < |cs| => Pixels(cs[i]))
  }

  function Flatten(cs: seq<seq<int>>): seq<int> {
    if cs == [] then [] else Flatten(cs[..|cs| - 1]) + cs[|cs| - 1]
  }

  lemma FlattenSnoc(cs: seq<seq<int>>, c: seq<int>)
    ensures Flatten(cs + [c]) == Flatten(cs) + c
    ensures Chunks(cs + [c]) == Chunks(cs) + [Pixels(c)]
  {
    assert (cs + [c])[..|cs|] == cs;
  }

  lemma {:induction false} ExecChunks(p: Panel, cs: seq<seq<int>>)
    requires p.mode == RAMWR
    ensures ExecAll(p, Chunks(cs)) == WriteAll(p, Flatten(cs)) && WriteAll(p, Flatten(cs)).mode == RAMWR
  {
    if cs != [] {
      var n := |cs| - 1;
      ExecChunks(p, cs[..n]);
      assert cs == cs[..n] + [cs[n]];
      FlattenSnoc(cs[..n], cs[n]);
      ExecSnoc(p, Chunks(cs[..n]), Pixels(cs[n]));
      WriteConcat(p, Flatten(cs[..n]), cs[n]);
      WriteKeepsMode(WriteAll(p, Flatten(cs[..n])), cs[n]);
    }
  }

  lemma {:induction false} WriteKeepsMode(p: Panel, ws: seq<int>)
    ensures WriteAll(p, ws).mode == p.mode
  {
    if ws != [] {
      WriteKeepsMode(p, ws[..|ws| - 1]);
    }
  }

  lemma AddressDecodes(v: int)
    requires 0 <= v < 0x10000
    ensures HighByte(v) * 0x100 + LowByte(v) == v
  {
  }

  lemma OpensWindow(p: Panel, q: BBox)
    requires 0 <= q.x < XEnd(q) && 0 <= q.y < YEnd(q)
    ensures ExecAll(p, OpenWindow(q)) == Panel(RAMWR, q.x, XEnd(q) - 1, q.y, YEnd(q) - 1, q.x, q.y, p.mem)
  {
    AddressDecodes(q.x);
    AddressDecodes(q.y);
    AddressDecodes(XEnd(q) - 1);
    AddressDecodes(YEnd(q) - 1);
    var es := OpenWindow(q);
    assert es == [] + [es[0]] + [es[1]] + [es[2]] + [es[3]] + [es[4]];
    ExecSnoc(p, [], es[0]);
    ExecSnoc(p, [] + [es[0]], es[1]);
    ExecSnoc(p, [] + [es[0]] + [es[1]], es[2]);
    ExecSnoc(p, [] + [es[0]] + [es[1]] + [es[2]], es[3]);
    ExecSnoc(p, [] + [es[0]] + [es[1]] + [es[2]] + [es[3]], es[4]);
  }

  /** The bytes on the wire: 2Ah with the first and last pixel column, 2Bh with the first and last pixel
      row, 2Ch. On this panel every high byte is zero. */
  lemma WindowBytes(q: BBox)
    requires 0 <= q.x < XEnd(q) && 0 <= q.y < YEnd(q)
    ensures OpenWindow(q) == [Command(0x2A), Params([0, q.x, 0, Min(q.x + q.sizex, 240) - 1]),
                              Command(0x2B), Params([0, q.y, 0, Min(q.y + q.sizey, 240) - 1]), Command(0x2C)]
  {
  }

  // Word k of a pixel row.
  lemma {:induction false} RowWord(pic: Picture, r: int, x0: int, x1: int, x: int)
    requires x0 <= x < x1
    ensures |RowWords(pic, r, x0, x1)| == x1 - x0
    ensures RowWords(pic, r, x0, x1)[x - x0] == if Px(x, r) in pic then 0xFFFF else 0x0000
    decreases x1 - x0
  {
    RowLength(pic, r, x0, x1);
    if x < x1 - 1 {
      RowWord(pic, r, x0, x1 - 1, x);
    } else {
      RowLength(pic, r, x0, x1 - 1);
    }
  }

  /** The stream runs along the pixel columns first: which word belongs to which pixel. */
  lemma {:induction false} StreamWord(pic: Picture, x0: int, x1: int, r0: int, r1: int, p: Pixel)
    requires x0 <= p.c < x1 && r0 <= p.r < r1
    ensures var k := (p.r - r0) * (x1 - x0) + p.c - x0;
            && 0 <= k < |Stream(pic, x0, x1, r0, r1)|
            && Stream(pic, x0, x1, r0, r1)[k] == if p in pic then 0xFFFF else 0x0000
    decreases r1 - r0
  {
    hide RowWords;
    var w, n := x1 - x0, p.r - r0;
    var k := n * w + p.c - x0;
    var above := Stream(pic, x0, x1, r0, r1 - 1);
    StreamLength(pic, x0, x1, r0, r1);
    StreamLength(pic, x0, x1, r0, r1 - 1);
    RowWord(pic, r1 - 1, x0, x1, p.c);
    assert n * w >= 0;
    if p.r < r1 - 1 {
      StreamWord(pic, x0, x1, r0, r1 - 1, p);
      assert Stream(pic, x0, x1, r0, r1)[k] == above[k];
    } else {
      assert p == Px(p.c, r1 - 1);
      assert |above| == n * w;
      assert Stream(pic, x0, x1, r0, r1)[k] == RowWords(pic, r1 - 1, x0, x1)[p.c - x0];
    }
  }

  /** A rectangle whose clipped rows are whole bytes and whose clipped area is a whole number of
      transfer buffers. */
  predicate Aligned(q: BBox) {
    && 0 <= q.x < XEnd(q) && 0 <= q.y < YEnd(q)
    && q.y % 8 == 0 && YEnd(q) % 8 == 0
    && (XEnd(q) - q.x) * (YEnd(q) - q.y) % BUFSIZE == 0
  }

  /** Sending exactly the pixels of a rectangle makes the panel show the picture there and leaves
      every other pixel alone. */
  lemma StreamPaints(p: Panel, q: BBox, pic: Picture, cs: seq<seq<int>>)
    requires 0 <= q.x < XEnd(q) && 0 <= q.y < YEnd(q)
    requires Flatten(cs) == Stream(pic, q.x, XEnd(q), q.y, YEnd(q))
    ensures ExecAll(p, OpenWindow(q) + Chunks(cs) + [Command(NOP)]).mem
            == PaintRect(p.mem, pic, q.x, XEnd(q), q.y, YEnd(q))
  {
    hide PaintRect, WriteAll, Stream, Exec, OpenWindow, Flatten, XEnd, YEnd;
    var p1 := ExecAll(p, OpenWindow(q));
    OpensWindow(p, q);
    ExecConcat(p, OpenWindow(q), Chunks(cs));
    ExecChunks(p1, cs);
    WriteRows(p1, pic, YEnd(q));
    EndsWithNop(p, OpenWindow(q) + Chunks(cs));
  }

  lemma EndsWithNop(p: Panel, es: seq<Event>)
    ensures ExecAll(p, es + [Command(NOP)]).mem == ExecAll(p, es).mem
  {
    ExecSnoc(p, es, Command(NOP));
  }

  // ---------------------------------------------------------------- many rectangles

  ghost function Painted(m: Memory, pic: Picture, s: seq<BBox>): Memory {
    imap p: Pixel | p in m || InBoxes(p, s) :: if InBoxes(p, s) then Ink(pic, p) else m[p]
  }

  lemma PaintedOne(m: Memory, pic: Picture, q: BBox)
    ensures PaintRect(m, pic, q.x, XEnd(q), q.y, YEnd(q)) == Painted(m, pic, [q])
  {
    assert forall p: Pixel :: InBoxes(p, [q]) <==> InRect(p, q.x, XEnd(q), q.y, YEnd(q)) by {
      forall p: Pixel ensures InBoxes(p, [q]) <==> InBox(p, q) {
        assert [q][0] == q;
      }
    }
  }

  lemma InBoxesSplit(p: Pixel, a: seq<BBox>, b: seq<BBox>)
    ensures InBoxes(p, a + b) <==> InBoxes(p, a) || InBoxes(p, b)
  {
    if InBoxes(p, a) {
      var i :| 0 <= i < |a| && InBox(p, a[i]);
      assert (a + b)[i] == a[i];
    }
    if InBoxes(p, b) {
      var i :| 0 <= i < |b| && InBox(p, b[i]);
      assert (a + b)[|a| + i] == b[i];
    }
  }

  /** The order in which rectangles are drained does not matter. */
  lemma PaintedTwice(m: Memory, pic: Picture, a: seq<BBox>, b: seq<BBox>)
    ensures Painted(Painted(m, pic, b), pic, a) == Painted(m, pic, a + b)
  {
    forall p: Pixel ensures InBoxes(p, a + b) <==> InBoxes(p, a) || InBoxes(p, b) {
      InBoxesSplit(p, a, b);
    }
  }

  // ---------------------------------------------------------------- the rectangles of the game

  /** Every rectangle the game pushes is aligned, whatever the column of the piece. */
  lemma GameBoxesAligned(b: Block)
    requires 0 <= b.y <= GRID_COLS - 3
    ensures Aligned(UpdateBox(b)) && Aligned(SCORE_BOX) && Aligned(SCREEN_BOX)
  {
    var q := UpdateBox(b);
    var k := YEnd(q) / 8 - q.y / 8;
    assert YEnd(q) - q.y == 8 * k;
    assert (XEnd(q) - q.x) * (YEnd(q) - q.y) == 64 * (30 * k);
  }
}
