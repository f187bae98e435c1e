/** The display driver of impl_stm32.c: rectangles of the framebuffer are streamed to the panel
    through a 64-word transfer buffer; and `draw` of main.c, which drains the dirty rectangles. */
module Driver {
  import opened Layout
  import opened Words
  import opened Pictures
  import opened Panel
  import opened Framebuffer

  class Display {
    var log: seq<Event>            // everything sent over SPI
    const temp: array<int>         // the static transfer buffer
    var size: nat
    ghost const start: Panel       // the panel before the first transfer

    ghost predicate Valid()
      reads this
    {
      temp.Length == BUFSIZE && size <= BUFSIZE
    }

    /** What the panel has become. */
    ghost function Shown(): Memory
      reads this
    {
      ExecAll(start, log).mem
    }

    constructor (ghost p: Panel)
      ensures Valid() && size == 0 && log == [] && start == p && fresh(temp)
    {
      log := [];
      temp := new int[BUFSIZE](i => BLACK);
      size := 0;
      start := p;
    }

    method Send(e: Event)
      modifies this`log
      ensures log == old(log) + [e]
    {
      log := log + [e];
    }

    method BufPush(v: int)
      requires Valid()
      modifies this`size, temp
      ensures Valid()
      ensures temp[..size] == if old(size) < 64 then old(temp[..size]) + [v] else old(temp[..size])
    {
      if size < BUFSIZE {
        temp[size] := v;
        size := size + 1;
      }
    }

    method BufClear()
      modifies this`size
      ensures size == 0
    {
      size := 0;
    }

    /** Since `pre` full chunks have been sent; with the words still buffered they make up `words`. */
    ghost predicate Streaming(pre: seq<Event>, chunks: seq<seq<int>>, words: seq<int>)
      reads this, temp
    {
      && Valid() && size < BUFSIZE
      && (forall i :: 0 <= i < |chunks| ==> |chunks[i]| == BUFSIZE)
      && log == pre + Chunks(chunks)
      && Flatten(chunks) + temp[..size] == words
    }

    lemma StartStreaming(pre: seq<Event>)
      requires Valid() && size == 0 && log == pre
      ensures Streaming(pre, [], [])
    {
    }

    /** One pixel into the buffer, and the buffer to the panel as soon as it is full: no word is lost. */
    method Emit(v: int, ghost pre: seq<Event>, ghost chunks: seq<seq<int>>, ghost words: seq<int>)
      returns (ghost chunks': seq<seq<int>>)
      requires Streaming(pre, chunks, words)
      modifies this`size, this`log, temp
      ensures Streaming(pre, chunks', words + [v])
    {
      hide Flatten, Chunks;
      BufPush(v);
      chunks' := chunks;
      if size == BUFSIZE {
        Send(Pixels(temp[..]));
        chunks' := chunks + [temp[..]];
        FlattenSnoc(chunks, temp[..]);
        assert temp[..size] == temp[..];
        BufClear();
      }
    }

    /** The tail of a transfer: a partly filled buffer is sent whole, stale words included. */
    method Finish(ghost pre: seq<Event>, ghost chunks: seq<seq<int>>, ghost words: seq<int>)
      returns (ghost chunks': seq<seq<int>>, ghost pad: seq<int>)
      requires Streaming(pre, chunks, words)
      modifies this`size, this`log
      ensures Valid() && size == 0
      ensures log == pre + Chunks(chunks') + [Command(NOP)]
      ensures forall i :: 0 <= i < |chunks'| ==> |chunks'[i]| == BUFSIZE
      ensures Flatten(chunks') == words + pad && |pad| < BUFSIZE
    {
      hide Flatten, Chunks;
      pad := [];
      chunks' := chunks;
      if size > 0 {
        pad := temp[size..];
        assert temp[..] == temp[..size] + pad;
        Send(Pixels(temp[..]));
        FlattenSnoc(chunks, temp[..]);
        chunks' := chunks + [temp[..]];
        BufClear();
      } else {
        assert temp[..size] == [];
      }
      Send(Command(NOP));
    }

    /** `update_rect_stm32`: the transfers between the window commands and the final no-op carry the
        pixels of the scanned byte rows, row by row, and fewer than 64 words of padding. */
    method UpdateRect(vb: Vbuf, q: BBox) returns (ghost chunks: seq<seq<int>>, ghost pad: seq<int>)
      requires Valid() && size == 0 && vb.Valid() && 0 <= q.x && 0 <= q.y
      modifies this`size, this`log, temp
      ensures Valid() && size == 0
      ensures log == old(log) + OpenWindow(q) + Chunks(chunks) + [Command(NOP)]
      ensures forall i :: 0 <= i < |chunks| ==> |chunks[i]| == 64
      ensures Flatten(chunks) == Stream(vb.Lit(), q.x, XEnd(q), q.y / 8 * 8, YEnd(q) / 8 * 8) + pad
      ensures |pad| < 64
    {
      hide vb.Lit, Bit, Shr, And, Streaming, Flatten, Chunks, Stream, RowWords;
      var x_end, y_end := XEnd(q), YEnd(q);
      Send(Command(CASET));
      Send(Address(q.x, x_end - 1));
      Send(Command(RASET));
      Send(Address(q.y, y_end - 1));
      Send(Command(RAMWR));
      ghost var pre := log;
      assert pre == old(log) + OpenWindow(q);

      ghost var pic, r0 := vb.Lit(), q.y / 8 * 8;
      chunks := [];
      StartStreaming(pre);
      StreamStart(pic, q.x, x_end, r0);
      var y := q.y / 8;
      while y < y_end / 8
        invariant q.y / 8 <= y && (y == q.y / 8 || y <= y_end / 8)
        invariant Streaming(pre, chunks, Stream(pic, q.x, x_end, r0, 8 * y))
      {
        for rem := 0 to 8
          invariant Streaming(pre, chunks, Stream(pic, q.x, x_end, r0, 8 * y + rem))
        {
          ghost var r := 8 * y + rem;
          ghost var rows := Stream(pic, q.x, x_end, r0, r);
          var x := q.x;
          RowStart(pic, rows, r, x);
          while x < x_end
            invariant q.x <= x && (x == q.x || x <= x_end)
            invariant Streaming(pre, chunks, rows + RowWords(pic, r, q.x, x))
          {
            var v := BLACK;
            PixelTest(vb, x, y, rem);
            if And(Shr(vb.buf[x, y], rem), 1) != 0 {
              v := WHITE;
            }
            chunks := Emit(v, pre, chunks, rows + RowWords(pic, r, q.x, x));
            NextWord(pic, rows, r, q.x, x);
            x := x + 1;
          }
          RowDone(pic, q.x, x, x_end, r0, r);
        }
        y := y + 1;
      }
      StreamDone(pic, q.x, x_end, r0, 8 * y, y_end / 8 * 8);
      chunks, pad := Finish(pre, chunks, Stream(pic, q.x, x_end, r0, 8 * y));
    }

    /** `display_update_rect` on a rectangle of the game: the panel shows the framebuffer inside the
        rectangle, and nothing else changes. */
    method Refresh(vb: Vbuf, q: BBox)
      requires Valid() && size == 0 && vb.Valid() && Aligned(q)
      modifies this`size, this`log, temp
      ensures Valid() && size == 0
      ensures Shown() == Painted(old(Shown()), vb.Lit(), [q])
    {
      hide vb.Lit, Stream, PaintRect, Painted, Flatten, Chunks, OpenWindow, ExecAll;
      ghost var chunks, pad := UpdateRect(vb, q);
      NoPadding(vb.Lit(), q, chunks, pad);
      ghost var sent := OpenWindow(q) + Chunks(chunks) + [Command(NOP)];
      ExecConcat(start, old(log), sent);
      assert log == old(log) + sent;
      StreamPaints(ExecAll(start, old(log)), q, vb.Lit(), chunks);
      PaintedOne(ExecAll(start, old(log)).mem, vb.Lit(), q);
    }

    /** `draw`: everything when the flag is set, otherwise every pending rectangle. */
    method Draw(vb: Vbuf)
      requires Valid() && size == 0 && vb.Valid()
      requires forall i :: 0 <= i < |vb.Pending()| ==> Aligned(vb.Pending()[i])
      modifies this`size, this`log, temp, vb`clearFlag, vb`size
      ensures Valid() && size == 0 && vb.Valid() && !vb.clearFlag
      ensures vb.Lit() == old(vb.Lit())
      ensures old(vb.clearFlag) ==> vb.Pending() == old(vb.Pending())
      ensures old(vb.clearFlag) ==> Shown() == Painted(old(Shown()), vb.Lit(), [SCREEN_BOX])
      ensures !old(vb.clearFlag) ==> vb.Pending() == []
      ensures !old(vb.clearFlag) ==> Shown() == Painted(old(Shown()), vb.Lit(), old(vb.Pending()))
    {
      hide Painted;
      if vb.clearFlag {
        GameBoxesAligned(Block(NORTH, 0, 0));
        Refresh(vb, SCREEN_BOX);
        vb.clearFlag := false;
        return;
      }
      ghost var drained: seq<BBox> := [];
      PaintedNone(Shown(), vb.Lit());
      while vb.size > 0
        invariant Valid() && size == 0 && vb.Valid() && !vb.clearFlag
        invariant vb.Lit() == old(vb.Lit())
        invariant old(vb.Pending()) == vb.Pending() + drained
        invariant Shown() == Painted(old(Shown()), vb.Lit(), drained)
        decreases vb.size
      {
        ghost var pending := vb.Pending();
        var ok, q := vb.Pop(BBox(0, 0, 0, 0));
        assert pending[|pending| - 1] == q && old(vb.Pending())[|pending| - 1] == q;
        Refresh(vb, q);
        PaintedTwice(old(Shown()), vb.Lit(), [q], drained);
        drained := [q] + drained;
      }
      assert vb.Pending() == [] && old(vb.Pending()) == drained;
    }
  }

  lemma NextWord(pic: Picture, rows: seq<int>, r: int, x0: int, x: int)
    requires x0 <= x
    ensures rows + RowWords(pic, r, x0, x + 1) == rows + RowWords(pic, r, x0, x) + [Ink(pic, Px(x, r))]
  {
  }

  lemma PixelTest(vb: Vbuf, x: int, y: int, rem: int)
    requires vb.Valid() && 0 <= x < DISP_COLS && 0 <= y < DISP_ROWS && 0 <= rem < 8
    ensures And(Shr(vb.buf[x, y], rem), 1) != 0 <==> Px(x, 8 * y + rem) in vb.Lit()
  {
    ShiftTest(vb.buf[x, y], rem);
    var p := Px(x, 8 * y + rem);
    assert p.r / 8 == y && p.r % 8 == rem;
  }

  lemma StreamStart(pic: Picture, x0: int, x1: int, r0: int)
    ensures Stream(pic, x0, x1, r0, r0) == []
  {
  }

  lemma RowStart(pic: Picture, rows: seq<int>, r: int, x: int)
    ensures rows + RowWords(pic, r, x, x) == rows
  {
  }

  lemma RowDone(pic: Picture, x0: int, x: int, x1: int, r0: int, r: int)
    requires x0 <= x && (x == x0 || x <= x1) && x >= x1 && r0 <= r
    ensures Stream(pic, x0, x1, r0, r) + RowWords(pic, r, x0, x) == Stream(pic, x0, x1, r0, r + 1)
  {
  }

  lemma StreamDone(pic: Picture, x0: int, x1: int, r0: int, r: int, r1: int)
    requires r0 <= r && (r == r0 || r <= r1) && r >= r1
    ensures Stream(pic, x0, x1, r0, r) == Stream(pic, x0, x1, r0, r1)
  {
  }

  lemma {:induction false} FlattenLength(cs: seq<seq<int>>)
    requires forall i :: 0 <= i < |cs| ==> |cs[i]| == BUFSIZE
    ensures |Flatten(cs)| == BUFSIZE * |cs|
  {
    if cs != [] {
      FlattenLength(cs[..|cs| - 1]);
    }
  }

  /** For an aligned rectangle the words sent are exactly the window: no padding is ever sent. */
  lemma NoPadding(pic: Picture, q: BBox, cs: seq<seq<int>>, pad: seq<int>)
    requires Aligned(q)
    requires forall i :: 0 <= i < |cs| ==> |cs[i]| == BUFSIZE
    requires Flatten(cs) == Stream(pic, q.x, XEnd(q), q.y / 8 * 8, YEnd(q) / 8 * 8) + pad && |pad| < BUFSIZE
    ensures pad == [] && Flatten(cs) == Stream(pic, q.x, XEnd(q), q.y, YEnd(q))
    ensures |Flatten(cs)| == (XEnd(q) - q.x) * (YEnd(q) - q.y)
  {
    hide Flatten, Stream, XEnd, YEnd;
    FlattenLength(cs);
    StreamLength(pic, q.x, XEnd(q), q.y, YEnd(q));
    var area := (XEnd(q) - q.x) * (YEnd(q) - q.y);
    assert BUFSIZE * |cs| == area + |pad|;
    assert area == BUFSIZE * (area / BUFSIZE);
  }

  lemma PaintedNone(m: Memory, pic: Picture)
    ensures Painted(m, pic, []) == m
  {
  }
}
