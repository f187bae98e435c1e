/** The program itself: the mutable state of main.c and the body of its loop, step by step. Every
    iteration computes exactly `World.Iterate`. */
module Firmware {
  import opened Layout
  import opened Words
  import opened Gamma
  import opened Board
  import opened GridOps
  import opened Rules
  import opened Pictures
  import opened Panel
  import opened Framebuffer
  import opened Driver
  import W = World
  import S = Schedule

  class Console {
    const vbuf: Vbuf
    const display: Display
    const grid: array<Word32>
    var blk: Block
    var bbox: BBox
    var score: nat

    /** The records are in shape and do not share memory. */
    ghost predicate Wired()
      reads this, vbuf, display
    {
      && vbuf.Valid() && display.Valid() && display.size == 0
      && grid.Length == GRID_ROWS
      && grid as object != display.temp && grid as object != vbuf.arr && display.temp as object != vbuf.arr
      && bbox == GammaBox(NORTH)
    }

    ghost predicate BoxesAligned()
      requires Wired()
      reads this, vbuf, vbuf.arr, display
    {
      forall i :: 0 <= i < |vbuf.Pending()| ==> Aligned(vbuf.Pending()[i])
    }

    ghost predicate Valid()
      reads this, vbuf, vbuf.arr, display, grid
    {
      Wired() && BoxesAligned() && InReach(Game(blk, Rows(grid), score))
    }

    /** The abstract state. */
    ghost function Now(): W.World
      requires Wired()
      reads this, vbuf, vbuf.buf, vbuf.arr, display, grid
    {
      W.World(Game(blk, Rows(grid), score), vbuf.Lit(), vbuf.Pending(), vbuf.clearFlag, display.Shown())
    }

    /** Everything before the loop. */
    constructor (ghost p: Panel)
      ensures Valid() && Now() == W.PowerUp(p.mem) && InGrid(Now().game)
      ensures fresh(vbuf) && fresh(vbuf.buf) && fresh(vbuf.arr) && fresh(display) && fresh(display.temp) && fresh(grid)
    {
      hide Vbuf.Lit, Cols, InGrid, InReach, Aligned, Rows;
      vbuf := new Vbuf();
      display := new Display(p);
      grid := new Word32[GRID_ROWS];
      blk := SPAWN;
      score := 0;
      bbox := GammaBox(NORTH);
      new;
      GridClear(grid);
      vbuf.Clear();
      bbox := SpawnBox();
      vbuf.SetFlag();
      StartInReach();
      assert Rows(grid) == START.grid;
    }

    method SpawnBox() returns (box: BBox)
      ensures box == GammaBox(NORTH)
    {
      box := OrientedBox(NORTH);
    }

    method OrientedBox(ori: Ori) returns (box: BBox)
      ensures box == GammaBox(ori)
    {
      GammaBoxIsTight(ori);
      assert RowTouched(PATTERNS[ori], GammaBox(ori).x);
      box := GetBBox(PATTERNS[ori]);
      TightIsUnique(PATTERNS[ori], box, GammaBox(ori));
    }

    /** `buttons_do_action`. */
    method ButtonsDoAction(inp: Input) returns (acted: bool)
      modifies this`blk
      ensures blk == Steered(old(blk), inp) && acted == Acted(old(blk), inp)
    {
      acted := false;
      var box := OrientedBox(blk.ori);
      if inp.left && blk.y + box.y > 0 {
        blk := blk.(y := blk.y - 1);
        acted := true;
      }
      if inp.right && blk.y + box.y < GRID_COLS - box.sizey - 1 {
        blk := blk.(y := blk.y + 1);
        acted := true;
      }
      if inp.down && blk.x + box.x < GRID_ROWS - box.sizex {
        blk := blk.(x := blk.x + 1);
        acted := true;
      }
      if inp.enter {
        blk := blk.(ori := (blk.ori + 1) % 4);
        acted := true;
      }
    }

    method UpdateBlock()
      requires Wired() && BoxesAligned() && 0 <= blk.y <= GRID_COLS - 3
      modifies vbuf`size, vbuf.arr
      ensures Wired() && BoxesAligned()
      ensures vbuf.Pending() == W.Pushed(old(vbuf.Pending()), UpdateBox(blk))
    {
      var mask := BBox(0, (blk.y - 2) * GRID_STEP, DISP_COLS * GRID_STEP, (BLOCK_HEIGHT + 4) * GRID_STEP);
      mask := mask.(y := Max(mask.y, 0));
      mask := mask.(x := Max(mask.x, 0));
      GameBoxesAligned(blk);
      var _ := vbuf.Push(mask);
    }

    /** The first part of an iteration, `hw->loop`: buttons, and a rectangle if any of them acted. */
    method Buttons(inp: Input)
      requires Valid() && InGrid(Now().game)
      modifies this`blk, vbuf`size, vbuf.arr
      ensures Valid() && Now() == W.AfterButtons(old(Now()), inp)
    {
      hide Steered, Acted, UpdateBox, Aligned, RowsWithin, Vbuf.Lit, W.PushedAll, Display.Shown;
      ghost var stack := vbuf.Pending();
      SteeredInGrid(Now().game, inp);
      PushedNone(stack);
      var acted := ButtonsDoAction(inp);
      if acted {
        UpdateBlock();
        PushedOne(stack, UpdateBox(blk));
      }
    }

    /** From the floor test to the collision test. The result says whether the piece is still inside
        the grid, and whether it has to be locked. */
    method Fall(tick: bool) returns (ok: bool, lock: bool)
      requires Wired() && BoxesAligned() && 0 <= blk.x && 0 <= blk.y <= GRID_COLS - 3
      modifies this`blk, vbuf`size, vbuf.arr, vbuf.buf
      ensures Wired() && BoxesAligned()
      ensures blk == if !OnFloor(old(blk)) && tick then old(blk).(x := old(blk).x + 1) else old(blk)
      ensures ok <==> blk.x + BLOCK_HEIGHT <= GRID_ROWS
      ensures vbuf.Lit() == if OnFloor(old(blk)) then old(vbuf.Lit()) else iset{}
      ensures vbuf.Pending() == W.PushedAll(old(vbuf.Pending()),
                                            if !OnFloor(old(blk)) && tick then [UpdateBox(blk)] else [])
      ensures ok ==> (lock <==> OnFloor(old(blk)) || Collides(blk, Rows(grid)))
    {
      if blk.x + bbox.x == GRID_ROWS - bbox.sizex {
        return true, true;
      }
      vbuf.Clear();
      if tick {
        blk := blk.(x := blk.x + 1);
        UpdateBlock();
        PushedOne(old(vbuf.Pending()), UpdateBox(blk));
      }
      if blk.x + BLOCK_HEIGHT > GRID_ROWS {
        return false, false;
      }
      lock := BlockCollides(blk, grid);
      ok := true;
    }

    /** The collision branch. */
    method Lock()
      requires Wired() && 0 <= blk.x <= GRID_ROWS - BLOCK_HEIGHT && 0 <= blk.y <= GRID_COLS - 3
      modifies this`blk, this`bbox, this`score, grid, vbuf`clearFlag
      ensures Wired() && vbuf.clearFlag && blk == SPAWN
      ensures Rows(grid) == ScanAll(Added(old(blk), old(Rows(grid)))).grid
      ensures score == old(score) + ScanAll(Added(old(blk), old(Rows(grid)))).cleared
    {
      BlockAdd(blk, grid);
      blk := SPAWN;
      bbox := SpawnBox();
      score := ScanRows(grid, score);
      vbuf.SetFlag();
    }

    /** Piece, grid and score into the framebuffer, and the score rectangle. */
    method Render()
      requires Wired() && BoxesAligned() && 0 <= blk.x && 0 <= blk.y
      modifies vbuf.buf, vbuf`size, vbuf.arr
      ensures Wired() && BoxesAligned()
      ensures vbuf.Lit() == old(vbuf.Lit()) + Frame(Game(blk, Rows(grid), score))
      ensures vbuf.Pending() == W.Pushed(old(vbuf.Pending()), SCORE_BOX)
    {
      hide BlockPicture, GridPicture, TextPicture, Vbuf.Lit;
      vbuf.BlockDraw(blk);
      vbuf.GridDraw(grid);
      vbuf.TextDrawNumber(score % 0x100, 0, 0);
      TextOfScore(score);
      ghost var was, now := old(vbuf.Lit()), vbuf.Lit();
      assert now == was + BlockPicture(blk) + GridPicture(Rows(grid)) + TextPicture(score);
      assert now == was + Frame(Game(blk, Rows(grid), score));
      GameBoxesAligned(SPAWN);
      var _ := vbuf.Push(SCORE_BOX);
    }

    /** The second part: the rest of the loop, up to `draw`. It stops when the piece has left the grid. */
    method Body(tick: bool) returns (ok: bool)
      requires Valid()
      modifies this`blk, this`bbox, this`score, grid, vbuf, vbuf.buf, vbuf.arr
      ensures ok <==> !Faults(old(blk), W.Only(tick))
      ensures ok ==> Valid() && InGrid(Now().game) && Now() == W.Advance(old(Now()), W.Only(tick))
    {
      hide Frame, Painted, Steered, Acted, UpdateBox, Aligned, Added, ScanFrom, Collides, RowsWithin, Vbuf.Lit, Step,
        W.PushedAll, W.Pushed, W.Requests;
      ghost var w := Now();
      ghost var inp := W.Only(tick);
      W.OnlySteers(blk, tick);
      var lock;
      ok, lock := Fall(tick);
      if !ok {
        return;
      }
      assert blk == Fallen(w.game.blk, inp);
      StepInGrid(w.game, inp);
      FallenInGrid(w.game, inp);
      if lock {
        Lock();
      }
      StepIs(w.game, inp, Game(blk, Rows(grid), score));
      Render();
      PushedRequests(w.stack, w.game.blk, tick);
    }

    /** Both parts: one iteration up to `draw`, which leaves the grid exactly on the overshooting input. */
    method Advance(inp: Input) returns (ok: bool)
      requires Valid() && InGrid(Now().game)
      modifies this`blk, this`bbox, this`score, grid, vbuf, vbuf.buf, vbuf.arr
      ensures ok <==> !Overshoots(old(Now()).game, inp)
      ensures ok ==> Valid() && InGrid(Now().game) && Now() == W.Advance(old(Now()), inp)
    {
      hide Faults, Overshoots, InGrid, Step, Locks, Fallen, W.Advance;
      ghost var w := Now();
      FaultsExactly(w.game, inp);
      W.StepParts(w.game, inp);
      W.TwoParts(w, inp);
      Buttons(inp);
      ok := Body(inp.tick);
    }

    /** `draw`, as the loop or the video thread runs it. */
    method Video()
      requires Valid()
      modifies vbuf`clearFlag, vbuf`size, display`log, display`size, display.temp
      ensures Valid() && Now() == W.Drawn(old(Now()))
    {
      hide Painted, Aligned, InReach, Vbuf.Lit;
      display.Draw(vbuf);
    }

    /** The loop body that ends with `draw`. */
    method Iteration(inp: Input) returns (ok: bool)
      requires Valid() && InGrid(Now().game)
      modifies this`blk, this`bbox, this`score, grid, vbuf, vbuf.buf, vbuf.arr, display`log, display`size, display.temp
      ensures ok <==> !Overshoots(old(Now()).game, inp)
      ensures ok ==> Valid() && InGrid(Now().game) && Now() == W.Iterate(old(Now()), inp)
    {
      hide W.Advance, W.Drawn, InGrid;
      ok := Advance(inp);
      if ok {
        W.DrawnKeeps(Now());
        Video();
      }
    }

    /** One event of a schedule of the board. */
    method Occur(ghost d: S.Device, e: S.Event) returns (ok: bool)
      requires Valid() && Now() == d.w && (e.Buttons? ==> InGrid(Now().game))
      modifies this`blk, this`bbox, this`score, grid, vbuf, vbuf.buf, vbuf.arr, display`log, display`size, display.temp
      ensures ok <==> !(e.Body? && Faults(d.w.game.blk, W.Only(e.tick)))
      ensures ok ==> Valid() && Now() == S.Next(d, e).w
      ensures ok && e.Body? ==> InGrid(Now().game)
      ensures e.Video? ==> Now().game == d.w.game
    {
      hide W.Advance, W.AfterButtons, W.Drawn, Step, InGrid, InReach, Rows, Vbuf.Lit, Vbuf.Pending, Aligned,
        Display.Shown, Faults, S.Content, S.Faded, S.Catches;
      ok := true;
      match e {
        case Video =>
          W.DrawnKeeps(Now());
          Video();
        case Buttons(inp) =>
          Buttons(inp);
        case Body(tick) =>
          ok := Body(tick);
      }
    }
  }

  /** Power-up and any number of iterations, each ending with one `draw`, as main.c:139 places it, on the
      rectangle driver. It ends early exactly when the piece leaves the grid; otherwise the device is in
      the abstract state of the run, and after a calm run whose last redraw can be trusted the panel
      shows the framebuffer. */
  method DrawEachIteration(ghost p: Panel, ins: seq<Input>) returns (c: Console, ok: bool)
    ensures ok <==> Play(ins).Playing?
    ensures ok ==> c.Valid() && c.Now() == W.After(p.mem, ins)
    ensures ok && W.Calm(ins) && W.Trusted(ins) ==> W.Synced(c.display.Shown(), c.vbuf.Lit())
  {
    hide W.Iterate, W.Calm, W.Trusted, W.Synced, W.PowerUp, Step, InGrid, InReach, Rows, Vbuf.Lit, Vbuf.Pending,
      Aligned, Display.Shown, Overshoots, Faults;
    c := new Console(p);
    var i := 0;
    assert ins[..0] == [];
    while i < |ins|
      invariant 0 <= i <= |ins|
      invariant fresh(c) && fresh(c.vbuf) && fresh(c.vbuf.buf) && fresh(c.vbuf.arr)
      invariant fresh(c.display) && fresh(c.display.temp) && fresh(c.grid)
      invariant c.Valid() && c.Now() == W.After(p.mem, ins[..i]) && Play(ins[..i]).Playing?
    {
      W.AfterPlays(p.mem, ins[..i]);
      FaultsExactly(c.Now().game, ins[i]);
      assert ins[..i + 1][..i] == ins[..i];
      ok := c.Iteration(ins[i]);
      if !ok {
        if Play(ins).Playing? {
          PlayPrefix(ins, i + 1);
        }
        return;
      }
      i := i + 1;
    }
    assert ins[..i] == ins;
    ok := true;
    if W.Calm(ins) && W.Trusted(ins) {
      W.CalmPanelInSync(p.mem, ins);
    }
  }

  /** The board: the two parts of each iteration, with draws in between and after them in any order. The
      device is in the abstract state of that schedule, unless the piece leaves the grid. */
  method RunBoard(ghost p: Panel, es: seq<S.Event>) returns (c: Console, ok: bool)
    requires S.Alternates(es)
    ensures ok <==> Play(S.Inputs(es)).Playing?
    ensures ok ==> c.Valid() && c.Now() == S.Ran(p.mem, es).w
    ensures fresh(c) && fresh(c.vbuf) && fresh(c.vbuf.buf) && fresh(c.vbuf.arr)
    ensures fresh(c.display) && fresh(c.display.temp) && fresh(c.grid)
  {
    hide W.PowerUp, InGrid, InReach, Console.Wired, Console.BoxesAligned, Console.Now, Rows, Faults, S.Next, S.Ran,
      S.Inputs, Play, S.Mid, S.Alternates;
    c := new Console(p);
    var i := 0;
    StartPlayed(p.mem, es);
    while i < |es|
      invariant 0 <= i <= |es|
      invariant fresh(c) && fresh(c.vbuf) && fresh(c.vbuf.buf) && fresh(c.vbuf.arr)
      invariant fresh(c.display) && fresh(c.display.temp) && fresh(c.grid)
      invariant c.Valid() && c.Now() == S.Ran(p.mem, es[..i]).w
      invariant Play(S.Inputs(es[..i])).Playing?
      invariant !S.Mid(es[..i]) ==> InGrid(c.Now().game)
    {
      NextPlayed(p.mem, es, i);
      ok := c.Occur(S.Ran(p.mem, es[..i]), es[i]);
      if !ok {
        return;
      }
      i := i + 1;
    }
    assert es[..i] == es;
    ok := true;
  }

  /** One more draw, and the panel shows what the schedule says, pixel by pixel; it shows the framebuffer
      exactly when a redraw was due, or piece and ghosts on the panel agree with the framebuffer. */
  method RunBoardAndDraw(ghost p: Panel, es: seq<S.Event>) returns (c: Console, ok: bool)
    requires S.Alternates(es)
    ensures ok <==> Play(S.Inputs(es)).Playing?
    ensures ok ==> c.Valid()
    ensures ok && S.Sound(p.mem, es) ==>
              var d := S.Ran(p.mem, es);
              && (W.Synced(c.display.Shown(), c.vbuf.Lit()) <==> d.w.flag || S.Agree(d))
              && forall q: Pixel :: OnScreen(q) ==> W.Shows(c.display.Shown(), S.Seen(S.OnVideo(d)), q)
  {
    hide W.Advance, W.Drawn, W.Synced, W.Shows, InGrid, InReach, Rows, Vbuf.Lit, Vbuf.Pending, Aligned, Display.Shown,
      S.Ran, S.Inputs, Play, S.Sound, S.Agree, S.Seen, S.Tracked;
    c, ok := RunBoard(p, es);
    if ok {
      c.Video();
      if S.Sound(p.mem, es) {
        S.DrawSyncsExactly(p.mem, es);
        S.NextDrawShows(p.mem, es);
        assert c.Now() == W.Drawn(S.Ran(p.mem, es).w);
      }
    }
  }

  lemma StartInReach()
    ensures InGrid(START) && InReach(START)
  {
    RunInGrid([]);
  }

  lemma StartPlayed(mem: Memory, es: seq<S.Event>)
    ensures S.Ran(mem, es[..0]).w == W.PowerUp(mem) && Play(S.Inputs(es[..0])).Playing?
  {
    assert es[..0] == [];
  }

  lemma {:induction false} AlternatesPrefix(es: seq<S.Event>, k: nat)
    requires S.Alternates(es) && k <= |es|
    ensures S.Alternates(es[..k])
  {
    if k < |es| {
      AlternatesPrefix(es[..|es| - 1], k);
      assert es[..|es| - 1][..k] == es[..k];
    } else {
      assert es[..k] == es;
    }
  }

  // One more event of a schedule, as the device and the game see it.
  lemma NextPlayed(mem: Memory, es: seq<S.Event>, i: nat)
    requires i < |es| && S.Alternates(es) && Play(S.Inputs(es[..i])).Playing?
    ensures var d := S.Ran(mem, es[..i]); S.Ran(mem, es[..i + 1]).w == S.Next(d, es[i]).w
    ensures es[i].Buttons? ==> !S.Mid(es[..i]) && S.Mid(es[..i + 1]) && Play(S.Inputs(es[..i + 1])).Playing?
    ensures es[i].Video? ==> S.Mid(es[..i + 1]) == S.Mid(es[..i]) && Play(S.Inputs(es[..i + 1])).Playing?
    ensures es[i].Body? ==> var fault := Faults(S.Ran(mem, es[..i]).w.game.blk, W.Only(es[i].tick));
                            && (fault ==> !Play(S.Inputs(es)).Playing?)
                            && (!fault ==> Play(S.Inputs(es[..i + 1])).Playing?)
  {
    hide Step, Faults, Play, Steered, S.Next, S.Ran;
    var pre, now := es[..i], es[..i + 1];
    assert now == pre + [es[i]] && now[..i] == pre;
    AlternatesPrefix(es, i);
    AlternatesPrefix(es, i + 1);
    S.Then(mem, pre, es[i]);
    S.RanPlays(mem, pre);
    if es[i].Body? {
      var inp := S.LastButtons(pre);
      S.PlayMore(S.Inputs(pre), inp.(tick := es[i].tick));
      S.BodyPlays(Play(S.Inputs(pre)).game, inp, es[i].tick);
      if !Play(S.Inputs(now)).Playing? {
        InputsPrefix(es, i + 1);
      }
    }
  }

  lemma {:induction false} InputsPrefix(es: seq<S.Event>, k: nat)
    requires k <= |es| && !Play(S.Inputs(es[..k])).Playing?
    ensures !Play(S.Inputs(es)).Playing?
  {
    hide Step, Faults, Play;
    if k < |es| {
      var pre := es[..|es| - 1];
      assert pre[..k] == es[..k];
      InputsPrefix(pre, k);
      if es[|es| - 1].Body? {
        S.PlayMore(S.Inputs(pre), S.LastButtons(pre).(tick := es[|es| - 1].tick));
      }
    } else {
      assert es[..k] == es;
    }
  }

  lemma PushedOne(stack: seq<BBox>, q: BBox)
    ensures W.PushedAll(stack, [q]) == W.Pushed(stack, q)
  {
    assert [q][..0] == [];
  }

  lemma PushedNone(stack: seq<BBox>)
    ensures W.PushedAll(stack, []) == stack
  {
  }

  lemma TextOfScore(score: nat)
    ensures DigitsPicture(Digits(score % 0x100), 0, 0) == TextPicture(score)
  {
  }

  lemma StepIs(g: Game, inp: Input, h: Game)
    requires Locks(g, inp) ==> h.blk == SPAWN && h.grid == ScanAll(Added(Fallen(g.blk, inp), g.grid)).grid
                               && h.score == g.score + ScanAll(Added(Fallen(g.blk, inp), g.grid)).cleared
    requires !Locks(g, inp) ==> h == Game(Fallen(g.blk, inp), g.grid, g.score)
    ensures h == Step(g, inp)
  {
    hide ScanFrom, Added, Collides, Steered;
  }

  lemma PushedRequests(stack: seq<BBox>, b: Block, tick: bool)
    ensures var t := if !OnFloor(b) && tick then [UpdateBox(Fallen(b, W.Only(tick)))] else [];
            W.Pushed(W.PushedAll(stack, t), SCORE_BOX) == W.PushedAll(stack, W.Requests(b, W.Only(tick)))
  {
    hide Steered, Acted, UpdateBox, W.PushedAll, W.Pushed;
    var t := if !OnFloor(b) && tick then [UpdateBox(Fallen(b, W.Only(tick)))] else [];
    W.OnlySteers(b, tick);
    PushedOne(W.PushedAll(stack, t), SCORE_BOX);
    W.PushedConcat(stack, t, [SCORE_BOX]);
    assert W.Requests(b, W.Only(tick)) == t + [SCORE_BOX];
  }
}
