/** The board build. An iteration has two parts: the buttons with their rectangle, after which
    `hw->loop` sleeps, and the body of the loop. A video thread runs `draw` whenever the loop lets it:
    between iterations, and during that sleep. What the panel shows, exactly, under every schedule. */
module Schedule {
  import opened Layout
  import opened Board
  import opened Rules
  import opened Pictures
  import opened Panel
  import opened World

  datatype Event = Buttons(inp: Input) | Body(tick: bool) | Video

  /** A piece in the framebuffer or on the panel, or none: before the first frame both are blank. */
  datatype Sprite = Absent | At(blk: Block)

  /** The device, and what has happened to it so far; nothing of that history looks at the panel. */
  datatype Device = Device(
    w: World,
    mid: bool,        // the buttons of the current iteration are done, its body is not
    armed: bool,      // in this iteration a button acted, and its rectangle is still pending
    drawn: Sprite,    // the piece in the framebuffer
    shown: Sprite,    // the piece on the panel
    under: Picture,   // the previous frame, left in the framebuffer by a floor lock
    ghosts: Picture,  // what of such a frame a redraw has left on the panel
    sticky: bool,     // the last body was a floor lock that cleared a row or whose piece had moved
    haunted: bool)    // the last redraw showed a sticky lock

  /** The frame in the framebuffer. */
  ghost function Content(d: Device): Picture {
    if d.drawn.At? then Frame(d.w.game.(blk := d.drawn.blk)) else iset{}
  }

  ghost function SpritePicture(s: Sprite): Picture {
    if s.At? then BlockPicture(s.blk) else iset{}
  }

  /** The locked cells with a piece somewhere: a frame without its score. */
  ghost function Scene(g: Game, s: Sprite): Picture {
    SpritePicture(s) + GridPicture(g.grid)
  }

  /** Rectangles wipe old pixels off the panel once the framebuffer has dropped them. */
  ghost function Faded(ghosts: Picture, under: Picture, stack: seq<BBox>): Picture {
    if under == iset{} then Outside(ghosts, stack) else ghosts
  }

  /** A button that acts has the piece of the framebuffer redrawn. */
  ghost function OnButtons(d: Device, inp: Input): Device {
    var w, acted := AfterButtons(d.w, inp), Acted(d.w.game.blk, inp);
    d.(w := w, mid := true, armed := acted, shown := if acted then d.drawn else d.shown,
       ghosts := Faded(d.ghosts, d.under, w.stack))
  }

  /** The new piece reaches the panel with a tick, with a lock, or if the button's rectangle has not
      been drained too early. */
  ghost predicate Catches(d: Device, tick: bool) {
    tick || d.armed || Locks(d.w.game, Only(tick))
  }

  ghost function OnBody(d: Device, tick: bool): Device {
    var w := Advance(d.w, Only(tick));
    var floor := OnFloor(d.w.game.blk);
    var under := if floor then Content(d) + d.under else iset{};
    Device(w, false, false, At(w.game.blk), if Catches(d, tick) then At(w.game.blk) else d.shown,
           under, Faded(d.ghosts, under, w.stack),
           floor && (w.game.score != d.w.game.score || d.drawn != At(d.w.game.blk)), d.haunted)
  }

  ghost function OnVideo(d: Device): Device {
    if d.w.flag then d.(w := Drawn(d.w), shown := d.drawn, ghosts := d.under, haunted := d.sticky)
    else d.(w := Drawn(d.w), armed := false)
  }

  ghost function Next(d: Device, e: Event): Device {
    match e
    case Buttons(inp) => OnButtons(d, inp)
    case Body(tick) => OnBody(d, tick)
    case Video => OnVideo(d)
  }

  ghost function Ran(mem: Memory, es: seq<Event>): Device {
    if es == [] then Device(PowerUp(mem), false, false, Absent, Absent, iset{}, iset{}, false, false)
    else Next(Ran(mem, es[..|es| - 1]), es[|es| - 1])
  }

  /** The parts of an iteration alternate, the piece stays in the grid, and no rectangle is lost. */
  ghost predicate Legal(d: Device, e: Event) {
    match e
    case Buttons(inp) => !d.mid && |d.w.stack| + |ButtonBoxes(d.w.game.blk, inp)| <= STACKSIZE
    case Body(tick) => d.mid && !Faults(d.w.game.blk, Only(tick)) && Fits(d.w, Only(tick))
    case Video => true
  }

  ghost predicate Sound(mem: Memory, es: seq<Event>) {
    es == [] || (Sound(mem, es[..|es| - 1]) && Legal(Ran(mem, es[..|es| - 1]), es[|es| - 1]))
  }

  lemma Then(mem: Memory, es: seq<Event>, e: Event)
    ensures Ran(mem, es + [e]) == Next(Ran(mem, es), e)
    ensures Sound(mem, es + [e]) <==> Sound(mem, es) && Legal(Ran(mem, es), e)
  {
    hide Next, Legal;
    assert (es + [e])[..|es|] == es;
  }

  // ---------------------------------------------------------------- the framebuffer

  /** The piece at the beginning of the iteration. */
  function Last(d: Device): Block {
    if d.drawn.At? then d.drawn.blk else START.blk
  }

  ghost predicate OnlyScore(s: seq<BBox>) {
    forall q :: q in s ==> q == SCORE_BOX
  }

  /** Nothing of the picture is visible beside the score and the locked cells. */
  ghost predicate Covered(pic: Picture, g: Grid) {
    forall p: Pixel :: p in pic ==> InBox(p, SCORE_BOX) || p in GridPicture(g)
  }

  /** Where the piece is, relative to the framebuffer and the panel. */
  ghost predicate Close(d: Device) {
    var b, l := d.w.game.blk, Last(d);
    && l.x <= b.x <= l.x + 1
    && l.y - 1 <= b.y <= l.y + 1 && 0 <= b.y <= GRID_COLS - 3
    && (!d.mid ==> b == l && !d.armed)
    && (d.armed ==> UpdateBox(b) in d.w.stack)
    && (b != l && !d.armed ==> d.w.stack == [])
    && (b != l ==> d.shown == d.drawn)
    && (d.shown.At? ==> d.shown.blk.y - 1 <= b.y <= d.shown.blk.y + 1)
    && (d.shown != d.drawn ==> OnlyScore(d.w.stack))
  }

  /** Before the first frame everything is blank. */
  ghost predicate Blank(d: Device) {
    d.shown == Absent && d.w.game.grid == START.grid && d.under == iset{} && (d.armed || d.w.stack == [])
  }

  ghost predicate Consistent(d: Device) {
    && d.w.fb == Content(d) + d.under
    && InGrid(d.w.game.(blk := Last(d)))
    && Close(d)
    && (d.drawn.Absent? ==> Blank(d))
    && (d.under == iset{} || Last(d).x == 0)
  }

  /** How old frames are left behind. */
  ghost predicate Haunts(d: Device) {
    && (!d.sticky ==> Covered(d.under, d.w.game.grid))
    && (!d.w.flag && !d.haunted ==> Covered(d.ghosts, d.w.game.grid))
    && (d.under == iset{} ==> forall p: Pixel :: p in d.ghosts ==> !InBoxes(p, d.w.stack))
    && (!d.w.flag && d.under != iset{} ==> d.ghosts == d.under && d.shown == d.drawn)
  }

  lemma StartConsistent(mem: Memory)
    ensures Consistent(Ran(mem, [])) && Haunts(Ran(mem, []))
  {
    hide Frame;
    RunInGrid([]);
  }

  lemma ButtonsConsistent(d: Device, inp: Input)
    requires Consistent(d) && Legal(d, Buttons(inp))
    ensures Consistent(OnButtons(d, inp))
  {
    hide Frame, Steered, Acted, UpdateBox, PushedAll, InGrid, InBoxes;
    var b, v := d.w.game.blk, OnButtons(d, inp);
    assert d.w.game.(blk := Last(d)) == d.w.game;
    SteeredInGrid(d.w.game, inp);
    SteeredNearby(b, inp);
    PushedFits(d.w.stack, ButtonBoxes(b, inp));
    if Acted(b, inp) {
      assert v.w.stack == d.w.stack + [UpdateBox(Steered(b, inp))];
      assert v.w.stack[|d.w.stack|] == UpdateBox(Steered(b, inp));
    }
  }

  // What the body of an iteration starts from.
  lemma BodyInGrid(d: Device, tick: bool)
    requires Consistent(d) && Legal(d, Body(tick))
    ensures InGrid(d.w.game) && InGrid(Step(d.w.game, Only(tick)))
    ensures Steered(d.w.game.blk, Only(tick)) == d.w.game.blk
    ensures OnFloor(d.w.game.blk) ==> d.under == iset{} && d.drawn.At?
  {
    hide Frame, Step, InBoxes, RowsWithin, Fits;
    var g := d.w.game;
    OnlySteers(g.blk, tick);
    assert g.blk.x <= Fallen(g.blk, Only(tick)).x;
    StepInGrid(g, Only(tick));
  }

  // A body without a lock only lets the piece fall.
  lemma QuietBody(g: Game, tick: bool)
    requires !Locks(g, Only(tick))
    ensures Step(g, Only(tick)) == g.(blk := if tick then g.blk.(x := g.blk.x + 1) else g.blk) && !OnFloor(g.blk)
    ensures tick ==> Requests(g.blk, Only(tick)) == [UpdateBox(g.blk.(x := g.blk.x + 1)), SCORE_BOX]
    ensures !tick ==> Requests(g.blk, Only(tick)) == [SCORE_BOX]
  {
    hide Collides, UpdateBox;
    OnlySteers(g.blk, tick);
  }

  lemma BodyStack(d: Device, tick: bool)
    requires Legal(d, Body(tick))
    ensures OnBody(d, tick).w.stack == d.w.stack + Requests(d.w.game.blk, Only(tick))
    ensures SCORE_BOX in OnBody(d, tick).w.stack
  {
    hide Frame, Step, Locks, PushedAll, Pushes, Faults;
    PushedFits(d.w.stack, Requests(d.w.game.blk, Only(tick)));
    var s := d.w.stack + Requests(d.w.game.blk, Only(tick));
    assert s[|s| - 1] == SCORE_BOX;
  }

  lemma BodyConsistent(d: Device, tick: bool)
    requires Consistent(d) && Legal(d, Body(tick))
    ensures Consistent(OnBody(d, tick))
  {
    hide Frame, InBoxes, InGrid, PushedAll, UpdateBox, Fits, Requests, Locks, Step, Steered, Faults;
    var v := OnBody(d, tick);
    BodyInGrid(d, tick);
    BodyStack(d, tick);
    assert v.w.game.(blk := Last(v)) == v.w.game;
    InGridColumns(v.w.game);
    if Locks(d.w.game, Only(tick)) {
      LockSpawns(d.w.game, tick);
    } else {
      QuietBody(d.w.game, tick);
    }
  }

  lemma LockSpawns(g: Game, tick: bool)
    requires Locks(g, Only(tick))
    ensures Step(g, Only(tick)).blk == SPAWN
  {
    hide ScanFrom, Added, Collides;
  }

  lemma InGridColumns(g: Game)
    requires InGrid(g)
    ensures 0 <= g.blk.y <= GRID_COLS - 3
  {
  }

  lemma VideoConsistent(d: Device)
    requires Consistent(d)
    ensures Consistent(OnVideo(d))
  {
    hide Frame, InBoxes, InGrid, UpdateBox, Painted;
  }

  // ---------------------------------------------------------------- old frames

  // A floor lock that is not sticky keeps every cell of the frame before.
  lemma PlainLockCovers(d: Device, tick: bool)
    requires Consistent(d) && Legal(d, Body(tick)) && OnFloor(d.w.game.blk) && !OnBody(d, tick).sticky
    ensures Covered(Content(d) + d.under, Step(d.w.game, Only(tick)).grid)
  {
    hide Frame, GridPicture, TextPicture, InBoxes, InGrid, InBox, Step, Pushes, Fits, Steered, Locks;
    var g := d.w.game;
    BodyInGrid(d, tick);
    NoPushesOnFloor(g.blk, tick);
    assert g.(blk := g.blk) == g;
    forall p: Pixel | p in Frame(g) ensures InBox(p, SCORE_BOX) || p in GridPicture(Step(g, Only(tick)).grid) {
      FloorLockKeepsCells(g, Only(tick), p);
      if p in TextPicture(g.score) {
        ScoreInsideBox(g.score, p);
      }
    }
  }

  lemma NoPushesOnFloor(b: Block, tick: bool)
    requires OnFloor(b)
    ensures Pushes(b, Only(tick)) == [] && forall p :: !InBoxes(p, Pushes(b, Only(tick)))
  {
    OnlySteers(b, tick);
  }

  lemma ButtonsHaunts(d: Device, inp: Input)
    requires Haunts(d)
    ensures Haunts(OnButtons(d, inp))
  {
    hide Steered, Acted, PushedAll, InBoxes, InBox, GridPicture;
  }

  lemma BodyHaunts(d: Device, tick: bool)
    requires Consistent(d) && Haunts(d) && Legal(d, Body(tick))
    ensures Haunts(OnBody(d, tick))
  {
    hide Frame, InBoxes, InBox, InGrid, PushedAll, Fits, Requests, Locks, Step, Steered, Faults, GridPicture, Close;
    BodyInGrid(d, tick);
    if OnFloor(d.w.game.blk) && !OnBody(d, tick).sticky {
      PlainLockCovers(d, tick);
    }
    if !Locks(d.w.game, Only(tick)) {
      QuietBody(d.w.game, tick);
    } else {
      assert OnBody(d, tick).w.flag;
    }
  }

  lemma VideoHaunts(d: Device)
    requires Haunts(d)
    ensures Haunts(OnVideo(d))
  {
    hide InBox, GridPicture, Painted;
  }

  // ---------------------------------------------------------------- the panel

  /** What the panel shows: the score of the framebuffer, and beside it the locked cells, the piece
      last shown, and the ghosts. */
  ghost function Seen(d: Device): Picture {
    iset p: Pixel | if InBox(p, SCORE_BOX) then p in d.w.fb else p in Scene(d.w.game, d.shown) + d.ghosts
  }

  /** While no redraw is due, outside the pending rectangles. */
  ghost predicate PanelAsTracked(d: Device) {
    !d.w.flag ==> forall p: Pixel :: OnScreen(p) && !InBoxes(p, d.w.stack) ==> Shows(d.w.panel, Seen(d), p)
  }

  // A pending rectangle covers the pieces near its column.
  lemma CoveredBy(s: seq<BBox>, at: Block, b: Sprite, p: Pixel)
    requires UpdateBox(at) in s && !InBoxes(p, s)
    requires b.At? ==> at.y - 2 <= b.blk.y <= at.y + 2
    ensures p !in SpritePicture(b)
  {
    hide BlockPicture, UpdateBox, InBox;
    var i :| 0 <= i < |s| && s[i] == UpdateBox(at);
    if b.At? && p in BlockPicture(b.blk) {
      BlockInsideBox(b.blk, at, p);
    }
  }

  lemma ScorePending(s: seq<BBox>, p: Pixel)
    requires SCORE_BOX in s && !InBoxes(p, s)
    ensures !InBox(p, SCORE_BOX)
  {
    hide InBox;
    var i :| 0 <= i < |s| && s[i] == SCORE_BOX;
  }

  lemma ScoreOnly(s: seq<BBox>, p: Pixel)
    requires OnlyScore(s) && InBoxes(p, s)
    ensures InBox(p, SCORE_BOX)
  {
    hide InBox;
    var i :| 0 <= i < |s| && InBox(p, s[i]);
    assert s[i] in s;
  }

  lemma ButtonsPanel(d: Device, inp: Input)
    requires Consistent(d) && Legal(d, Buttons(inp)) && PanelAsTracked(d)
    ensures PanelAsTracked(OnButtons(d, inp))
  {
    hide Frame, Steered, Acted, UpdateBox, PushedAll, InBoxes, InBox, InGrid, SpritePicture, GridPicture, Content;
    var b, v := d.w.game.blk, OnButtons(d, inp);
    PushedFits(d.w.stack, ButtonBoxes(b, inp));
    forall p: Pixel | !v.w.flag && OnScreen(p) && !InBoxes(p, v.w.stack) ensures Shows(v.w.panel, Seen(v), p) {
      InBoxesSplit(p, d.w.stack, ButtonBoxes(b, inp));
      assert Shows(d.w.panel, Seen(d), p);
      if Acted(b, inp) {
        SteeredNearby(b, inp);
        assert v.w.stack[|d.w.stack|] == UpdateBox(Steered(b, inp));
        CoveredBy(v.w.stack, Steered(b, inp), d.drawn, p);
        CoveredBy(v.w.stack, Steered(b, inp), d.shown, p);
      }
    }
  }

  // A body that catches up has a rectangle over the piece shown and the new piece.
  lemma CatchCovers(d: Device, tick: bool, p: Pixel)
    requires Consistent(d) && Legal(d, Body(tick)) && Catches(d, tick) && !Locks(d.w.game, Only(tick))
    requires !InBoxes(p, OnBody(d, tick).w.stack)
    ensures p !in SpritePicture(d.shown) && p !in SpritePicture(At(OnBody(d, tick).w.game.blk))
  {
    hide Frame, UpdateBox, PushedAll, InBoxes, InGrid, SpritePicture, Steered, Locks, Step, Requests, Fits, Faults;
    var b, v := d.w.game.blk, OnBody(d, tick);
    BodyStack(d, tick);
    QuietBody(d.w.game, tick);
    if tick {
      assert v.w.stack[|d.w.stack|] == UpdateBox(v.w.game.blk);
    } else {
      assert v.w.game.blk == b && UpdateBox(b) in v.w.stack;
    }
    CoveredBy(v.w.stack, v.w.game.blk, d.shown, p);
    CoveredBy(v.w.stack, v.w.game.blk, At(v.w.game.blk), p);
  }

  lemma BodyPanel(d: Device, tick: bool)
    requires Consistent(d) && Legal(d, Body(tick)) && PanelAsTracked(d)
    ensures PanelAsTracked(OnBody(d, tick))
  {
    hide Frame, Step, Locks, Steered, PushedAll, InBoxes, InBox, InGrid, Requests, Close, Content, SpritePicture,
      GridPicture, Fits, Faults;
    var v, reqs := OnBody(d, tick), Requests(d.w.game.blk, Only(tick));
    BodyStack(d, tick);
    forall p: Pixel | !v.w.flag && OnScreen(p) && !InBoxes(p, v.w.stack) ensures Shows(v.w.panel, Seen(v), p) {
      QuietBody(d.w.game, tick);
      ScorePending(v.w.stack, p);
      InBoxesSplit(p, d.w.stack, reqs);
      assert Shows(d.w.panel, Seen(d), p);
      if Catches(d, tick) {
        CatchCovers(d, tick, p);
      }
    }
  }

  // Beside the score the framebuffer is the scene, and what a floor lock has left.
  lemma FramebufferScene(d: Device, p: Pixel)
    requires Consistent(d) && !InBox(p, SCORE_BOX)
    ensures p in d.w.fb <==> p in Scene(d.w.game, d.drawn) + d.under
  {
    hide BlockPicture, TextPicture, InBox, InGrid, Close;
    if d.drawn.At? {
      if p in TextPicture(d.w.game.score) {
        ScoreInsideBox(d.w.game.score, p);
      }
    } else {
      assert p !in GridPicture(START.grid);
    }
  }

  // Pending rectangles hold nothing that the panel lacks.
  lemma PendingAgrees(d: Device, p: Pixel)
    requires Consistent(d) && Haunts(d) && !d.w.flag && InBoxes(p, d.w.stack)
    ensures p in Seen(d) <==> p in d.w.fb
  {
    hide InBoxes, InBox, InGrid, SpritePicture, GridPicture, Content, Covered, UpdateBox;
    if !InBox(p, SCORE_BOX) {
      FramebufferScene(d, p);
      if d.shown != d.drawn {
        ScoreOnly(d.w.stack, p);
      }
    }
  }

  lemma VideoPanel(d: Device)
    requires Consistent(d) && Haunts(d) && PanelAsTracked(d)
    ensures PanelAsTracked(OnVideo(d))
    ensures forall p: Pixel :: OnScreen(p) ==> Shows(OnVideo(d).w.panel, Seen(OnVideo(d)), p)
  {
    hide Frame, InBoxes, InBox, InGrid, Close, Content, Synced, Haunts, Consistent, Scene;
    var v := OnVideo(d);
    RedrawSyncs(d.w.panel, d.w.fb);
    forall p: Pixel | OnScreen(p) ensures Shows(v.w.panel, Seen(v), p) {
      if d.w.flag {
        SyncedAt(v.w.panel, d.w.fb, p);
        if !InBox(p, SCORE_BOX) {
          FramebufferScene(d, p);
        }
      } else if InBoxes(p, d.w.stack) {
        PendingAgrees(d, p);
      }
    }
  }

  // ---------------------------------------------------------------- every schedule

  ghost predicate Tracked(d: Device) {
    Consistent(d) && Haunts(d) && PanelAsTracked(d)
  }

  lemma {:induction false} RunTracked(mem: Memory, es: seq<Event>)
    requires Sound(mem, es)
    ensures Tracked(Ran(mem, es))
  {
    hide Consistent, Haunts, PanelAsTracked, OnButtons, OnBody, OnVideo, Legal;
    if es == [] {
      StartConsistent(mem);
      StartTracked(mem);
    } else {
      var n := |es| - 1;
      var d := Ran(mem, es[..n]);
      RunTracked(mem, es[..n]);
      match es[n]
      case Buttons(inp) =>
        ButtonsConsistent(d, inp);
        ButtonsHaunts(d, inp);
        ButtonsPanel(d, inp);
      case Body(tick) =>
        BodyConsistent(d, tick);
        BodyHaunts(d, tick);
        BodyPanel(d, tick);
      case Video =>
        VideoConsistent(d);
        VideoHaunts(d);
        VideoPanel(d);
    }
  }

  lemma StartTracked(mem: Memory)
    ensures PanelAsTracked(Ran(mem, []))
  {
  }

  /** The framebuffer, exactly: the last frame drawn, and after a floor lock the one before it. */
  lemma {:induction false} FramebufferExactly(mem: Memory, es: seq<Event>)
    requires Sound(mem, es)
    ensures Ran(mem, es).w.fb == Content(Ran(mem, es)) + Ran(mem, es).under
  {
    hide Ran, Sound, Content;
    RunTracked(mem, es);
  }

  /** The panel, exactly, under every schedule: the score of the framebuffer, and beside it the locked
      cells, the piece last shown and the ghosts of a floor lock; right after a draw everywhere,
      otherwise outside the pending rectangles while no redraw is due. */
  lemma {:induction false} PanelUnderEverySchedule(mem: Memory, es: seq<Event>, p: Pixel)
    requires Sound(mem, es) && OnScreen(p)
    requires var d := Ran(mem, es);
             (es != [] && es[|es| - 1].Video?) || (!d.w.flag && !InBoxes(p, d.w.stack))
    ensures var d := Ran(mem, es);
            Shows(d.w.panel, if InBox(p, SCORE_BOX) then d.w.fb else Scene(d.w.game, d.shown) + d.ghosts, p)
  {
    hide Consistent, Haunts, InBoxes, InBox, OnVideo, OnButtons, OnBody, Legal, Scene;
    RunTracked(mem, es);
    var d := Ran(mem, es);
    if es != [] && es[|es| - 1].Video? {
      RunTracked(mem, es[..|es| - 1]);
      VideoPanel(Ran(mem, es[..|es| - 1]));
    }
    assert Shows(d.w.panel, Seen(d), p);
  }

  lemma NextDrawShows(mem: Memory, es: seq<Event>)
    requires Sound(mem, es)
    ensures var v := OnVideo(Ran(mem, es));
            v.w == Drawn(Ran(mem, es).w) && forall p: Pixel :: OnScreen(p) ==> Shows(v.w.panel, Seen(v), p)
  {
    hide Ran, Sound, Consistent, Haunts, PanelAsTracked, Seen, Shows, Drawn;
    RunTracked(mem, es);
    VideoPanel(Ran(mem, es));
  }

  /** Panel and framebuffer will agree: the piece shown and the ghosts against the piece drawn. */
  ghost predicate Agree(d: Device) {
    forall p: Pixel :: OnScreen(p) && !InBox(p, SCORE_BOX) ==>
      (p in Scene(d.w.game, d.shown) + d.ghosts <==> p in Scene(d.w.game, d.drawn) + d.under)
  }

  /** The next draw leaves panel and framebuffer equal exactly when a redraw is due, or piece and ghosts
      on the panel cannot be told from the framebuffer beside the score. */
  lemma {:induction false} DrawSyncsExactly(mem: Memory, es: seq<Event>)
    requires Sound(mem, es)
    ensures var d := Ran(mem, es); Synced(Drawn(d.w).panel, Drawn(d.w).fb) <==> d.w.flag || Agree(d)
  {
    hide Ran, Sound, Consistent, Haunts, InBox, Scene, Painted, PanelAsTracked;
    var d := Ran(mem, es);
    RunTracked(mem, es);
    VideoPanel(d);
    DrawnKeeps(d.w);
    var v := OnVideo(d);
    RedrawSyncs(d.w.panel, d.w.fb);
    if !d.w.flag {
      forall p: Pixel | OnScreen(p) && !InBox(p, SCORE_BOX)
        ensures Shows(v.w.panel, d.w.fb, p)
                <==> (p in Scene(d.w.game, d.shown) + d.ghosts <==> p in Scene(d.w.game, d.drawn) + d.under)
      {
        FramebufferScene(d, p);
        assert Shows(v.w.panel, Seen(v), p);
      }
      if Agree(d) {
        forall p: Pixel | OnScreen(p) ensures Shows(v.w.panel, d.w.fb, p) {
          assert Shows(v.w.panel, Seen(v), p);
        }
      } else {
        var p: Pixel :| OnScreen(p) && !InBox(p, SCORE_BOX)
                        && !(p in Scene(d.w.game, d.shown) + d.ghosts <==> p in Scene(d.w.game, d.drawn) + d.under);
        assert !Shows(v.w.panel, d.w.fb, p);
      }
    }
  }

  /** Unless the last redraw showed a sticky lock, only the piece can differ: a draw synchronises exactly
      when a redraw is due or the two pieces cannot be told apart beside score and locked cells. */
  lemma {:induction false} LagSyncsExactly(mem: Memory, es: seq<Event>)
    requires Sound(mem, es) && !Ran(mem, es).haunted
    ensures var d := Ran(mem, es);
            Synced(Drawn(d.w).panel, Drawn(d.w).fb)
            <==> d.w.flag || forall p: Pixel :: OnScreen(p) && !InBox(p, SCORE_BOX) && p !in GridPicture(d.w.game.grid)
                               ==> (p in SpritePicture(d.shown) <==> p in SpritePicture(d.drawn))
  {
    hide Ran, Sound, Consistent, InBox, GridPicture, SpritePicture, Synced, Drawn, PanelAsTracked;
    RunTracked(mem, es);
    DrawSyncsExactly(mem, es);
  }

  /** In particular it does when the panel has the piece of the framebuffer. */
  lemma {:induction false} EveryDrawSyncs(mem: Memory, es: seq<Event>)
    requires Sound(mem, es)
    requires var d := Ran(mem, es); d.w.flag || (!d.haunted && d.shown == d.drawn)
    ensures Synced(Drawn(Ran(mem, es).w).panel, Drawn(Ran(mem, es).w).fb)
  {
    hide Ran, Sound, Synced, SpritePicture, Drawn, GridPicture;
    DrawSyncsExactly(mem, es);
    if !Ran(mem, es).w.flag {
      LagSyncsExactly(mem, es);
    }
  }

  // ---------------------------------------------------------------- falling behind and catching up

  /** What brings the panel up to date: a button that acts, a tick, a lock, the frame of a move whose
      rectangle is still pending, or a redraw. */
  ghost predicate Heals(d: Device, e: Event) {
    match e
    case Buttons(inp) => Acted(d.w.game.blk, inp)
    case Body(tick) => Catches(d, tick)
    case Video => d.w.flag
  }

  /** Whatever came before, after such an event the next draw synchronises. */
  lemma HealedDrawSyncs(mem: Memory, es: seq<Event>, e: Event)
    requires Sound(mem, es + [e]) && Heals(Ran(mem, es), e)
    requires Ran(mem, es + [e]).w.flag || !Ran(mem, es + [e]).haunted
    ensures var w := Ran(mem, es + [e]).w; Synced(Drawn(w).panel, Drawn(w).fb)
  {
    hide Ran, Sound, Synced, Drawn, Advance, AfterButtons, Content, Faded, Locks;
    Then(mem, es, e);
    EveryDrawSyncs(mem, es + [e]);
  }

  /** A tick always does, after any number of moves that were drawn too early. */
  lemma TickHeals(mem: Memory, es: seq<Event>)
    requires Sound(mem, es + [Body(true)]) && !Ran(mem, es).haunted
    ensures var w := Ran(mem, es + [Body(true)]).w; Synced(Drawn(w).panel, Drawn(w).fb)
  {
    hide Ran, Sound, Synced, Drawn, Advance, Content, Faded, Locks;
    Then(mem, es, Body(true));
    HealedDrawSyncs(mem, es, Body(true));
  }

  /** The panel falls behind exactly when a move is framed after its rectangle has been drained, without
      a tick or a lock, and stays behind until the next event that heals. */
  lemma BehindExactly(mem: Memory, es: seq<Event>, e: Event)
    requires Sound(mem, es + [e])
    ensures var d, v := Ran(mem, es), Ran(mem, es + [e]);
            v.shown == v.drawn
            <==> Heals(d, e) || (d.shown == d.drawn && (e.Body? ==> d.drawn == At(d.w.game.blk)))
  {
    hide Ran, Sound, Drawn, AfterButtons, Content, Faded, Locks, Haunts, PanelAsTracked, Frame, Step, PushedAll, InGrid;
    Then(mem, es, e);
    RunTracked(mem, es);
    var d := Ran(mem, es);
    if e.Body? && !Heals(d, e) {
      QuietBody(d.w.game, e.tick);
    }
  }

  /** The buttons of one iteration lead from a to b. */
  ghost predicate OneMove(a: Block, b: Block) {
    exists inp :: b == Steered(a, inp)
  }

  lemma NoMove(b: Block)
    ensures OneMove(b, b)
  {
    OnlySteers(b, false);
  }

  /** The piece on the panel is at most one iteration's move behind the framebuffer, and that one at
      most one behind the game. */
  ghost predicate Nearby(d: Device) {
    OneMove(Last(d), d.w.game.blk) && (d.shown.At? ==> d.drawn.At? && OneMove(d.shown.blk, d.drawn.blk))
  }

  lemma NearbyNext(d: Device, e: Event)
    requires Consistent(d) && Legal(d, e) && Nearby(d)
    ensures Nearby(Next(d, e))
  {
    hide OneMove, Drawn, Content, Faded, Locks, Frame, Step, PushedAll, InGrid, Steered, Acted, UpdateBox, Requests;
    NoMove(Last(Next(d, e)));
    match e
    case Buttons(inp) => Moved(d.w.game.blk, inp);
    case Body(tick) =>
      if !Catches(d, tick) {
        QuietBody(d.w.game, tick);
      }
    case Video => DrawnKeeps(d.w);
  }

  lemma {:induction false} OneMoveBehind(mem: Memory, es: seq<Event>)
    requires Sound(mem, es)
    ensures Nearby(Ran(mem, es))
  {
    hide Next, OneMove, Consistent, Legal;
    if es == [] {
      NoMove(START.blk);
    } else {
      var n := |es| - 1;
      OneMoveBehind(mem, es[..n]);
      RunTracked(mem, es[..n]);
      NearbyNext(Ran(mem, es[..n]), es[n]);
    }
  }

  lemma Moved(b: Block, inp: Input)
    ensures OneMove(b, Steered(b, inp))
  {
  }

  /** After a draw the panel shows a frame of the game, with the piece at most one move behind; unless
      the last redraw showed a sticky lock or no piece. */
  lemma PanelShowsAFrame(mem: Memory, es: seq<Event>) returns (b: Block)
    requires Sound(mem, es) && es != [] && es[|es| - 1].Video?
    requires !Ran(mem, es).haunted && Ran(mem, es).shown.At?
    ensures var d := Ran(mem, es);
            && d.drawn.At? && OneMove(b, d.drawn.blk)
            && forall p: Pixel :: OnScreen(p) ==>
                 Shows(d.w.panel, if InBox(p, SCORE_BOX) then d.w.fb else Frame(d.w.game.(blk := b)), p)
  {
    hide Sound, InBox, GridPicture, BlockPicture, TextPicture, OneMove, Consistent, PanelAsTracked, InBoxes, Painted,
      OnBody, OnButtons;
    var d := Ran(mem, es);
    b := d.shown.blk;
    OneMoveBehind(mem, es);
    RunTracked(mem, es);
    VideoClearsFlag(Ran(mem, es[..|es| - 1]));
    forall p: Pixel | OnScreen(p)
      ensures Shows(d.w.panel, if InBox(p, SCORE_BOX) then d.w.fb else Frame(d.w.game.(blk := b)), p)
    {
      PanelUnderEverySchedule(mem, es, p);
      if p in TextPicture(d.w.game.score) {
        ScoreInsideBox(d.w.game.score, p);
      }
    }
  }

  lemma VideoClearsFlag(d: Device)
    ensures !OnVideo(d).w.flag
  {
    hide Painted;
  }

  // ---------------------------------------------------------------- the game behind a schedule

  /** The last iteration has begun but not ended. */
  predicate Mid(es: seq<Event>) {
    es != [] && (es[|es| - 1].Buttons? || (es[|es| - 1].Video? && Mid(es[..|es| - 1])))
  }

  /** Buttons and bodies alternate, as they do in the loop. */
  predicate Alternates(es: seq<Event>) {
    es == [] || (
      var pre, e := es[..|es| - 1], es[|es| - 1];
      Alternates(pre) && (e.Buttons? ==> !Mid(pre)) && (e.Body? ==> Mid(pre)))
  }

  function LastButtons(es: seq<Event>): Input {
    if es == [] then Only(false)
    else match es[|es| - 1]
      case Buttons(inp) => inp
      case Body(_) => LastButtons(es[..|es| - 1])
      case Video => LastButtons(es[..|es| - 1])
  }

  /** The inputs of the iterations that have ended. */
  function Inputs(es: seq<Event>): seq<Input> {
    if es == [] then []
    else
      var pre := es[..|es| - 1];
      match es[|es| - 1]
      case Body(tick) => Inputs(pre) + [LastButtons(pre).(tick := tick)]
      case Buttons(_) => Inputs(pre)
      case Video => Inputs(pre)
  }

  /** The game after the events, given the game after the ended iterations. */
  function Current(g: Game, es: seq<Event>): Game {
    if Mid(es) then g.(blk := Steered(g.blk, LastButtons(es))) else g
  }

  lemma PlayMore(ins: seq<Input>, inp: Input)
    ensures Play(ins + [inp]) == match Play(ins)
                                 case Fault => Fault
                                 case Playing(g) => if Faults(g.blk, inp) then Fault else Playing(Step(g, inp))
  {
    hide Step, Faults;
    assert (ins + [inp])[..|ins|] == ins;
  }

  lemma SetTick(inp: Input, tick: bool, b: Block)
    ensures Steered(b, inp.(tick := tick)) == Steered(b, inp)
  {
  }

  // One event, seen from the game.
  lemma BodyPlays(g: Game, inp: Input, tick: bool)
    ensures var h, full := g.(blk := Steered(g.blk, inp)), inp.(tick := tick);
            (Faults(h.blk, Only(tick)) <==> Faults(g.blk, full)) && Step(h, Only(tick)) == Step(g, full)
  {
    hide Steered, Faults, Step, Locks;
    SetTick(inp, tick, g.blk);
    StepParts(g, inp.(tick := tick));
  }

  /** The device plays the game of its inputs. */
  lemma {:induction false} RanPlays(mem: Memory, es: seq<Event>)
    requires Alternates(es) && Play(Inputs(es)).Playing?
    ensures Ran(mem, es).w.game == Current(Play(Inputs(es)).game, es) && Ran(mem, es).mid == Mid(es)
  {
    hide Step, Faults, Steered, Play, Drawn, Content, Faded, Catches;
    if es == [] {
      PlayNothing();
    } else {
      var n := |es| - 1;
      var pre := es[..n];
      if es[n].Body? {
        PlayMore(Inputs(pre), LastButtons(pre).(tick := es[n].tick));
        BodyPlays(Play(Inputs(pre)).game, LastButtons(pre), es[n].tick);
      }
      RanPlays(mem, pre);
      GameParts(Ran(mem, pre).w, mem);
    }
  }

  lemma PlayNothing()
    ensures Play([]) == Playing(START)
  {
  }

  // ---------------------------------------------------------------- rectangles are not lost

  /** Iterations that were running or have begun since a draw last drained the stack. */
  ghost function Since(mem: Memory, es: seq<Event>): nat {
    if es == [] then 0
    else
      var pre := es[..|es| - 1];
      match es[|es| - 1]
      case Buttons(_) => Since(mem, pre) + 1
      case Body(_) => Since(mem, pre)
      case Video => if Ran(mem, pre).w.flag then Since(mem, pre) else if Mid(pre) then 1 else 0
  }

  /** Never more than five. */
  ghost predicate Frequent(mem: Memory, es: seq<Event>) {
    Since(mem, es) <= 5 && (es == [] || Frequent(mem, es[..|es| - 1]))
  }

  lemma {:induction false} LoadBound(mem: Memory, es: seq<Event>)
    requires Alternates(es)
    ensures |Ran(mem, es).w.stack| + (if Mid(es) then 2 else 0) <= 3 * Since(mem, es)
  {
    hide Advance, AfterButtons, Drawn, Content, Faded, Catches;
    if es != [] {
      var n := |es| - 1;
      var pre := es[..n];
      var w := Ran(mem, pre).w;
      LoadBound(mem, pre);
      match es[n]
      case Buttons(inp) => ButtonsLoad(w, inp);
      case Body(tick) => BodyLoad(w, tick);
      case Video => VideoLoad(w);
    }
  }

  lemma ButtonsLoad(w: World, inp: Input)
    ensures |AfterButtons(w, inp).stack| <= |w.stack| + 1
  {
    hide Steered, Acted;
    PushedSize(w.stack, ButtonBoxes(w.game.blk, inp));
  }

  lemma BodyLoad(w: World, tick: bool)
    ensures |Requests(w.game.blk, Only(tick))| <= 2
    ensures |Advance(w, Only(tick)).stack| <= |w.stack| + 2
  {
    hide Steered, Frame, Step, Locks, Acted;
    OnlySteers(w.game.blk, tick);
    PushedSize(w.stack, Requests(w.game.blk, Only(tick)));
  }

  lemma VideoLoad(w: World)
    ensures Drawn(w).stack == if w.flag then w.stack else []
  {
    hide Painted;
  }

  /** Two draws in a row always drain the stack. */
  lemma TwoDrawsDrain(d: Device)
    ensures OnVideo(OnVideo(d)).w.stack == []
  {
    hide Painted;
  }

  /** With at most five iterations between two draining draws no rectangle is lost. */
  lemma {:induction false} FrequentDrawsLoseNothing(mem: Memory, es: seq<Event>)
    requires Alternates(es) && Play(Inputs(es)).Playing? && Frequent(mem, es)
    ensures Sound(mem, es)
  {
    hide Step, Faults, Steered, Play, Next, Advance;
    if es != [] {
      var n := |es| - 1;
      var pre := es[..n];
      var w := Ran(mem, pre).w;
      if es[n].Body? {
        PlayMore(Inputs(pre), LastButtons(pre).(tick := es[n].tick));
        BodyPlays(Play(Inputs(pre)).game, LastButtons(pre), es[n].tick);
        BodyLoad(w, es[n].tick);
      }
      FrequentDrawsLoseNothing(mem, pre);
      RanPlays(mem, pre);
      LoadBound(mem, pre);
    }
  }

  // ---------------------------------------------------------------- one draw after each iteration

  /** The schedule with exactly one draw, after each iteration. */
  function EachIteration(ins: seq<Input>): seq<Event> {
    if ins == [] then []
    else
      var inp := ins[|ins| - 1];
      EachIteration(ins[..|ins| - 1]) + [Buttons(inp)] + [Body(inp.tick)] + [Video]
  }

  /** It is the run of one `draw` per iteration. */
  lemma {:induction false} EachIterationIsOneSchedule(mem: Memory, ins: seq<Input>)
    ensures Ran(mem, EachIteration(ins)).w == After(mem, ins)
  {
    hide Advance, AfterButtons, Drawn, Content, Faded, Catches, Ran;
    if ins == [] {
      RanNothing(mem);
    } else {
      var inp, pre := ins[|ins| - 1], ins[..|ins| - 1];
      var es := EachIteration(pre);
      EachIterationIsOneSchedule(mem, pre);
      Then(mem, es, Buttons(inp));
      Then(mem, es + [Buttons(inp)], Body(inp.tick));
      Then(mem, es + [Buttons(inp)] + [Body(inp.tick)], Video);
      TwoParts(After(mem, pre), inp);
    }
  }

  lemma RanNothing(mem: Memory)
    ensures Ran(mem, []).w == PowerUp(mem)
  {
  }
}
