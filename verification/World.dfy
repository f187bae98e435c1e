/** The whole device as a value: game, framebuffer, dirty rectangles and panel, with one `draw` per
    iteration. When does the panel show the framebuffer, over every run? */
module World {
  import opened Layout
  import opened Board
  import opened Rules
  import opened Pictures
  import opened Panel

  datatype World = World(game: Game, fb: Picture, stack: seq<BBox>, flag: bool, panel: Memory)

  /** `bbox_stack_push`: a full stack drops the rectangle. */
  function Pushed(stack: seq<BBox>, q: BBox): seq<BBox> {
    if |stack| < STACKSIZE then stack + [q] else stack
  }

  function PushedAll(stack: seq<BBox>, qs: seq<BBox>): seq<BBox> {
    if qs == [] then stack else Pushed(PushedAll(stack, qs[..|qs| - 1]), qs[|qs| - 1])
  }

  /** All rectangles pushed by one iteration. */
  function Requests(b: Block, inp: Input): seq<BBox> {
    Pushes(b, inp) + [SCORE_BOX]
  }

  /** `draw`. */
  ghost function Drawn(w: World): World {
    if w.flag then w.(flag := false, panel := Painted(w.panel, w.fb, [SCREEN_BOX]))
    else w.(stack := [], panel := Painted(w.panel, w.fb, w.stack))
  }

  /** One iteration of the loop without `draw`; the floor branch jumps over `vbuf_clear`. */
  ghost function Advance(w: World, inp: Input): World {
    var g := Step(w.game, inp);
    var kept := if OnFloor(Steered(w.game.blk, inp)) then w.fb else iset{};
    World(g, kept + Frame(g), PushedAll(w.stack, Requests(w.game.blk, inp)), w.flag || Locks(w.game, inp), w.panel)
  }

  /** The first part of an iteration, `hw->loop`: the buttons and their rectangle. On the board the
      loop then sleeps before it goes on. */
  ghost function AfterButtons(w: World, inp: Input): World {
    w.(game := w.game.(blk := Steered(w.game.blk, inp)), stack := PushedAll(w.stack, ButtonBoxes(w.game.blk, inp)))
  }

  function ButtonBoxes(b: Block, inp: Input): seq<BBox> {
    if Acted(b, inp) then [UpdateBox(Steered(b, inp))] else []
  }

  /** The input of the second part: no button, and perhaps a tick. */
  function Only(tick: bool): Input {
    Input(false, false, false, false, false, tick)
  }

  lemma StepParts(g: Game, inp: Input)
    ensures var h := g.(blk := Steered(g.blk, inp));
            && Fallen(h.blk, Only(inp.tick)) == Fallen(g.blk, inp)
            && (Faults(h.blk, Only(inp.tick)) <==> Faults(g.blk, inp))
            && (Locks(h, Only(inp.tick)) <==> Locks(g, inp))
            && Step(h, Only(inp.tick)) == Step(g, inp)
  {
    hide Collides, ScanFrom, Added;
    OnlySteers(Steered(g.blk, inp), inp.tick);
  }

  lemma OnlySteers(b: Block, tick: bool)
    ensures Steered(b, Only(tick)) == b && !Acted(b, Only(tick))
  {
  }

  /** An iteration is its two parts, one after the other. */
  lemma TwoParts(w: World, inp: Input)
    ensures Advance(w, inp) == Advance(AfterButtons(w, inp), Only(inp.tick))
  {
    hide Frame, Step, Locks, Steered, Acted, UpdateBox, PushedAll;
    var b := w.game.blk;
    StepParts(w.game, inp);
    OnlySteers(Steered(b, inp), inp.tick);
    PushedConcat(w.stack, ButtonBoxes(b, inp), Requests(Steered(b, inp), Only(inp.tick)));
    assert Requests(b, inp) == ButtonBoxes(b, inp) + Requests(Steered(b, inp), Only(inp.tick));
  }

  lemma {:induction false} PushedConcat(stack: seq<BBox>, a: seq<BBox>, b: seq<BBox>)
    ensures PushedAll(PushedAll(stack, a), b) == PushedAll(stack, a + b)
    decreases |b|
  {
    if b == [] {
      assert a + b == a;
    } else {
      var n := |b| - 1;
      PushedConcat(stack, a, b[..n]);
      assert (a + b)[..|a| + n] == a + b[..n];
    }
  }

  /** One iteration that ends with `draw`. */
  ghost function Iterate(w: World, inp: Input): World {
    Drawn(Advance(w, inp))
  }

  /** The device after power-up with arbitrary panel contents. */
  ghost function PowerUp(mem: Memory): World {
    World(START, iset{}, [], true, mem)
  }

  ghost function After(mem: Memory, ins: seq<Input>): World {
    if ins == [] then PowerUp(mem) else Iterate(After(mem, ins[..|ins| - 1]), ins[|ins| - 1])
  }

  lemma {:induction false} AfterPlays(mem: Memory, ins: seq<Input>)
    requires Play(ins).Playing?
    ensures After(mem, ins).game == Play(ins).game && InGrid(Play(ins).game)
    ensures After(mem, ins).flag <==> ins == []
  {
    hide Step, Faults, Locks, Frame, Painted, InGrid, PushedAll, Requests, Steered;
    RunInGrid(ins);
    if ins != [] {
      AfterPlays(mem, ins[..|ins| - 1]);
    }
  }

  lemma GameParts(w: World, mem: Memory)
    ensures PowerUp(mem).game == START && Drawn(w).game == w.game
    ensures forall inp :: Advance(w, inp).game == Step(w.game, inp)
  {
    hide Step, Frame, Painted;
  }

  lemma DrawnKeeps(w: World)
    ensures Drawn(w).fb == w.fb && Drawn(w).game == w.game
  {
    hide Painted;
  }

  /** Every pixel of the panel shows the framebuffer. */
  ghost predicate Synced(panel: Memory, fb: Picture) {
    forall p: Pixel :: OnScreen(p) ==> p in panel && panel[p] == Ink(fb, p)
  }

  /** Draining synchronises the panel exactly when every stale pixel lies in a pending rectangle. */
  lemma DrainSyncsExactly(panel: Memory, fb: Picture, stack: seq<BBox>)
    ensures Synced(Painted(panel, fb, stack), fb)
            <==> forall p: Pixel :: OnScreen(p) && !InBoxes(p, stack) ==> p in panel && panel[p] == Ink(fb, p)
  {
    hide InBoxes;
    var m := Painted(panel, fb, stack);
    if Synced(m, fb) {
      forall p: Pixel | OnScreen(p) && !InBoxes(p, stack) ensures p in panel && panel[p] == Ink(fb, p) {
        assert p in m;
      }
    }
  }

  /** A full redraw always does. */
  lemma RedrawSyncs(panel: Memory, fb: Picture)
    ensures Synced(Painted(panel, fb, [SCREEN_BOX]), fb)
  {
    forall p: Pixel | OnScreen(p) ensures InBoxes(p, [SCREEN_BOX]) {
      assert InBox(p, [SCREEN_BOX][0]);
    }
  }

  // ---------------------------------------------------------------- rectangles are not lost

  ghost predicate Fits(w: World, inp: Input) {
    |w.stack| + |Requests(w.game.blk, inp)| <= STACKSIZE
  }

  /** Nothing is dropped exactly when the new rectangles fit. */
  lemma {:induction false} PushedFits(stack: seq<BBox>, qs: seq<BBox>)
    requires |stack| <= STACKSIZE
    ensures PushedAll(stack, qs) == stack + qs <==> |stack| + |qs| <= STACKSIZE
    ensures |PushedAll(stack, qs)| == Min(|stack| + |qs|, STACKSIZE)
  {
    if qs != [] {
      var n := |qs| - 1;
      PushedFits(stack, qs[..n]);
      assert stack + qs == stack + qs[..n] + [qs[n]];
    } else {
      assert stack + qs == stack;
    }
  }

  lemma {:induction false} PushedSize(stack: seq<BBox>, qs: seq<BBox>)
    ensures |PushedAll(stack, qs)| <= |stack| + |qs|
  {
    if qs != [] {
      PushedSize(stack, qs[..|qs| - 1]);
    }
  }

  /** Every push of every iteration finds room. */
  ghost predicate NothingLost(mem: Memory, ins: seq<Input>) {
    ins == [] || (NothingLost(mem, ins[..|ins| - 1]) && Fits(After(mem, ins[..|ins| - 1]), ins[|ins| - 1]))
  }

  /** The state in which the last iteration started. */
  ghost function Before(ins: seq<Input>): Outcome
    requires ins != []
  {
    Play(ins[..|ins| - 1])
  }

  /** The last iteration redraws the whole screen: the first one, and every lock. */
  ghost predicate Redraws(ins: seq<Input>) {
    ins != [] && (|ins| == 1 || (Before(ins).Playing? && Locks(Before(ins).game, ins[|ins| - 1])))
  }

  /** How many iterations in a row, up to the last one, redraw the whole screen. */
  ghost function Burst(ins: seq<Input>): nat {
    if Redraws(ins) then 1 + Burst(ins[..|ins| - 1]) else 0
  }

  /** At most four full redraws in a row. */
  ghost predicate Calm(ins: seq<Input>) {
    ins == [] || (Calm(ins[..|ins| - 1]) && Burst(ins) <= 4)
  }

  lemma {:induction false} StackBound(mem: Memory, ins: seq<Input>)
    requires Play(ins).Playing?
    ensures |After(mem, ins).stack| <= 3 * Burst(ins)
  {
    hide Step, Faults, Locks, Frame, Painted, PushedAll, Pushes, Steered;
    if ins != [] {
      var n := |ins| - 1;
      PlayPrefix(ins, n);
      StackBound(mem, ins[..n]);
      AfterPlays(mem, ins[..n]);
      PushedSize(After(mem, ins[..n]).stack, Requests(Play(ins[..n]).game.blk, ins[n]));
      FewPushes(Play(ins[..n]).game.blk, ins[n]);
      assert ins[..n] == [] <==> |ins| == 1;
    }
  }

  lemma FewPushes(b: Block, inp: Input)
    ensures |Pushes(b, inp)| <= 2
  {
  }

  /** In a calm run no rectangle is ever lost. */
  lemma {:induction false} CalmRunsLoseNothing(mem: Memory, ins: seq<Input>)
    requires Play(ins).Playing? && Calm(ins)
    ensures NothingLost(mem, ins)
  {
    hide Iterate, Pushes;
    if ins != [] {
      var n := |ins| - 1;
      PlayPrefix(ins, n);
      CalmRunsLoseNothing(mem, ins[..n]);
      StackBound(mem, ins[..n]);
      FewPushes(After(mem, ins[..n]).game.blk, ins[n]);
    }
  }

  /** After each lock the top six rows are empty. */
  predicate Roomy(g: Game, inp: Input) {
    Locks(g, inp) ==> forall r | 0 <= r < 6 :: RowAt(Step(g, inp).grid, r) == {}
  }

  // A new piece under six empty rows is not locked by the very next iteration.
  lemma NoLockAfterLock(g: Game, inp: Input, next: Input)
    requires Locks(g, inp) && Roomy(g, inp)
    ensures !Locks(Step(g, inp), next)
  {
    hide ScanFrom, Added, BlockRow;
    var h := Step(g, inp);
    var b := Fallen(h.blk, next);
    assert 0 <= b.x <= 2;
    forall i | 0 <= i < BLOCK_HEIGHT ensures BlockRow(b, i) * RowAt(h.grid, b.x + i + 1) == {} {
      assert RowAt(h.grid, b.x + i + 1) == {};
    }
  }

  /** As long as the top six rows are empty after each lock, runs are calm. */
  lemma {:induction false} RoomyRunsAreCalm(ins: seq<Input>)
    requires Play(ins).Playing? && Always(ins, Roomy)
    ensures Calm(ins) && Burst(ins) <= 2
  {
    hide Step, Locks, Roomy, Faults;
    if ins != [] {
      var n := |ins| - 1;
      var pre := ins[..n];
      PlayPrefix(ins, n);
      RoomyRunsAreCalm(pre);
      if Redraws(ins) && Redraws(pre) && n > 1 {
        PlayPrefix(pre, n - 1);
        NoLockAfterLock(Before(pre).game, pre[n - 1], ins[n]);
      }
    }
  }

  // ---------------------------------------------------------------- the framebuffer

  /** Outside the pending rectangles the framebuffer holds exactly the frame of the game. */
  ghost predicate CleanOutside(w: World) {
    forall p: Pixel :: OnScreen(p) && !InBoxes(p, w.stack) ==> (p in w.fb <==> p in Frame(w.game))
  }

  /** A floor lock that clears at least one row. */
  predicate ClearsOnFloor(g: Game, inp: Input) {
    OnFloor(Steered(g.blk, inp)) && Step(g, inp).score != g.score
  }

  ghost predicate ClearedOnFloor(ins: seq<Input>) {
    ins != [] && Before(ins).Playing? && ClearsOnFloor(Before(ins).game, ins[|ins| - 1])
  }

  // Every iteration but a floor lock leaves exactly the frame.
  lemma IterateFrame(w: World, inp: Input)
    ensures Frame(Step(w.game, inp)) <= Iterate(w, inp).fb
    ensures !OnFloor(Steered(w.game.blk, inp)) ==> Iterate(w, inp).fb == Frame(Step(w.game, inp))
  {
    hide Frame, Step, Painted, PushedAll, Steered;
  }

  /** A floor lock that clears nothing leaves old pixels only inside the rectangles still pending. */
  lemma FloorLockClean(w: World, inp: Input)
    requires InGrid(w.game) && !Faults(w.game.blk, inp) && Fits(w, inp)
    requires OnFloor(Steered(w.game.blk, inp)) && !ClearsOnFloor(w.game, inp)
    requires w.fb == Frame(w.game)
    ensures CleanOutside(Iterate(w, inp))
  {
    hide Frame, Step, Painted, Pushes, Steered, InGrid, InBoxes, PushedAll;
    var reqs, v := Requests(w.game.blk, inp), Iterate(w, inp);
    PushedFits(w.stack, reqs);
    forall p: Pixel | OnScreen(p) && !InBoxes(p, v.stack) ensures p in v.fb <==> p in Frame(v.game) {
      InBoxesSplit(p, w.stack, reqs);
      InBoxesSplit(p, Pushes(w.game.blk, inp), [SCORE_BOX]);
      if p in w.fb {
        FloorLockGrows(w.game, inp, p);
      }
    }
  }

  // Two floor locks are never adjacent: the piece after a lock is at the top.
  lemma NoFloorAfterLock(g: Game, inp: Input, next: Input)
    requires Locks(g, inp)
    ensures !OnFloor(Steered(Step(g, inp).blk, next))
  {
    hide ScanFrom, Added, Collides;
  }

  lemma NoFloorAtStart(next: Input)
    ensures !OnFloor(Steered(START.blk, next))
  {
  }

  /** Unless the last iteration was a clearing floor lock, the framebuffer is clean. */
  lemma RunClean(mem: Memory, ins: seq<Input>)
    requires Play(ins).Playing? && ins != [] && NothingLost(mem, ins)
    requires !ClearedOnFloor(ins)
    ensures CleanOutside(After(mem, ins))
  {
    hide Frame, Step, Painted, PushedAll, Pushes, Steered, InGrid, Locks, InBoxes, Iterate;
    var n := |ins| - 1;
    var pre, inp := ins[..n], ins[n];
    PlayPrefix(ins, n);
    AfterPlays(mem, pre);
    var w := After(mem, pre);
    IterateFrame(w, inp);
    IterateGame(w, inp);
    if OnFloor(Steered(w.game.blk, inp)) {
      PriorFrame(mem, pre, inp);
      FloorLockClean(w, inp);
    }
  }

  lemma IterateGame(w: World, inp: Input)
    ensures Iterate(w, inp).game == Step(w.game, inp)
    ensures w.flag || Locks(w.game, inp) ==> Iterate(w, inp).panel == Painted(w.panel, Iterate(w, inp).fb, [SCREEN_BOX])
    ensures !w.flag && !Locks(w.game, inp) && Fits(w, inp)
            ==> Iterate(w, inp).panel == Painted(w.panel, Iterate(w, inp).fb, w.stack + Requests(w.game.blk, inp))
  {
    hide Frame, Step, Painted, Steered, Requests, Locks;
    if Fits(w, inp) {
      PushedFits(w.stack, Requests(w.game.blk, inp));
    }
  }

  // Before an iteration that reaches the floor the framebuffer holds exactly the frame.
  lemma PriorFrame(mem: Memory, ins: seq<Input>, inp: Input)
    requires Play(ins).Playing? && OnFloor(Steered(Play(ins).game.blk, inp))
    ensures After(mem, ins).fb == Frame(Play(ins).game)
  {
    hide Frame, Painted, PushedAll, Pushes, Steered, InGrid, Iterate, Collides, ScanFrom;
    NoFloorAtStart(inp);
    assert ins != [];
    var n := |ins| - 1;
    PlayPrefix(ins, n);
    AfterPlays(mem, ins[..n]);
    AfterPlays(mem, ins);
    var w := After(mem, ins[..n]);
    if OnFloor(Steered(w.game.blk, ins[n])) {
      NoFloorAfterLock(w.game, ins[n], inp);
    }
    IterateFrame(w, ins[n]);
  }

  // ---------------------------------------------------------------- the panel

  /** The most recent full redraw is the last iteration itself, or was not a clearing floor lock. */
  ghost predicate Trusted(ins: seq<Input>) {
    Redraws(ins) || (ins != [] && Trusted(ins[..|ins| - 1]) && !ClearedOnFloor(ins[..|ins| - 1]))
  }

  // One iteration without a redraw keeps panel and framebuffer equal.
  lemma QuietStepSyncs(w: World, inp: Input)
    requires InGrid(w.game) && !Faults(w.game.blk, inp) && Fits(w, inp)
    requires !w.flag && !Locks(w.game, inp) && Synced(w.panel, w.fb) && CleanOutside(w)
    ensures Synced(Iterate(w, inp).panel, Iterate(w, inp).fb)
  {
    hide Frame, Step, Painted, Steered, Pushes, InGrid, Locks, InBoxes, Iterate, Ink, Faults;
    var reqs, v := Requests(w.game.blk, inp), Iterate(w, inp);
    IterateGame(w, inp);
    IterateFrame(w, inp);
    QuietNotOnFloor(w.game, inp);
    forall p: Pixel | OnScreen(p) && !InBoxes(p, w.stack + reqs) ensures p in w.panel && w.panel[p] == Ink(v.fb, p) {
      InBoxesSplit(p, w.stack, reqs);
      InBoxesSplit(p, Pushes(w.game.blk, inp), [SCORE_BOX]);
      StepCoverage(w.game, inp, p);
      SameInk(w.fb, v.fb, p);
    }
    DrainSyncsExactly(w.panel, v.fb, w.stack + reqs);
  }

  lemma QuietNotOnFloor(g: Game, inp: Input)
    requires !Locks(g, inp)
    ensures !OnFloor(Steered(g.blk, inp))
  {
  }

  lemma SameInk(a: Picture, b: Picture, p: Pixel)
    requires p in a <==> p in b
    ensures Ink(a, p) == Ink(b, p)
  {
  }

  /** In every run that loses no rectangle, the panel equals the framebuffer after each iteration,
      unless the most recent full redraw was a floor lock that cleared a row. */
  lemma {:induction false} PanelInSync(mem: Memory, ins: seq<Input>)
    requires Play(ins).Playing? && NothingLost(mem, ins) && Trusted(ins)
    ensures Synced(After(mem, ins).panel, After(mem, ins).fb)
    decreases |ins|
  {
    hide Frame, Step, Painted, PushedAll, Pushes, Steered, InGrid, Locks, InBoxes, Iterate, Synced, CleanOutside,
      Requests, Faults, ClearedOnFloor, Fits;
    var n := |ins| - 1;
    PlayPrefix(ins, n);
    AfterPlays(mem, ins[..n]);
    var w := After(mem, ins[..n]);
    if Redraws(ins) {
      IterateGame(w, ins[n]);
      RedrawSyncs(w.panel, After(mem, ins).fb);
    } else {
      PanelInSync(mem, ins[..n]);
      RunClean(mem, ins[..n]);
      QuietStepSyncs(w, ins[n]);
    }
  }

  /** The same for calm runs, with no reference to the rectangle stack. */
  lemma CalmPanelInSync(mem: Memory, ins: seq<Input>)
    requires Play(ins).Playing? && Calm(ins) && Trusted(ins)
    ensures Synced(After(mem, ins).panel, After(mem, ins).fb)
  {
    CalmRunsLoseNothing(mem, ins);
    PanelInSync(mem, ins);
  }

  /** Old pixels that stay on the panel: a floor lock draws over the previous frame, and the
      rectangles drained later wipe them off again. */
  ghost function Ghosts(mem: Memory, ins: seq<Input>): Picture {
    if ins == [] || !Before(ins).Playing? then iset{}
    else
      var inp, w := ins[|ins| - 1], After(mem, ins[..|ins| - 1]);
      if Redraws(ins) then (if OnFloor(Steered(w.game.blk, inp)) then Frame(w.game) else iset{})
      else Outside(Ghosts(mem, ins[..|ins| - 1]), w.stack + Requests(w.game.blk, inp))
  }

  ghost function Outside(pic: Picture, s: seq<BBox>): Picture {
    iset p: Pixel | p in pic && !InBoxes(p, s)
  }

  ghost predicate Shows(panel: Memory, pic: Picture, p: Pixel) {
    p in panel && panel[p] == Ink(pic, p)
  }

  /** What the panel shows after any number of iterations, exactly: the frame of the game and the
      ghosts, provided no rectangle was lost. */
  lemma {:induction false} PanelExactly(mem: Memory, ins: seq<Input>, p: Pixel)
    requires Play(ins).Playing? && NothingLost(mem, ins) && ins != [] && OnScreen(p)
    ensures Shows(After(mem, ins).panel, Frame(Play(ins).game) + Ghosts(mem, ins), p)
    decreases |ins|
  {
    hide Frame, Step, PushedAll, Pushes, Steered, InGrid, Locks, InBoxes, Iterate, Synced, Requests, Faults, Fits;
    var n := |ins| - 1;
    PlayPrefix(ins, n);
    AfterPlays(mem, ins);
    AfterPlays(mem, ins[..n]);
    var w, v := After(mem, ins[..n]), After(mem, ins);
    IterateGame(w, ins[n]);
    IterateFrame(w, ins[n]);
    if Redraws(ins) {
      RedrawSyncs(w.panel, v.fb);
      SyncedAt(v.panel, v.fb, p);
      if OnFloor(Steered(w.game.blk, ins[n])) {
        PriorFrame(mem, ins[..n], ins[n]);
        FloorKeeps(w, ins[n]);
      }
    } else {
      QuietNotOnFloor(w.game, ins[n]);
      if !InBoxes(p, w.stack + Requests(w.game.blk, ins[n])) {
        NotRequested(w, ins[n], p);
        StepCoverage(w.game, ins[n], p);
        PanelExactly(mem, ins[..n], p);
      }
    }
  }

  lemma FloorKeeps(w: World, inp: Input)
    requires OnFloor(Steered(w.game.blk, inp))
    ensures Iterate(w, inp).fb == w.fb + Frame(Step(w.game, inp))
  {
    hide Frame, Step, Painted, PushedAll, Steered;
  }

  lemma SyncedAt(panel: Memory, fb: Picture, p: Pixel)
    requires Synced(panel, fb) && OnScreen(p)
    ensures Shows(panel, fb, p)
  {
  }

  lemma NotRequested(w: World, inp: Input, p: Pixel)
    requires !InBoxes(p, w.stack + Requests(w.game.blk, inp))
    ensures !InBoxes(p, Pushes(w.game.blk, inp))
  {
    hide InBoxes, Pushes;
    InBoxesSplit(p, w.stack, Requests(w.game.blk, inp));
    InBoxesSplit(p, Pushes(w.game.blk, inp), [SCORE_BOX]);
  }

  /** After an iteration without a redraw, panel and framebuffer agree exactly when every ghost
      happens to be covered by the frame. */
  lemma QuietSyncExactly(mem: Memory, ins: seq<Input>)
    requires Play(ins).Playing? && NothingLost(mem, ins) && ins != [] && !Redraws(ins)
    ensures Synced(After(mem, ins).panel, After(mem, ins).fb) <==> Ghosts(mem, ins) <= Frame(Play(ins).game)
  {
    hide Frame, Step, PushedAll, Pushes, Steered, InGrid, Locks, InBoxes, Iterate, Requests, Faults, Fits, Ghosts,
      NothingLost, Painted;
    var n := |ins| - 1;
    PlayPrefix(ins, n);
    AfterPlays(mem, ins);
    AfterPlays(mem, ins[..n]);
    var w, v := After(mem, ins[..n]), After(mem, ins);
    QuietNotOnFloor(w.game, ins[n]);
    IterateFrame(w, ins[n]);
    IterateGame(w, ins[n]);
    forall p: Pixel | OnScreen(p) ensures Shows(v.panel, Frame(Play(ins).game) + Ghosts(mem, ins), p) {
      PanelExactly(mem, ins, p);
    }
    GhostsOnScreen(mem, ins);
    if Synced(v.panel, v.fb) {
      forall p: Pixel | p in Ghosts(mem, ins) ensures p in Frame(Play(ins).game) {
        SyncedAt(v.panel, v.fb, p);
      }
    }
  }

  lemma {:induction false} GhostsOnScreen(mem: Memory, ins: seq<Input>)
    ensures forall p: Pixel :: p in Ghosts(mem, ins) ==> OnScreen(p)
  {
    hide Iterate, Locks, Play, InBoxes, Steered, Requests;
    if ins != [] {
      GhostsOnScreen(mem, ins[..|ins| - 1]);
    }
  }
}
