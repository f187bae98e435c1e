/** Concrete runs and schedules from power-up that leave the panel stale or lose a rectangle, and runs
    that meet the hypotheses of the panel theorems. */
module PanelTraces {
  import opened Layout
  import opened Gamma
  import opened Survivors
  import opened Board
  import opened Rules
  import opened Pictures
  import opened Panel
  import opened World
  import opened Controls
  import opened Traces
  import S = Schedule

  // ---------------------------------------------------------------- idle runs

  function Idle(n: nat): seq<Input> {
    seq(n, _ => IDLE)
  }

  lemma IdleStep(g: Game)
    requires !Locks(g, IDLE)
    ensures Step(g, IDLE) == g
  {
    hide Collides;
  }

  lemma IdleStart()
    ensures !Faults(START.blk, IDLE) && !Locks(START, IDLE) && Fallen(START.blk, IDLE) == START.blk
  {
    hide Collides;
    ColumnsClear(SPAWN, START.grid);
  }

  lemma {:induction false} IdleReaches(n: nat)
    ensures Reaches(Idle(n), START, 0) && (n > 1 ==> Burst(Idle(n)) == 0 && !Redraws(Idle(n)))
  {
    if n == 0 {
      StartReached();
    } else {
      IdleReaches(n - 1);
      IdleStart();
      Quiet(Idle(n - 1), START, 0, IDLE);
      assert Idle(n) == Idle(n - 1) + [IDLE];
    }
  }

  lemma {:induction false} IdleTrusted(n: nat)
    requires n > 0
    ensures Trusted(Idle(n)) && !ClearedOnFloor(Idle(n))
  {
    hide Step, Reaches, Burst, Calm, Redraws, Idle, Steered;
    IdleFirst();
    IdlePrefix(n);
    if n > 1 {
      IdleTrusted(n - 1);
    }
    IdleReaches(n - 1);
    NoFloorAtStart(IDLE);
    assert Reaches(Idle(n - 1), START, 0) ==> Play(Idle(n - 1)) == Playing(START) by { ReachesPlays(Idle(n - 1)); }
  }

  lemma ReachesPlays(ins: seq<Input>)
    ensures Reaches(ins, START, 0) ==> Play(ins) == Playing(START)
  {
  }

  lemma IdleFirst()
    ensures Redraws(Idle(1))
  {
  }

  lemma IdlePrefix(n: nat)
    requires n > 0
    ensures |Idle(n)| == n && Idle(n)[..n - 1] == Idle(n - 1) && Idle(n)[n - 1] == IDLE
  {
  }

  /** The hypotheses of the panel theorems are met by real runs, long after their last redraw. */
  lemma IdleRunsAreTrusted(mem: Memory, n: nat)
    requires n > 1
    ensures var ins := Idle(n);
            Play(ins).Playing? && NothingLost(mem, ins) && Calm(ins) && Trusted(ins) && !Redraws(ins)
  {
    hide NothingLost, Trusted, Redraws, Idle, Burst;
    IdleReaches(n);
    IdleTrusted(n);
    CalmRunsLoseNothing(mem, Idle(n));
  }

  // ---------------------------------------------------------------- a clearing floor lock

  predicate EvenBelow(n: int, j: int) {
    0 <= j < n && j % 2 == 0
  }

  function Evens(n: nat): set<int> {
    set j | 0 <= j < n && EvenBelow(n, j)
  }

  /** k South pieces side by side on the floor. */
  function Wall(k: nat): Grid {
    Bottom(Evens(2 * k), Evens(2 * k), Columns(2 * k))
  }

  lemma WallGrows(k: nat)
    ensures Added(Block(SOUTH, 27, 2 * k), Wall(k)) == Wall(k + 1)
  {
    hide BlockRow, Added, Bottom;
    var b := Block(SOUTH, 27, 2 * k);
    UprightRows(b);
    LockedBottom(b, Evens(2 * k), Evens(2 * k), Columns(2 * k));
    assert Evens(2 * k) + {2 * k} == Evens(2 * k + 2);
    assert Columns(2 * k) + {2 * k, 2 * k + 1} == Columns(2 * k + 2);
  }

  lemma WallNotFull(k: nat, r: nat)
    requires r < GRID_ROWS && (k < 15 || r < 29)
    ensures !Full(Wall(k)[r])
  {
    var c, row := (if r < 29 then 1 else 29), Wall(k)[r];
    assert c in BOARD;
    assert !EvenBelow(2 * k, 1) && (k < 15 ==> !Below(2 * k, 29));
    assert row == if r < 27 then {} else if r < 29 then Evens(2 * k) else Columns(2 * k);
    assert c !in row;
  }

  lemma WallShaft(k: nat)
    ensures PathFree(Wall(k), SOUTH, 2 * k, 26)
  {
    ShaftIsFree(Wall(k), SOUTH, 2 * k, 26);
  }

  lemma WallTop(k: nat)
    ensures forall r :: 0 <= r < 27 ==> RowAt(Wall(k), r) == {}
  {
  }

  lemma {:induction false} BuildWall(k: nat) returns (ins: seq<Input>)
    requires k < 15
    ensures Reaches(ins, Game(SPAWN, Wall(k), 0), k)
  {
    hide Reaches, Burst, Calm, Collides, PathFree, Added, SomeFull, Bottom;
    if k == 0 {
      StartReached();
      EmptyBottom();
      assert Evens(0) == {} && Columns(0) == {};
      ins := [];
    } else {
      var before := BuildWall(k - 1);
      WallShaft(k - 1);
      WallGrows(k - 1);
      assert !SomeFull(Full, Wall(k)) by { WallHasNoFullRow(k); }
      var y := 2 * (k - 1);
      ins := LowerAndLock(before, k - 1, SOUTH, y, Evens(y), Evens(y), Columns(y), DOWN, Block(SOUTH, 27, y));
    }
  }

  lemma WallHasNoFullRow(k: nat)
    requires k < 15
    ensures !SomeFull(Full, Wall(k))
  {
    hide Full;
    var g := Wall(k);
    forall r | 0 <= r < |g| ensures !Full(g[r]) {
      WallNotFull(k, r);
    }
  }

  lemma {:induction false} KeptNone<T>(full: T -> bool, g: seq<T>, n: nat)
    requires n <= |g| && forall i :: 0 <= i < n ==> !full(g[i])
    ensures Kept(full, g, n) == g[..n]
  {
    if n > 0 {
      KeptNone(full, g, n - 1);
    }
  }

  lemma WallSurvivors()
    ensures var t := Wall(15); |t| == GRID_ROWS && Survive(Full, t) == t[..29] && GapFree(t) && t[0] == {}
  {
    hide Full;
    var t := Wall(15);
    FullBottom();
    forall r: nat | r < 29 ensures !Full(t[r]) {
      WallNotFull(15, r);
    }
    KeptNone(Full, t, 28);
    assert t[..28] + [t[28]] == t[..29];
    assert 0 in Evens(30) && 0 in Columns(30);
  }

  lemma FullBottom()
    ensures Full(Wall(15)[29])
  {
  }

  // The fifteenth piece completes the bottom row, which is cleared.
  lemma WallCompleted()
    ensures var g := Step(Game(Block(SOUTH, 26, 28), Wall(14), 0), DOWN);
            g.blk == SPAWN && g.score == 1 && g.grid == [{}] + Wall(15)[..29]
  {
    hide Added, ScanFrom, Full, Collides, Kept, Wall;
    WallGrows(14);
    WallSurvivors();
    NotFull();
    ScanMeaning(Wall(15));
    assert Empties(1) == [{}];
  }

  lemma CompletedTop(g: Grid)
    requires g == [{}] + Wall(15)[..29]
    ensures |g| == GRID_ROWS && !Collides(SPAWN, g) && RowAt(g, 27) == {}
  {
    hide Collides;
    ColumnsClear(SPAWN, g);
  }

  /** The pixel at the left end of the wall's top row. */
  const SPOT := Px(27 * GRID_STEP, 0)

  lemma SpotWasLit(g: Game)
    requires g.grid == Wall(14)
    ensures SPOT in Frame(g)
  {
    hide BlockPicture, TextPicture;
    assert CellCol(SPOT) == 0 && CellRow(SPOT) == 27;
    assert 0 in Evens(28);
  }

  lemma SpotIsDark(g: Game)
    requires g.blk == SPAWN && RowAt(g.grid, 27) == {}
    ensures SPOT !in Frame(g)
  {
    hide Digits, BlockRow;
    assert CellCol(SPOT) == 0 && CellRow(SPOT) == 27;
  }

  lemma SpotOutside(s: seq<BBox>)
    requires forall i :: 0 <= i < |s| ==> s[i] == SCORE_BOX || s[i] == UpdateBox(Block(SOUTH, 27, 28))
    ensures !InBoxes(SPOT, s)
  {
  }

  // The completing lock: the whole screen is redrawn, with the old frame still in the framebuffer.
  lemma LockShowsBoth(w: World)
    requires w.game == Game(Block(SOUTH, 26, 28), Wall(14), 0) && w.fb == Frame(w.game) && w.stack == [] && !w.flag
    ensures var w1 := Iterate(w, DOWN);
            && w1.game.blk == SPAWN && w1.game.grid == [{}] + Wall(15)[..29] && !w1.flag
            && w1.stack == [UpdateBox(Block(SOUTH, 27, 28)), SCORE_BOX]
            && SPOT in w1.panel && w1.panel[SPOT] == WHITE
  {
    hide Frame, Step, InBoxes, Collides, Digits, Painted, PushedAll, UpdateBox, Synced;
    WallCompleted();
    var q, b, w1 := UpdateBox(Block(SOUTH, 27, 28)), w.game.blk, Iterate(w, DOWN);
    assert Steered(b, DOWN) == Block(SOUTH, 27, 28);
    assert Requests(b, DOWN) == [q, SCORE_BOX];
    PushedFits([], [q, SCORE_BOX]);
    FloorKeeps(w, DOWN);
    SpotWasLit(w.game);
    RedrawSyncs(w.panel, w1.fb);
    SyncedAt(w1.panel, w1.fb, SPOT);
  }

  // One idle iteration later the panel still shows the cleared row.
  lemma IdleKeepsSpot(w: World)
    requires w.game.blk == SPAWN && w.game.grid == [{}] + Wall(15)[..29] && !w.flag
    requires w.stack == [UpdateBox(Block(SOUTH, 27, 28)), SCORE_BOX]
    requires SPOT in w.panel && w.panel[SPOT] == WHITE
    ensures !Synced(Iterate(w, IDLE).panel, Iterate(w, IDLE).fb)
  {
    hide Frame, Step, InBoxes, Collides, Digits, PushedAll, UpdateBox;
    var g, v := w.game, Iterate(w, IDLE);
    CompletedTop(g.grid);
    assert !Locks(g, IDLE);
    assert Requests(g.blk, IDLE) == [SCORE_BOX];
    PushedFits(w.stack, [SCORE_BOX]);
    IdleStep(g);
    SpotIsDark(g);
    SpotOutside(w.stack + [SCORE_BOX]);
    assert v.panel[SPOT] == WHITE && Ink(v.fb, SPOT) == BLACK;
    assert OnScreen(SPOT);
  }

  /** A calm run, drawn once after each iteration, after which panel and framebuffer differ: the most
      recent redraw was a floor lock that cleared a row. */
  lemma SomeCalmRunIsStale(mem: Memory) returns (ins: seq<Input>)
    ensures Play(ins).Playing? && Calm(ins) && !Trusted(ins)
    ensures !Synced(After(mem, ins).panel, After(mem, ins).fb)
  {
    hide Frame, Iterate, Step, Synced, Collides, PathFree, TopFree;
    var pre := BuildWall(14);
    WallShaft(14);
    WallTop(14);
    TopIsFree(Wall(14), SOUTH, 28);
    pre := Place(pre, Game(SPAWN, Wall(14), 0), 14, SOUTH, 28, 26);
    var g := Game(Block(SOUTH, 26, 28), Wall(14), 0);
    AfterPlays(mem, pre);
    QuietLast(mem, pre);
    assert Locks(g, DOWN) && !Faults(g.blk, DOWN);
    PriorFrame(mem, pre, DOWN);
    Lock(pre, g, 14, DOWN);
    WallCompleted();
    var mid := pre + [DOWN];
    assert mid[..|pre|] == pre;
    var h := Step(g, DOWN);
    CompletedTop(h.grid);
    Quiet(mid, h, 15, IDLE);
    ins := mid + [IDLE];
    assert ins[..|mid|] == mid;
    LockShowsBoth(After(mem, pre));
    IdleKeepsSpot(After(mem, mid));
    StaleIsNotTrusted(mem, ins);
  }

  // After a quiet iteration nothing is pending.
  lemma QuietLast(mem: Memory, ins: seq<Input>)
    requires Play(ins).Playing? && |ins| > 1 && Burst(ins) == 0
    ensures After(mem, ins).stack == []
  {
    hide Frame, Step, Painted, PushedAll, Requests, Steered, Faults;
    PlayPrefix(ins, |ins| - 1);
    AfterPlays(mem, ins[..|ins| - 1]);
  }

  lemma StaleIsNotTrusted(mem: Memory, ins: seq<Input>)
    requires Play(ins).Playing? && Calm(ins) && !Synced(After(mem, ins).panel, After(mem, ins).fb)
    ensures !Trusted(ins)
  {
    hide Synced, After, Calm, Trusted;
    if Trusted(ins) {
      CalmPanelInSync(mem, ins);
    }
  }

  // ---------------------------------------------------------------- schedules of the board

  function Falling(k: nat): Game {
    Game(Block(NORTH, k, 0), Empties(GRID_ROWS), 0)
  }

  lemma TickStep(k: nat)
    requires k < 27
    ensures var b := Falling(k).blk; !Faults(b, TICK) && !Locks(Falling(k), TICK) && !OnFloor(b)
    ensures Step(Falling(k), TICK) == Falling(k + 1)
  {
    hide Collides;
    ColumnsClear(Block(NORTH, k + 1, 0), Empties(GRID_ROWS));
  }

  lemma IdleButtons(w: World)
    ensures AfterButtons(w, IDLE) == w && ButtonBoxes(w.game.blk, IDLE) == []
  {
    hide UpdateBox;
    OnlySteers(w.game.blk, false);
    assert w.game.(blk := w.game.blk) == w.game;
  }

  lemma BodyRequests(b: Block)
    ensures |Requests(b, IDLE)| == 1 && Requests(b, IDLE)[0] == SCORE_BOX && |Requests(b, TICK)| <= 2
    ensures !OnFloor(b) ==> |Requests(b, TICK)| == 2
  {
    OnlySteers(b, true);
    OnlySteers(b, false);
  }

  // One iteration without buttons, as two events.
  lemma OneTick(mem: Memory, es: seq<S.Event>, k: nat) returns (now: seq<S.Event>)
    requires S.Sound(mem, es) && !S.Ran(mem, es).mid && S.Ran(mem, es).w.game == Falling(k) && k < 27
    requires |S.Ran(mem, es).w.stack| <= 14
    ensures S.Sound(mem, now) && now == es + [S.Buttons(IDLE)] + [S.Body(true)]
    ensures var w, v := S.Ran(mem, es).w, S.Ran(mem, now).w;
            && v == Advance(w, TICK) && v.game == Falling(k + 1) && v.fb == Frame(Falling(k + 1)) && v.flag == w.flag
            && v.stack == w.stack + Requests(w.game.blk, TICK)
    ensures var d, v := S.Ran(mem, es), S.Ran(mem, now);
            !v.mid && !v.sticky && v.haunted == d.haunted && v.drawn == S.At(v.w.game.blk)
  {
    hide Frame, Step, Locks, Faults, PushedAll, Requests, AfterButtons, Steered, S.Content, S.Faded, S.Catches,
      S.Sound, S.Ran;
    var d := S.Ran(mem, es);
    var mid := es + [S.Buttons(IDLE)];
    IdleButtons(d.w);
    TickStep(k);
    BodyRequests(d.w.game.blk);
    OnlySteers(d.w.game.blk, true);
    PushedFits(d.w.stack, Requests(d.w.game.blk, TICK));
    S.Then(mem, es, S.Buttons(IDLE));
    S.Then(mem, mid, S.Body(true));
    now := mid + [S.Body(true)];
    assert iset{} + Frame(Falling(k + 1)) == Frame(Falling(k + 1));
  }

  lemma StartSound(mem: Memory)
    ensures S.Sound(mem, []) && !S.Ran(mem, []).mid && !S.Ran(mem, []).haunted
    ensures S.Ran(mem, []).w == PowerUp(mem) && START == Falling(0)
  {
  }

  /** Without any draw, the ninth iteration of a falling piece loses a rectangle. */
  lemma SomeScheduleLosesARectangle(mem: Memory) returns (es: seq<S.Event>)
    ensures S.Sound(mem, es) && S.Ran(mem, es).mid
    ensures var w := S.Ran(mem, es).w;
            !Faults(w.game.blk, TICK)
            && PushedAll(w.stack, Requests(w.game.blk, TICK)) != w.stack + Requests(w.game.blk, TICK)
  {
    hide S.Sound, S.Ran, Requests, Faults, AfterButtons, PushedAll, Outside;
    var pre := Undrawn(mem, 8);
    var d := S.Ran(mem, pre);
    IdleButtons(d.w);
    TickStep(8);
    BodyRequests(d.w.game.blk);
    S.Then(mem, pre, S.Buttons(IDLE));
    es := pre + [S.Buttons(IDLE)];
    PushedFits(d.w.stack, Requests(d.w.game.blk, TICK));
  }

  lemma {:induction false} Undrawn(mem: Memory, k: nat) returns (es: seq<S.Event>)
    requires k <= 8
    ensures S.Sound(mem, es) && !S.Ran(mem, es).mid
    ensures S.Ran(mem, es).w.game == Falling(k) && |S.Ran(mem, es).w.stack| == 2 * k
  {
    hide S.Sound, S.Ran, Requests, Advance;
    if k == 0 {
      StartSound(mem);
      es := [];
    } else {
      var before := Undrawn(mem, k - 1);
      TickStep(k - 1);
      BodyRequests(Falling(k - 1).blk);
      es := OneTick(mem, before, k - 1);
    }
  }

  // k ticks, each followed by one draw.
  lemma {:induction false} TickAndDraw(mem: Memory, k: nat) returns (es: seq<S.Event>)
    requires 1 <= k <= 27
    ensures S.Sound(mem, es) && !S.Ran(mem, es).mid
    ensures var w := S.Ran(mem, es).w; w.game == Falling(k) && w.fb == Frame(w.game) && !w.flag && |w.stack| <= 2
    ensures !S.Ran(mem, es).haunted && S.Ran(mem, es).drawn == S.At(Falling(k).blk)
  {
    hide S.Sound, S.Ran, Requests, Advance, Frame, Painted;
    var before: seq<S.Event> := [];
    StartSound(mem);
    if k > 1 {
      before := TickAndDraw(mem, k - 1);
    }
    BodyRequests(Falling(k - 1).blk);
    var mid := OneTick(mem, before, k - 1);
    S.Then(mem, mid, S.Video);
    es := mid + [S.Video];
  }

  // ---------------------------------------------------------------- a move drawn too early

  /** A pixel of the piece at row 10, column 0, that the move to column 1 uncovers. */
  const TRAIL := Px(11 * GRID_STEP, 0)

  lemma TrailWasLit()
    ensures TRAIL in Frame(Falling(10)) && TRAIL !in Frame(Falling(10).(blk := Block(NORTH, 10, 1)))
  {
    hide TextPicture, GridPicture;
    var a, b := Block(NORTH, 10, 0), Block(NORTH, 10, 1);
    assert CellRow(TRAIL) == 11 && CellCol(TRAIL) == 0;
    NarrowRow(a, 1);
    NarrowRow(b, 1);
    TrailIsBare();
  }

  lemma TrailIsBare()
    ensures TRAIL !in GridPicture(Empties(GRID_ROWS)) && TRAIL !in TextPicture(0)
  {
    hide Digits;
    assert CellRow(TRAIL) == 11 && CellCol(TRAIL) == 0;
  }

  lemma TrailBoxes(s: seq<BBox>)
    ensures InBoxes(TRAIL, s + [UpdateBox(Block(NORTH, 10, 1))]) && !InBoxes(TRAIL, [SCORE_BOX])
  {
    var q := UpdateBox(Block(NORTH, 10, 1));
    assert InBox(TRAIL, q) && (s + [q])[|s|] == q;
  }

  lemma PressRight(w: World)
    requires w.game == Falling(10) && |w.stack| <= 2
    ensures var v := AfterButtons(w, RIGHT);
            && v == w.(game := Falling(10).(blk := Block(NORTH, 10, 1)), stack := v.stack)
            && v.stack == w.stack + [UpdateBox(Block(NORTH, 10, 1))] && |ButtonBoxes(w.game.blk, RIGHT)| == 1
  {
    hide UpdateBox, PushedAll;
    assert Steered(w.game.blk, RIGHT) == Block(NORTH, 10, 1);
    PushedFits(w.stack, [UpdateBox(Block(NORTH, 10, 1))]);
  }

  lemma RestIdle(g: Game)
    requires g == Falling(10).(blk := Block(NORTH, 10, 1))
    ensures !Faults(g.blk, IDLE) && !Locks(g, IDLE) && Step(g, IDLE) == g
  {
    hide Collides;
    ColumnsClear(Block(NORTH, 10, 1), Empties(GRID_ROWS));
    IdleStep(g);
  }

  // The rectangle of the move is drained with the old frame; the body then pushes only the score.
  lemma TrailStays(w: World)
    requires w.game == Falling(10) && w.fb == Frame(w.game) && !w.flag && |w.stack| <= 2
    ensures var w2 := Drawn(AfterButtons(w, RIGHT));
            var v := Drawn(Advance(w2, IDLE));
            !Synced(v.panel, v.fb) && w2.game.blk == Block(NORTH, 10, 1) && Fits(w2, IDLE)
            && !Faults(w2.game.blk, IDLE) && !Locks(w2.game, IDLE) && v.stack == []
            && !Advance(w2, IDLE).flag && Advance(w2, IDLE).game == w2.game && v.game == w2.game
  {
    hide Frame, Step, InBoxes, Locks, Faults, PushedAll, UpdateBox, Requests, AfterButtons, Synced;
    var w1 := AfterButtons(w, RIGHT);
    PressRight(w);
    TrailWasLit();
    TrailBoxes(w.stack);
    var w2 := Drawn(w1);
    assert w2.stack == [] && w2.panel[TRAIL] == WHITE;
    RestIdle(w2.game);
    BodyRequests(w2.game.blk);
    assert Requests(w2.game.blk, IDLE) == [SCORE_BOX];
    PushedFits([], [SCORE_BOX]);
    var w3 := Advance(w2, IDLE);
    assert w3.stack == [SCORE_BOX] && !w3.flag;
    OnlySteers(w2.game.blk, false);
    var v := Drawn(w3);
    assert v.panel[TRAIL] == WHITE && Ink(v.fb, TRAIL) == BLACK;
    if Synced(v.panel, v.fb) {
      SyncedAt(v.panel, v.fb, TRAIL);
    }
  }

  /** A button press whose rectangle is drawn while the loop sleeps: the panel keeps the old piece. */
  lemma SomePressLagsBehind(mem: Memory) returns (es: seq<S.Event>)
    ensures S.Sound(mem, es) && es != [] && es[|es| - 1].Video?
    ensures var d := S.Ran(mem, es);
            && !Synced(d.w.panel, d.w.fb) && !d.haunted
            && d.drawn == S.At(Block(NORTH, 10, 1)) && d.shown == S.At(Block(NORTH, 10, 0))
            && d.w.game.blk == Block(NORTH, 10, 1) && !d.mid && d.w.stack == []
  {
    hide S.Sound, S.Ran, Advance, AfterButtons, Drawn, Synced, Frame, Fits, Faults, S.Content, S.Faded,
      Locks, UpdateBox;
    var e0 := TickAndDraw(mem, 10);
    var d := S.Ran(mem, e0);
    PressRight(d.w);
    TrailStays(d.w);
    S.Then(mem, e0, S.Buttons(RIGHT));
    var e1 := e0 + [S.Buttons(RIGHT)];
    S.Then(mem, e1, S.Video);
    var e2 := e1 + [S.Video];
    S.Then(mem, e2, S.Body(false));
    var e3 := e2 + [S.Body(false)];
    S.Then(mem, e3, S.Video);
    es := e3 + [S.Video];
  }

  /** The next tick brings the panel up to date again. */
  lemma SomePressIsHealed(mem: Memory) returns (es: seq<S.Event>, later: seq<S.Event>)
    ensures S.Sound(mem, later) && later == es + [S.Buttons(IDLE)] + [S.Body(true)] + [S.Video]
    ensures !Synced(S.Ran(mem, es).w.panel, S.Ran(mem, es).w.fb)
    ensures Synced(S.Ran(mem, later).w.panel, S.Ran(mem, later).w.fb)
  {
    hide S.Sound, S.Ran, Advance, AfterButtons, Drawn, Synced, Faults, S.Content, S.Faded, S.Catches, Requests;
    es := SomePressLagsBehind(mem);
    var w := S.Ran(mem, es).w;
    IdleButtons(w);
    BodyRequests(w.game.blk);
    TickStaysInside();
    var e1 := es + [S.Buttons(IDLE)];
    var e2 := e1 + [S.Body(true)];
    S.Then(mem, es, S.Buttons(IDLE));
    S.Then(mem, e1, S.Body(true));
    S.TickHeals(mem, e1);
    S.Then(mem, e2, S.Video);
    later := e2 + [S.Video];
  }

  lemma TickStaysInside()
    ensures !Faults(Block(NORTH, 10, 1), TICK)
  {
  }

  // ---------------------------------------------------------------- a steered floor lock, drawn twice

  const GHOST := Px(28 * GRID_STEP, 0)

  lemma GhostWasLit()
    ensures GHOST in Frame(Falling(27))
  {
    hide TextPicture, GridPicture;
    NarrowRow(Block(NORTH, 27, 0), 1);
    assert CellRow(GHOST) == 28 && CellCol(GHOST) == 0;
  }

  // The locked grid.
  function Rested(): Grid {
    Bottom({1, 2}, {1}, {1})
  }

  lemma PressRightOnFloor(w: World)
    requires w.game == Falling(27) && |w.stack| <= 2
    ensures var v := AfterButtons(w, RIGHT);
            && v == w.(game := Falling(27).(blk := Block(NORTH, 27, 1)), stack := v.stack)
            && |v.stack| <= 3 && |ButtonBoxes(w.game.blk, RIGHT)| == 1
  {
    hide UpdateBox, PushedAll;
    assert Steered(w.game.blk, RIGHT) == Block(NORTH, 27, 1);
    PushedFits(w.stack, [UpdateBox(Block(NORTH, 27, 1))]);
  }

  lemma RestedStep()
    ensures var g := Falling(27).(blk := Block(NORTH, 27, 1));
            !Faults(g.blk, IDLE) && Locks(g, IDLE) && OnFloor(g.blk) && Step(g, IDLE) == Game(SPAWN, Rested(), 0)
  {
    hide ScanFrom, Added, Empties, Collides, BlockRow, Bottom, SomeFull, Full;
    var b := Block(NORTH, 27, 1);
    OnlySteers(b, false);
    EmptyBottom();
    UprightRows(b);
    LockedBottom(b, {}, {}, {});
    assert {} + BlockRow(b, 0) == {1, 2} && {} + BlockRow(b, 1) == {1} && {} + BlockRow(b, 2) == {1};
    BottomNotFull({1, 2}, {1}, {1});
    NothingFull(Rested());
  }

  lemma NothingFull(g: Grid)
    requires !SomeFull(Full, g)
    ensures ScanAll(g) == Scan(g, 0)
  {
    ScanNothing(g, |g| - 1);
  }

  lemma GhostIsDark()
    ensures GHOST !in Frame(Game(SPAWN, Rested(), 0))
    ensures !Collides(SPAWN, Rested())
  {
    hide Digits, Collides, BlockRow;
    assert CellRow(GHOST) == 28 && CellCol(GHOST) == 0;
    ColumnsClear(SPAWN, Rested());
  }

  // The lock, two draws, an idle iteration and a third draw.
  lemma GhostStays(w: World)
    requires w.game == Falling(27) && w.fb == Frame(w.game) && !w.flag && |w.stack| <= 2
    ensures var w1 := AfterButtons(w, RIGHT);
            var w2 := Drawn(Drawn(Advance(w1, IDLE)));
            var v := Drawn(Advance(w2, IDLE));
            && !Synced(v.panel, v.fb) && w2.game.blk == SPAWN && w2.stack == []
            && Fits(w1, IDLE) && Fits(w2, IDLE) && !Faults(w1.game.blk, IDLE) && !Faults(SPAWN, IDLE)
  {
    hide Frame, Step, InBoxes, Collides, Digits, PushedAll, UpdateBox, Requests, Synced, Acted, AfterButtons, Rested;
    PressRightOnFloor(w);
    RestedStep();
    GhostWasLit();
    GhostIsDark();
    var w1 := AfterButtons(w, RIGHT);
    BodyRequests(w1.game.blk);
    OnlySteers(w1.game.blk, false);
    var locked := Advance(w1, IDLE);
    var shown := Drawn(locked);
    RedrawSyncs(locked.panel, locked.fb);
    SyncedAt(shown.panel, shown.fb, GHOST);
    var w2 := Drawn(shown);
    assert w2.stack == [] && w2.panel[GHOST] == WHITE;
    var g := w2.game;
    assert !Locks(g, IDLE);
    IdleStep(g);
    BodyRequests(g.blk);
    assert Requests(g.blk, IDLE) == [SCORE_BOX];
    PushedFits([], [SCORE_BOX]);
    OutsideScore();
    var w3 := Advance(w2, IDLE);
    assert w3.stack == [SCORE_BOX] && !w3.flag;
    var v := Drawn(w3);
    assert v.fb == Frame(g) && v.panel[GHOST] == WHITE;
    if Synced(v.panel, v.fb) {
      SyncedAt(v.panel, v.fb, GHOST);
    }
  }

  lemma OutsideScore()
    ensures !InBoxes(GHOST, [SCORE_BOX])
  {
  }

  /** A schedule that loses nothing and draws only between iterations, and yet leaves the panel stale: a
      steered floor lock drawn twice before the next iteration. */
  lemma SomeScheduleIsStale(mem: Memory) returns (es: seq<S.Event>)
    ensures S.Sound(mem, es) && es != [] && es[|es| - 1].Video?
    ensures !Synced(S.Ran(mem, es).w.panel, S.Ran(mem, es).w.fb)
  {
    hide S.Sound, S.Ran, Advance, AfterButtons, Drawn, Synced, Frame, Fits, Faults, S.Content, S.Faded, S.Catches;
    es := TickAndDraw(mem, 27);
    var w := S.Ran(mem, es).w;
    PressRightOnFloor(w);
    GhostStays(w);
    S.Then(mem, es, S.Buttons(RIGHT));
    es := es + [S.Buttons(RIGHT)];
    S.Then(mem, es, S.Body(false));
    es := es + [S.Body(false)];
    S.Then(mem, es, S.Video);
    es := es + [S.Video];
    S.Then(mem, es, S.Video);
    es := es + [S.Video];
    IdleButtons(S.Ran(mem, es).w);
    S.Then(mem, es, S.Buttons(IDLE));
    es := es + [S.Buttons(IDLE)];
    S.Then(mem, es, S.Body(false));
    es := es + [S.Body(false)];
    S.Then(mem, es, S.Video);
    es := es + [S.Video];
  }
}
