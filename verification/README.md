# katetris in Dafny

katetris is a falling-block game for a 240x240 colour panel: a bit-packed grid of 30 rows, one piece in four
orientations, gravity and buttons, row clearing with a score, a packed monochrome framebuffer, a bounded stack of
dirty rectangles, and a driver that streams rectangles to the panel through a 64-word buffer. This project models
that program and proves what it does over all inputs and all finite runs.

The model has two layers. The lower layer has the program's own shape: arrays, records with fields, nested loops and
in-place updates (`GridOps`, `Framebuffer`, `Driver`, `Firmware`, the class in `Debounce`). Each method is tied to a
function of the upper layer, where a grid row is the set of its columns, a picture is the set of its lit pixels, and
the panel is a memory that executes the commands on the wire. The run theorems are proved about the upper layer, and
`Firmware.DrawEachIteration` and `Firmware.RunBoard` carry them back to the program.

| file | content |
|---|---|
| `Layout`, `Words`, `Gamma` | sizes and records; bytes and 32-bit words with the C bit operators; patterns and bounding boxes |
| `Survivors`, `Board` | which rows survive the scan; collision, locking, shifting, counting cells |
| `Rules` | one loop iteration on values, runs, and what every run keeps |
| `Turns`, `Controls` | how the four patterns relate; what each button does, in coordinates, and what undoes it |
| `GridOps`, `Framebuffer` | the operations of tetris.c, display.c and text.c on arrays |
| `Pictures` | frames, dirty rectangles, and which pixels one iteration can change |
| `Font` | the digits as figures, and which scores can be told apart on the screen |
| `Panel`, `Driver` | the controller on the wire, the buffered transfer, `draw` |
| `World` | game, framebuffer, rectangles and panel together, with one draw after each iteration |
| `Schedule` | the board: an iteration in two parts, draws at any time between and during iterations |
| `Firmware` | the loop of main.c over the mutable state |
| `Debounce` | the button debouncer |
| `Traces`, `TowerTrace`, `HiddenTrace`, `PanelTraces` | concrete runs and schedules from power-up showing that the hypotheses are needed |

Main results, each for every input or every run:

* The scan does not always remove every full row: a block of k adjacent full rows loses k - k/2 of them, the rest keeps
  its order, and the score counts exactly the rows that disappear (`BlockLosesHalf`, `ScanMeaning`, `RunClearsExactly`).
  On any grid a full row is left if and only if two adjacent rows or the top row were full (`ScanLeavesFullRowExactly`,
  `RunLeavesFullRowExactly`), and a run from power-up leaves one (`SomeRunLeavesAFullRow`).
* Cells are conserved: if the top row is empty at each scan, set cells + 30 * score <= 4 * pieces, with equality on the
  visible board for careful play (`RunConservesCells`, `CarefulRunsConserve`). Whatever the stack looks like, a run whose
  locks are clean satisfies visible cells + 30 * score == 4 * pieces + visible cells copied from the top row
  (`RunBalance`), and nothing is copied if and only if at each scan the top row has no visible cell or no row is full
  among the occupied ones at the top (`RunConservesExactly`, `ScanConservesExactly`). A tower that reaches the top row
  breaks the books (`SomeRunBreaksTheBooks`).
* The piece leaves the grid exactly when DOWN is acted on in the West orientation at row 27, and the stack gets a gap
  exactly when a West piece rests on the floor over an empty bottom row (`RunFaultsExactly`, `RunGapFreeExactly`).
* A row counts as full whatever its hidden column holds, and a run from power-up scores such a row (`FullExactly`,
  `SomeHiddenColumnScores`). A piece collides if and only if locking it one row further down would add fewer than four
  cells (`CollidesExactly`, `CollidesCounts`).
* LEFT takes back every RIGHT, but RIGHT takes back a LEFT only if no turn has put a lying piece at column 28; ENTER is a
  quarter turn exactly from East and South, and a reflection from North and West (`RightUndoesLeftExactly`,
  `EnterTurnsExactly`).
* The drawn score does not determine the score, since all digits share one place: two scores look alike if and only if
  their digits have the same dots together; single digits differ, but 12 looks like 21 and 38 like 8
  (`LookAlikeExactly`, `DigitsDiffer`, `SomeScoresLookAlike`).
* With one draw per iteration, and as long as no rectangle is lost, the panel shows the frame and an exactly described
  set of old pixels; it equals the framebuffer unless the most recent full redraw was a floor lock that cleared a row
  (`PanelExactly`, `QuietSyncExactly`, `CalmPanelInSync`). The floor branch jumps over `vbuf_clear`, and this is what it
  costs.
* On the board a button's rectangle is pushed 150 ms before the frame it belongs to, and the video thread drains it in
  between. Under every schedule that loses no rectangle the panel shows, beside the score, the locked cells, the piece
  as it was at most one move ago, and the old pixels of a floor lock (`PanelUnderEverySchedule`, `OneMoveBehind`,
  `PanelShowsAFrame`). A draw synchronises if and only if a redraw is due or these cannot be told from the framebuffer
  (`DrawSyncsExactly`); unless the last redraw showed a sticky floor lock, only the piece matters (`LagSyncsExactly`).
  The panel falls behind exactly when a move is framed after its rectangle has been drained, without a tick or a lock,
  and catches up with the next tick, lock, acting button or redraw (`BehindExactly`, `HealedDrawSyncs`, `TickHeals`).
  One press from power-up shows both (`SomePressLagsBehind`, `SomePressIsHealed`).
* No rectangle is lost if at most five iterations lie between two draining draws (`FrequentDrawsLoseNothing`); without
  draws the ninth tick loses one (`SomeScheduleLosesARectangle`).
* Every rectangle of the game is a whole number of transfer buffers, so the padded tail of a transfer never occurs and
  the stream fills its window exactly (`GameBoxesAligned`, `NoPadding`, `StreamPaints`).
* The debounced state follows the line exactly when the blackouts swallowed an even number of edges, or an odd number if
  the line was high at power-up (`FollowsExactly`).

## Conventions

* The floor test of the loop always uses the box of the spawn orientation, since main.c recomputes `bbox` only there.
* The collision test reads row 30 when the piece is at row 27; the model reads an empty row there. A piece below row 27
  would index further out of the array; the model stops such a run (`Fault`).
* `SHIFT_CLEAR` is on, its default in CMakeLists.txt. Buttons and the one-second tick are inputs of each iteration.
* On the board an iteration is two events: `hw->loop` with the buttons and their rectangle, then, after the sleep at
  impl_stm32.c:292, the rest of the loop body. A draw is one event of its own and may come anywhere, any number of times:
  during that sleep, during the sleep that ends an iteration (main.c:141), or before the first iteration. When no button
  acted there is no sleep in the middle; schedules that draw there anyway are covered all the same.
* The record `Schedule.Device` carries, beside the device, the piece last framed, the piece last shown and the pixels a
  floor lock left behind. They follow from buttons, ticks, locks and draws alone; none of them reads the panel. A sticky
  floor lock is one that clears a row or whose piece was moved in the same iteration.
* `Iteration` and `DrawEachIteration` combine the loop body that ends with `draw` (main.c:139), which only the desktop
  build compiles, with the rectangle driver of impl_stm32.c. `Buttons`, `Body`, `Video` and `RunBoard` are the board
  build, where `draw` belongs to the video thread. `EachIterationIsOneSchedule` relates the two.
* The panel's write position wraps at the end of the window, so that surplus words would be visible.
* `Shl` does not truncate; `PieceWord` proves that `pattern << y` stays below 2^31 wherever the game uses it.
* The score is unbounded in the model; the drawing takes it modulo 256 as the `uint8_t` parameter does.
* `GRID_COLS` is 31: column 30 exists in the grid, is neither visible nor tested by `grid_check`, and is clipped.

## Model

| member | source | states |
|---|---|---|
| Gamma.GetBBox | tetris.c:81-100 | for a non-empty pattern of any height the box covers every set cell and each of its sides touches one |
| Gamma.TightIsSmallest | tetris.c:81-100 | such a box lies inside every box that covers the pattern |
| Gamma.GammaBoxIsTight | tetris.h:8-24 | the box of each of the four orientations |
| Turns.HalfTurn | tetris.h:8-24 | West is East after half a turn |
| Turns.UpsideDown | tetris.h:8-24 | South is North upside down |
| Turns.EnterTurnsExactly | tetris.c:11-13 | ENTER is a quarter turn up to a shift if and only if the piece is East or South, a reflection if and only if it is North or West |
| Controls.OneButton | buttons.h:15-39 | the piece after each button alone, in coordinates |
| Controls.OneButtonActs | buttons.h:15-39 | which button acts at which position |
| Controls.InOrder | buttons.h:15-39 | several buttons act one after the other, left, right, down, enter; UP does nothing |
| Controls.LeftUndoesRight | buttons.h:20-28 | LEFT after an acting RIGHT gives the piece back |
| Controls.RightUndoesLeftExactly | buttons.h:20-28 | RIGHT after an acting LEFT gives it back if and only if it was not a lying piece at column 28 |
| Controls.FourTurns | buttons.h:34-37 | four ENTERs give the piece back |
| Controls.ReachColumn | buttons.h:20-28 | from any column the buttons reach every column up to the last one |
| Controls.HiddenExactly | buttons.h:24-37 | the piece reaches into the hidden column if and only if it lies at column 28 |
| Controls.FloorExactly | main.c:94-105 | the floor is row 27, and a tick lowers the piece by one row unless it is there |
| Controls.LocksExactly | main.c:94-106 | an iteration locks if and only if the piece is on the floor or, after the tick, one of its cells lies directly above an occupied one |
| GridOps.PieceWord | tetris.c:53 | for columns 0..28 the shifted pattern is below 2^31 and its bits are the piece's columns |
| GridOps.GridClear | tetris.c:33-37 | all rows become empty |
| GridOps.BlockCollides | tetris.c:39-49 | true exactly when the piece one row lower would cover an occupied cell |
| Board.FreeExactly | tetris.c:51-55 | a piece is free if and only if none of its four cells is occupied |
| Board.CollidesExactly | tetris.c:39-49 | a piece collides if and only if one of its cells would be occupied one row further down |
| Rules.CollidesCounts | tetris.c:39-55 | a piece collides if and only if locking it one row further down would add fewer than four cells |
| GridOps.BlockAdd | tetris.c:51-55 | the grid becomes the old one with the piece's cells added, nothing else changes |
| GridOps.GridShift | tetris.c:67-71 | row s is gone and the row at the nearest gap above is duplicated |
| GridOps.GridCheck | tetris.c:73-79 | true exactly when columns 0..29 are all set |
| Board.FullExactly | tetris.c:73-79 | a row is full if and only if its thirty visible cells are set, whatever the hidden column holds |
| Board.FullStays | tetris.c:51-55 | a lock never makes a full row incomplete |
| GridOps.ScanRows | main.c:112-117 | grid and score after the scan are those of the scan function |
| Board.ShiftInsertsAtGap | tetris.c:67-71 | with an empty row above, the shift deletes row s and inserts an empty row at the nearest gap |
| Board.ShiftDeletesRow | tetris.c:67-71 | on a gap-free stack the early exit is "delete row s, prepend a copy of the top row" |
| Board.ShiftCells | tetris.c:67-71 | the cell count changes by exactly the row at the gap minus row s, in any set of columns |
| Survivors.BlockLosesHalf | main.c:112-117 | a maximal block of k full rows keeps every second row; the rows above and below are scanned independently |
| Survivors.PartialRowsSurvive | main.c:112-117 | no row that is not full is lost, and those rows keep their order |
| Survivors.FullRowLeftExactly | main.c:112-117 | a full row is among the survivors if and only if two adjacent rows were full |
| Board.ScanMeaning | main.c:112-117 | on a gap-free stack whose top row is not full: survivors under as many copies of the top row as rows were dropped, score up by that number |
| Board.ScanLeavesFullRowExactly | main.c:112-117 | on any grid a full row is left after the scan if and only if two adjacent rows or the top row were full |
| Board.ClearsNothingExactly | main.c:112-117 | the scan of the first n rows scores nothing if and only if none of them is full |
| Board.ScanCells | main.c:112-117 | with an empty top row each cleared row takes at least, and on visible columns exactly, its board columns away |
| Board.ScanCellsExactly | main.c:112-117 | on any grid: cleared rows lose their visible cells, and those among the occupied rows at the top are traded for copies of the top row |
| Board.ScanConservesExactly | main.c:112-117 | on any grid visible cells + 30 per cleared row are conserved if and only if the top row has no visible cell or no row among the occupied ones at the top is full |
| Board.AddedCells | tetris.c:51-55 | a lock adds at most four cells; inside the counted columns exactly four if and only if the piece covers no occupied cell |
| Rules.FaultsExactly | buttons.h:29-33 | an iteration leaves the grid if and only if DOWN is acted on in West at row 27 |
| Rules.RunFaultsExactly | main.c:91-110 | a run leaves the grid if and only if some iteration does so |
| Rules.RunInGrid | buttons.h:15-39 | for all inputs 0 <= x <= 27 and 0 <= y <= 28 at every loop head, and every occupied column is below 31 |
| Rules.StepGapFreeExactly | main.c:94-117 | an iteration keeps the stack gap-free if and only if it is not a West floor lock over an empty bottom row |
| Rules.RunGapFree | main.c:94-117 | runs without such a lock never have an empty row below an occupied one, overlaps included |
| Rules.RunGapFreeExactly | main.c:94-117 | the stack is gap-free after every iteration if and only if no iteration is such a lock |
| Rules.RunClearsExactly | main.c:106-117 | in such runs every lock that does not fill the top row clears exactly as the survivors say |
| Rules.RunLeavesFullRowExactly | main.c:106-117 | in every run a lock leaves a full row on the grid if and only if it made two adjacent rows or the top row full |
| Rules.RunCells | main.c:106-117 | conservation along a run, for any set of columns |
| Rules.RunConservesCells | main.c:106-117 | set cells + 30 * score <= 4 * pieces when the top row is empty at each scan |
| Rules.RunConservesVisibleCells | main.c:106-117 | equality on the visible columns when every lock covers free visible cells |
| Rules.RunBalance | main.c:106-117 | for clean locks: visible cells + 30 * score == 4 * pieces + copied cells, and nothing is copied if and only if every scan is balanced |
| Rules.RunConservesExactly | main.c:106-117 | for clean locks: visible cells + 30 * score == 4 * pieces if and only if every scan is balanced |
| Rules.CarefulRunsNeverOverlap | tetris.c:39-55 | if the spawn rows are empty after each lock and every iteration only falls by at most one row or ends on free cells, no lock overlaps |
| Rules.CarefulRunsConserve | main.c:91-117 | such play on the visible board satisfies the equality |
| Framebuffer.Vbuf.SetBit | display.c:18-20 | exactly one pixel becomes lit |
| Framebuffer.Vbuf.Clear | display.c:26-32 | no pixel is lit |
| Framebuffer.Vbuf.DrawRect | display.c:34-42 | exactly the clipped rectangle is added |
| Framebuffer.Vbuf.Push | display.c:50-56 | appends unless sixteen rectangles are pending |
| Framebuffer.Vbuf.Pop | display.c:58-64 | removes the last rectangle |
| Framebuffer.Vbuf.BlockDraw | tetris.c:23-31 | adds exactly the pixels whose cell the piece occupies |
| Framebuffer.Vbuf.GridDraw | tetris.c:57-65 | adds exactly the pixels whose cell is occupied |
| Framebuffer.Vbuf.DrawChar | text.c:10-18 | adds exactly the dots of the glyph |
| Framebuffer.Vbuf.TextDrawChar | text.c:20-28 | the glyph of the font, nothing off the cell raster or outside the font |
| Framebuffer.Vbuf.TextDrawNumber | text.c:30-40 | adds exactly the union of the glyphs of the decimal digits, zero included |
| Pictures.DigitsDenote | text.c:30-40 | the digits drawn denote the number and have no leading zero |
| Pictures.DigitsUnique | text.c:30-40 | they are the only digits that do |
| Font.GlyphIsFigure | font.h:11-81 | each glyph as a figure: frame, stem, bar and diagonal, segments, and the six as a nine upside down |
| Font.SevenSegmentExactly | font.h:11-81 | a glyph is the seven-segment digit if and only if it is 3, 4, 5, 8 or 9 |
| Font.ScoreDrawn | text.c:30-40 | the score on the screen is that of its decimal digits modulo 256 |
| Font.LookAlikeExactly | text.c:30-40 | two numbers give the same picture if and only if their digits have the same dots together |
| Font.DigitsDiffer | font.h:11-81 | scores of one digit can be told apart |
| Font.SomeScoresLookAlike | text.c:36-39 | 12 and 21, and 38 and 8, cannot |
| Pictures.ScoreInsideBox | main.c:37-40 | every pixel of the score lies in the score rectangle |
| Pictures.ScoreBoxExactly | main.c:37-40 | that rectangle is 40 by 120 pixels in the corner |
| Pictures.UpdateBoxExactly | tetris.c:102-115 | the rectangle of a piece covers exactly the cell columns y - 2 to y + 4, columns 0 to 6 at the left edge |
| Pictures.BlockInsideBox | tetris.c:102-115 | a piece within two columns is drawn inside the pushed rectangle |
| Pictures.StepCoverage | main.c:91-127 | without a lock every pixel that changes lies in a rectangle pushed by the iteration |
| Pictures.FloorLockKeepsCells | main.c:94-98 | a floor lock that clears nothing keeps the cells of the frame, outside the pushed rectangles |
| Pictures.FloorLockGrows | main.c:94-98 | a floor lock that clears nothing only adds pixels, outside the pushed rectangles |
| Panel.AddressDecodes | impl_stm32.c:75-91 | high and low byte give the address back |
| Panel.OpensWindow | impl_stm32.c:153-163 | the commands open exactly the clipped window |
| Panel.WindowBytes | impl_stm32.c:75-91 | the bytes on the wire: 2Ah, first and last pixel column, 2Bh, first and last pixel row, 2Ch |
| Panel.WriteRows | impl_stm32.c:165-179 | streaming rows fills the window with the column fastest and touches nothing else |
| Panel.StreamWord | impl_stm32.c:165-179 | which word of the stream belongs to which pixel, FFFFh if it is lit and 0 if not |
| Panel.StreamPaints | impl_stm32.c:148-185 | a transfer of exactly the window makes the panel show the picture there, nothing else changes |
| Panel.GameBoxesAligned | tetris.c:102-115 | piece, score and screen rectangles are byte-aligned with an area divisible by 64, for every column |
| Panel.PaintedTwice | main.c:30-34 | the order in which rectangles are drained does not matter |
| Driver.Display.BufPush | impl_stm32.c:138-142 | appends unless the buffer is full |
| Driver.Display.Emit | impl_stm32.c:172-176 | no word is lost: chunks sent and words buffered make up the stream |
| Driver.Display.UpdateRect | impl_stm32.c:148-185 | window commands, full chunks carrying the scanned byte rows in row-major order plus fewer than 64 padding words, buffer empty at exit |
| Driver.NoPadding | impl_stm32.c:180-183 | for an aligned rectangle no padding is sent and the words sent equal the window area |
| Driver.Display.Refresh | impl_stm32.c:148-185 | the panel equals the framebuffer inside the rectangle and is unchanged elsewhere |
| Driver.Display.Draw | main.c:24-35 | with the flag the whole panel, otherwise the union of the pending rectangles, equals the framebuffer; the rest is unchanged; it terminates |
| World.PushedFits | display.c:50-56 | no rectangle is dropped if and only if the new ones fit |
| World.CalmRunsLoseNothing | main.c:91-139 | with at most four full redraws in a row every push of the run succeeds |
| World.RoomyRunsAreCalm | main.c:91-121 | this holds whenever the top six rows are empty after each lock |
| World.DrainSyncsExactly | main.c:30-34 | draining synchronises the panel if and only if every stale pixel lies in a pending rectangle |
| World.FloorLockClean | main.c:94-98 | after a floor lock that clears nothing, old pixels remain only inside the pending rectangles |
| World.PanelInSync | main.c:91-142 | in runs that lose no rectangle the panel equals the framebuffer after each iteration, unless the last full redraw was a clearing floor lock |
| World.CalmPanelInSync | main.c:91-142 | the same for calm runs |
| World.PanelExactly | main.c:91-142 | what the panel shows after every iteration: the frame and the ghosts, pixel by pixel |
| World.QuietSyncExactly | main.c:91-142 | after an iteration without redraw panel and framebuffer agree if and only if the frame covers the ghosts |
| World.TwoParts | main.c:91-127 | the buttons and then the body with its tick are the whole iteration |
| Schedule.FramebufferExactly | main.c:91-127 | under every schedule the framebuffer is the last frame drawn plus, after a floor lock, the one before it |
| Schedule.PanelUnderEverySchedule | main.c:42-52 | what the panel shows under every schedule, draws during the sleep after a button included: score, locked cells, the piece last shown, ghosts of a floor lock |
| Schedule.DrawSyncsExactly | main.c:42-52 | a draw leaves panel and framebuffer equal if and only if a redraw is due, or piece and ghosts on the panel cannot be told from the framebuffer |
| Schedule.LagSyncsExactly | main.c:42-52 | unless the last redraw showed a sticky lock: if and only if a redraw is due or the two pieces differ only under the score and the locked cells |
| Schedule.EveryDrawSyncs | impl_stm32.c:285-294 | in particular it does when the panel has the piece of the framebuffer |
| Schedule.BehindExactly | impl_stm32.c:285-294 | the panel has the piece of the framebuffer after an event if and only if the event heals, or it did before and no moved piece is framed |
| Schedule.HealedDrawSyncs | tetris.c:102-115 | after an acting button, a tick, a lock or a move still pending the next draw synchronises, whatever moves came before, unless the last redraw showed a sticky lock |
| Schedule.TickHeals | main.c:100-105 | after a tick the next draw synchronises, however many moves were drawn too early, unless the last redraw showed a sticky lock |
| Schedule.OneMoveBehind | impl_stm32.c:285-294 | the piece on the panel is at most one iteration's move behind the framebuffer, and that at most one behind the game |
| Schedule.PanelShowsAFrame | main.c:42-52 | after a draw the panel shows a frame of the game with the piece at most one move behind, unless the last redraw showed a sticky lock or no frame |
| Schedule.RanPlays | main.c:91-127 | the device plays the game of the schedule's inputs, wherever the draws are |
| Schedule.FrequentDrawsLoseNothing | display.c:50-56 | with at most five iterations between two draining draws no rectangle is lost |
| Schedule.TwoDrawsDrain | main.c:24-35 | two draws in a row leave nothing pending |
| Schedule.EachIterationIsOneSchedule | main.c:91-142 | one draw after each iteration is one of the schedules |
| Firmware.Console.constructor | main.c:74-90 | the device is in the power-up state |
| Firmware.Console.ButtonsDoAction | buttons.h:15-39 | the piece after the guarded moves, and whether any of them acted |
| Firmware.Console.UpdateBlock | tetris.c:102-115 | pushes the rectangle of the piece's columns |
| Firmware.Console.Buttons | impl_stm32.c:285-294 | the part of an iteration before the sleep: buttons, and one rectangle exactly when one acted |
| Firmware.Console.Fall | main.c:94-106 | floor test, clearing, tick and collision test |
| Firmware.Console.Lock | main.c:107-120 | lock, respawn, scan, redraw flag |
| Firmware.Console.Render | main.c:122-127 | adds exactly the frame of the game and pushes the score rectangle |
| Firmware.Console.Body | main.c:94-127 | the part after the sleep is the abstract step without buttons, and it leaves the grid exactly when the buttons overshot |
| Firmware.Console.Advance | main.c:91-127 | one iteration is one abstract step, and it leaves the grid exactly on the overshooting input |
| Firmware.Console.Video | main.c:42-52 | a draw is the abstract draw |
| Firmware.Console.Iteration | main.c:91-142 | iteration and draw together |
| Firmware.Console.Occur | main.c:42-143 | each event of a schedule does to the device what it does to the abstract one |
| Firmware.DrawEachIteration | main.c:66-143 | any number of iterations from power-up, each followed by one draw, reach the abstract state of the run; trusted calm runs end with the panel in sync |
| Firmware.RunBoard | main.c:42-143 | any schedule of buttons, bodies and draws from power-up reaches its abstract state, and fails exactly when its inputs leave the grid |
| Firmware.RunBoardAndDraw | main.c:42-143 | one more draw shows what the schedule says, pixel by pixel, and the framebuffer under the if-and-only-if of DrawSyncsExactly |
| Debounce.Button.ButtonCb | impl_stm32.c:215-227 | an accepted edge toggles the state and starts the blackout |
| Debounce.Button.VtCb | impl_stm32.c:229-237 | the expiry ends the blackout |
| Debounce.Invariant | impl_stm32.c:204-237 | in every trace exactly one of enabled and armed; the state is the parity of accepted edges |
| Debounce.FollowsExactly | impl_stm32.c:204-237 | state equals line if and only if an even number of edges was swallowed, or an odd number if the line was high at power-up |
| Debounce.EvenBlackoutsFollow | impl_stm32.c:204-237 | even blackouts keep state and line equal whenever events are enabled, and opposite if the line was high at power-up |
| Debounce.BounceInverts | impl_stm32.c:215-237 | one swallowed edge leaves the button inverted |
| Traces.SomeRunFaults | buttons.h:29-33 | a run from power-up that leaves the grid |
| Traces.ShoveLeft | buttons.h:20-23 | from wherever a run has brought the piece, every smaller column is reachable if the way is free |
| Traces.SomeRunComesBack | buttons.h:20-28 | a run from power-up to the last column and back to any other |
| Traces.SomeRunHasAGap | main.c:94-117 | a run from power-up with a gap in the stack |
| Traces.SomeRunLeavesAFullRow | main.c:112-117 | a run from power-up after which a full row stays on the grid |
| HiddenTrace.SomeHiddenColumnScores | tetris.c:73-79 | a run from power-up that completes a row with the hidden column set, and scores |
| TowerTrace.SomeRunBreaksTheBooks | tetris.c:67-71 | a run from power-up with clean locks only, after which cells + 30 * score exceeds 4 * pieces |
| PanelTraces.IdleRunsAreTrusted | main.c:91-142 | the hypotheses of the panel theorems hold for idle runs of any length, long after the last redraw |
| PanelTraces.SomeCalmRunIsStale | main.c:94-98 | a calm run from power-up after which panel and framebuffer differ |
| PanelTraces.SomeScheduleIsStale | main.c:42-52 | a schedule that draws only between iterations, loses nothing and leaves the panel stale after a steered floor lock |
| PanelTraces.SomePressLagsBehind | impl_stm32.c:285-294 | a button press drawn during the sleep, after which the panel keeps the old piece |
| PanelTraces.SomePressIsHealed | main.c:100-105 | the next tick after that brings the panel up to date |
| PanelTraces.SomeScheduleLosesARectangle | display.c:50-56 | a schedule whose next push is dropped |

## Left out

- ChibiOS and its configuration, SPI, GPIO, panel power-up, SDL and curses: foreign code and I/O.
- Clocks: `millis` and delays; the tick is an input.
- Preemption inside one of the two parts of an iteration or inside a draw: pushes are not under the mutex, and the
  scheduler is not part of this model. Draws at the loop's own sleeps are modelled.
- Schedule.FrequentDrawsLoseNothing: five iterations is a sufficient bound; iterations without buttons or ticks push less.
- `block_rotl`, `abs`, `bound`, `vbuf_reset_bit`, `get_button_state`, the LED thread: unused or trivial.
- impl_sitl.c repaints the whole window whatever the rectangle, so its rendering adds nothing to `Drawn`.
- Reads of row 30 by the collision test return whatever follows the array in memory; the model takes an empty row.
- 32-bit overflow of `score`.
- World.CalmRunsLoseNothing: four redraws in a row is a sufficient bound; a longer burst with fewer pushes may also fit.
- Firmware.DrawEachIteration: no build links the loop's own `draw` with the rectangle driver; it describes their
  combination, and `Firmware.RunBoard` the build that exists.
