# Automaton: a Dafny model of the board logic of a cellular-automaton toy

The program (`main.c`) keeps a 200 x 200 board of colour indices in one flat,
row-major buffer `g_board`. It displays the board as 4 x 4 pixel squares in an
eight-colour palette and runs one event loop. That loop does five things:

- it re-randomises the board on Backspace;
- it toggles processing on Return;
- it raises or lowers a "temperature" in `[0, 8]` on keypad plus and minus;
- it paints a zero-coloured square under the pointer while a button is held, with a brush
  size that the wheel changes;
- on every timer tick, while processing, it replaces the board by a new one where every
  cell looks at one random neighbour and steps one colour forward when that neighbour's
  colour lies within "temperature" steps ahead of its own.

The model has five modules.

- **Grid** (`Grid.dfy`) holds the constants, the `Uint8` cell type and the row-major offset
  `y * w + x` of `brd_get`/`brd_set`, with its arithmetic facts.
- **Rules** (`Rules.dfy`) holds the specification functions on `seq<Uint8>`:
  - `Randomised` is what `brd_randomise` writes;
  - `Painted` is what `brd_paint` leaves;
  - `FirstValid` is the neighbour the rejection loop settles on;
  - `NextColour` is the temperature rule;
  - `Advanced` is the board `brd_process` builds.

  Rules also holds the lemmas about these functions.
- **Boards** (`Boards.dfy`) is the imperative part: a `Board` class over an `array<Uint8>`,
  with `Get`, `Set`, `Randomise`, `Paint`, `Process` and `Draw`. Each is written with the
  loops of the C code and proved against the functions in Rules. `Process` builds a fresh
  array and swaps it in, as the C code does with `calloc` and the pointer swap.
- **Events** (`Events.dfy`) holds the loop state as a value (`State`), the switch as a step
  function (`Dispatch`, `Step`), runs of events (`RunAll`), and the lemmas about flags,
  parameter bounds and Quit.
- **MainLoop** (`MainLoop.dfy`) is a class `Automaton` holding the board, `g_temperature`
  and main's locals. It has one method per pass of the loop, proved to agree with `Step`,
  and the loop itself, proved to agree with `RunAll`.

The board dimensions are parameters `w, h >= 2`. The program's own constants are 200 and
200, and `MainLoop.Automaton` uses them.

`rand()` is replaced by values supplied from outside:

- `brd_randomise` receives one roll per cell, and cell `y * w + x` takes roll `y * w + x`
  mod 8.
- `brd_process` receives, for each cell, the stream of `(rand(), rand())` pairs its retry
  loop would consume. `FirstValid` returns `None` when no pair of the stream is accepted.
- Processing a board requires every cell's stream to reach an accepted pair (`Drawable`).
  `Rules.NeighbourAvailable` shows that such a pair exists for every cell of a board of at
  least 2 x 2.

Events carry the dice (`Dice`) they need. `Adequate` requires rolls only for Backspace and
accepted streams only for a tick.

Behaviour of the code that the model keeps as written:

- **Radius 0 paints nothing.** The square is half-open, `[x - r, x + r) x [y - r, y + r)`,
  so `brd_paint(x, y, 0)` gives `xmin == xmax` and leaves the board unchanged; it does not
  paint a single cell (`Rules.PaintNoRadius`).
- **The brush size is not clamped.** The wheel guard tests only the sign of the delta, so a
  delta larger than one notch can take the brush size past 0 or 100. The model proves the
  bound only for unit deltas (`Events.RunKeepsBrush`) and exhibits the overshoot
  (`Events.BrushOvershoot`).
- **The neighbour retry loop is kept exactly.** Each retry draws the two offsets as
  `rand() % 3 - 1`, u before v, and retries on the cell itself or off the board
  (`Boards.PickNeighbour`, `Rules.FirstValid`). The model is not probabilistic and states
  nothing about the distribution of the chosen neighbour.
- **`COLOUR_COUNT` is the constant 8.** A small two-colour situation is therefore stated in
  the program's eight colours: at temperature 1 a cell of colour 0 next to colour 0 or 1
  takes that colour (`Rules.TwoColourScenario`).

## Model

| member | source | states |
|---|---|---|
| Grid.IdxInBounds | main.c:31-32 | the offset `y * BOARD_WIDTH + x` of an on-board cell lies inside the `w * h` buffer |
| Grid.IdxCoords | main.c:31-32 | the offset determines the cell: offset mod w is x and offset div w is y |
| Grid.Idx | main.c:31-32 | the row-major offset `y * w + x`; it has no contract of its own, and its properties are stated by Grid.IdxInBounds, Grid.IdxCoords and Grid.CoordsInBounds |
| Grid.CoordsInBounds | main.c:31-32 | every buffer offset i is the offset of the on-board cell (i mod w, i div w); that no other cell has it follows from Grid.IdxCoords |
| Grid.RowSpan | main.c:207-210 | the offsets from v * w + a up to v * w + b are exactly the cells (u, v) of row v with a <= u < b |
| Rules.Randomised | main.c:193-199 | the board brd_randomise writes has one cell per roll and every cell is a palette index |
| Rules.Painted | main.c:201-212 | painting keeps the board's length and writes only 0: every cell is 0 or its old colour (which cells are 0 is Rules.PaintedAt) |
| Rules.PaintedAt | main.c:201-212 | after painting, an on-board cell is 0 if it lies in the square `[x-r, x+r) x [y-r, y+r)` and unchanged otherwise |
| Rules.PaintedByClip | main.c:202-211 | zeroing the rectangle bounded by the four clipping ternaries is painting the square |
| Rules.PaintKeepsRange | main.c:209 | painting keeps every cell a palette index |
| Rules.PaintNoRadius | main.c:202-208 | a radius of 0 or less leaves the board unchanged |
| Rules.PaintIdempotent | main.c:201-212 | painting the same square twice equals painting it once |
| Rules.PaintCentre | main.c:202-211 | with a positive radius the centre cell becomes 0 and the cell radius columns to its right keeps its colour |
| Rules.FirstValid | main.c:225-234 | a neighbour the retry loop settles on is one of the eight cells around (x, y), inside the board |
| Rules.FirstValidIsFirst | main.c:227-234 | the loop settles on the first accepted pair of its stream, and finds none exactly when no pair is accepted |
| Rules.NeighbourAvailable | main.c:227-234 | on a board of at least 2 x 2 every cell has a pair of draws the loop accepts |
| Rules.NextColour | main.c:236-240 | the temperature rule keeps the colour or moves it one step, and keeps a palette index a palette index |
| Rules.NextColourOneStep | main.c:236-240 | the colour moves one step exactly when the neighbour's colour is among the temp colours ahead, and stays exactly when it is not |
| Rules.HotColoursFull | main.c:237-239 | at temperature 8 or more every colour is among those ahead, the cell's own included |
| Rules.HotColoursCold | main.c:237 | at temperature 0 or less no colour is among those ahead |
| Rules.Neighbour | main.c:225-234 | the neighbour chosen for an on-board cell of a board whose streams all succeed is an adjacent on-board cell |
| Rules.NewCell | main.c:220-242 | the new colour of cell (x, y); it has no contract of its own, and Rules.AdvancedAt and Rules.AdvanceOneStep state what it is |
| Rules.Advanced | main.c:214-249 | the new board has the old board's length (its cells are given by Rules.AdvancedAt and Rules.AdvanceOneStep) |
| Rules.AdvancedAt | main.c:217-242 | cell (x, y) of the new board is the rule applied to the old colours of (x, y) and of its neighbour |
| Rules.AdvanceKeepsRange | main.c:236-242 | processing keeps every cell a palette index |
| Rules.AdvanceOneStep | main.c:221-242 | each new cell is its old colour or the next one, and is the next one exactly when the neighbour's old colour is hot for it |
| Rules.AdvanceLocal | main.c:215-248 | a new cell depends only on the old board at the cell and at its neighbour, so the order of visits does not matter |
| Rules.AdvanceCold | main.c:236-239 | at temperature 0 processing returns the old board |
| Rules.AdvanceFullHeat | main.c:236-242 | at temperature 8 every cell moves one colour on whatever its neighbour |
| Rules.TwoColourScenario | main.c:236-240 | at temperature 1 a cell of colour 0 takes its neighbour's colour when that colour is 0 or 1 |
| Boards.PickNeighbour | main.c:225-234 | the retry loop ends on the neighbour FirstValid names, an adjacent on-board cell |
| Boards.Dominant | main.c:236-240 | the temperature loop leaves in dom exactly the colour NextColour names |
| Boards.Board.constructor | main.c:57-77 | the start-up board has the given size and holds Randomised of the rolls |
| Boards.Board.Get | main.c:32 | brd_get of an on-board cell of a valid board is a palette index, so the palette lookup is in bounds |
| Boards.Board.Set | main.c:31 | brd_set changes exactly the one cell at offset y * w + x |
| Boards.Board.Randomise | main.c:193-199 | the nested loops leave exactly Randomised of the rolls in the buffer |
| Boards.Board.Paint | main.c:201-212 | the clipped nested loops leave exactly Painted of the old board, and the board stays valid |
| Boards.Board.ClearSpan | main.c:208-210 | the inner loop zeroes the cells of row v between xmin and xmax and nothing else |
| Boards.Board.CellStep | main.c:220-242 | the loop body computes NewCell for (x, y) from the old board |
| Boards.Board.BuildRow | main.c:218-243 | the inner loop fills row y of the new buffer with the advanced row and leaves the rest |
| Boards.Board.BuildBoard | main.c:217-244 | the outer loop fills the whole new buffer with Advanced of the old board |
| Boards.Board.Process | main.c:214-249 | the board is replaced by a fresh buffer holding Advanced of the old board, and it stays valid |
| Boards.Board.Draw | main.c:145-167 | one PIXEL_SIZE square per cell, row by row, at (x * 4, y * 4) in the palette colour of the cell |
| Events.Warmer | main.c:100 | keypad plus adds 1 below 8 and otherwise changes nothing, so [0, 8] is kept |
| Events.Cooler | main.c:101 | keypad minus subtracts 1 above 0 and otherwise changes nothing, so [0, 8] is kept |
| Events.Scrolled | main.c:126-131 | the wheel adds the delta whole or not at all, and unit deltas keep the brush in [0, 100] |
| Events.BrushOvershoot | main.c:128-130 | deltas of 5 at 99 and of -3 at 1 take the brush to 104 and to -2 |
| Events.CellOf | main.c:109-120 | C's truncating division by PIXEL_SIZE: for a pixel p >= 0 the cell c has c * 4 <= p < (c + 1) * 4, mirrored for p < 0 |
| Events.Initial | main.c:76-84 | the start-up state has one palette cell per roll, is running with a redraw pending, is paused with the button up, and has temperature and brush within their bounds |
| Events.Dispatch | main.c:90-139 | the switch keeps the board's length (its flag and board rules are Events.DispatchFlags and Events.DispatchBoard) |
| Events.Step | main.c:89-172 | one pass of the loop keeps the board of size w * h |
| Events.Drew | main.c:141-171 | whether a pass ends with a frame drawn; it has no contract of its own, and Events.DrewRules states when it holds |
| Events.DrewRules | main.c:90-171 | Quit never draws; key releases and presses always draw; a tick draws exactly while processing or with a redraw pending, a motion exactly while the button is held or with a redraw pending, and the other events only with a redraw pending |
| Events.DispatchFlags | main.c:91-137 | Return toggles processing; key releases set redraw; press sets and release clears mouse_held; motion without a held button and a tick while paused change nothing; Quit only clears isRunning |
| Events.DispatchBoard | main.c:95-138 | only Backspace, a press, a held-button motion and a tick while processing change the board |
| Events.InitialInv | main.c:76-84 | the start-up state has palette cells, temperature 2 in [0, 8] and brush 0 in [0, 100] |
| Events.StepKeepsInv | main.c:90-171 | one pass of the loop keeps palette cells and a temperature in [0, 8] |
| Events.KeyKeepsInv | main.c:95-106 | a key release keeps palette cells and the temperature in [0, 8] |
| Events.PaintStepKeepsInv | main.c:108-124 | a press or a motion keeps palette cells and the temperature |
| Events.TickKeepsInv | main.c:133-137 | a tick keeps palette cells and the temperature |
| Events.RunAll | main.c:86-174 | the loop leaves a stopped state as it is and keeps the board size |
| Events.RunKeepsInv | main.c:86-174 | from the invariant, any sequence of events keeps the temperature in [0, 8] and the cells in the palette |
| Events.RunKeepsBrush | main.c:126-131 | with unit wheel deltas the brush size stays in [0, 100] over any sequence of events |
| Events.QuitStopsRun | main.c:91-93 | a Quit anywhere in the sequence leaves the loop stopped |
| Events.QuitIgnoresRest | main.c:86-93 | the events after a Quit are never handled |
| MainLoop.Automaton.constructor | main.c:76-84 | start-up state: randomised 200 x 200 board, temperature 2, brush 0, running, redraw pending, paused, button up |
| MainLoop.Automaton.HandleEvent | main.c:89-172 | one pass of the loop: the new state is Step of the old, a frame is drawn exactly when Drew says so, and it depicts the new board |
| MainLoop.Automaton.Switch | main.c:90-139 | the switch's updates are exactly Dispatch |
| MainLoop.Automaton.KeyReleased | main.c:95-106 | the SDL_KEYUP case's updates are exactly Dispatch on that key |
| MainLoop.Automaton.Run | main.c:86-174 | the loop over the delivered events ends in RunAll of the start state |

## Left out

- SDL initialisation and the creation of the window, renderer and timer are not modelled. Neither are their teardown and `err_msg` with its process exit. These are foreign-library plumbing and I/O.
- `cls`, `SDL_SetRenderDrawColor`, `SDL_RenderFillRect` and `SDL_RenderPresent` are left out. `Boards.Board.Draw` returns the filled squares it would request.
- The `PIXEL_SIZE == 1` branch that draws points is not modelled, because `PIXEL_SIZE` is 4.
- `draw_text` is not modelled. It is declared but never defined or used.
- `timer_callback` and `SDL_PushEvent` are left out. These inject events from the timer thread. A tick is the `TimerTick` event.
- `fflush(stdout)` is left out.
- `SDL_WaitEvent` is not modelled. Events arrive as a sequence, and its failure return, which skips a pass, is left out. `MainLoop.Automaton.Run` also ends when the sequence runs out.
- `malloc`, `calloc` and `free` are modelled as allocating a fresh array and dropping the old one. The zero fill of `calloc` is not modelled, because every cell is overwritten.
- `rand` and `srand` are modelled as supplied values. The order in which the single `rand()` stream would be split into per-cell rolls and per-cell pairs is not modelled. Each cell's pairs are given as a separate stream.
- The termination of the neighbour retry loop is not proved. It is only probabilistic, so `Boards.Board.Process` requires every cell's stream to reach an accepted pair. `Rules.NeighbourAvailable` shows that one exists.
- C `int` overflow is not modelled. Integers are unbounded, so the model does not capture wrap-around of `x + radius` or of a brush size driven past `INT_MAX` by wheel deltas.
- Events.Scrolled: the brush bound holds only for unit deltas. This follows the code's guard, which tests only the sign of the delta.
- Mouse events are reduced to their pixel position. The model does not capture the code reading `motion.x` from a button event; that field has the same offset as the button event's `x`.
- `SDL_USEREVENT` events are all treated as timer ticks, because the timer is their only source.
