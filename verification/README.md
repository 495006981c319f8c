# Minesweeper game state, modelled in Dafny

This project models the game-state logic of the `Minesweeper` class in
`hao.py`, a tkinter Minesweeper, with every widget call removed. What is
left is three sets of `(row, col)` cells — `mines`, `revealed` and `flags` —
and the `first_click` boolean. Five operations update them:

- **deferred mine placement** (`place_mines`): on the first left click,
  random cells are drawn until `MINES` distinct cells other than the clicked
  one hold a mine;
- **adjacent-mine counting** (`count_mines`): the mines in the 3x3 block
  around a cell, the cell itself included;
- **flood-fill reveal** (`reveal`): a hidden cell is revealed and, if its
  count is 0, every in-bounds cell of its block is revealed in turn,
  recursively;
- **left click** (`left_click`): placement on the first click, then the flag
  guard, a mine hit ending the game as lost, the reveal, and the win test;
- **right click** (`right_click`): toggles the flag on a hidden cell.

`ROWS`, `COLS` and `MINES` (9, 9 and 10 in the source) are a `Config`
parameter. `Config.Valid()` asks for `0 < MINES < ROWS * COLS`, the bound
under which placement can finish.

Files, one module each:

- `board.dfy` (`Board`): cells, the configuration, the board's cell set and
  its size, and the 3x3 block in the source's loop order.
- `counting.dfy` (`Counting`): `count_mines`.
- `placement.dfy` (`Placement`): `place_mines`.
- `flood.dfy` (`Flood`): `reveal`, and the closure and minimality of the flood fill.
- `game.dfy` (`Game`): the state record, both click handlers and the state
  invariant they keep.

Modelling choices:

- The random draws of `place_mines` become a nondeterministic choice. Each
  loop turn picks one in-bounds cell that is neither the safe cell nor
  already a mine. A rejected draw leaves the source's set unchanged, so
  leaving rejected draws out does not change the set the loop ends with.
  With rejected draws left out, the loop terminates after exactly `MINES`
  turns.
- `LeftClick` is a pure function, so the random placement is passed in as a
  parameter. On the first click it must be a `ValidPlacement` for the clicked
  cell. `PlaceMines` shows that such a placement always exists.
- `game_over(win)` becomes the `Outcome` value `GameOver(win)`. It marks the
  game as won or lost and does nothing else: the source has no game-over
  guard, so later clicks still act on the state.
- The source reads `self.buttons[(r, c)]` before doing anything else in
  `right_click` (hao.py:109), and again in `reveal` (hao.py:130). For a
  coordinate off the board that lookup raises `KeyError`. The model therefore
  *requires* in-bounds coordinates; it has no error result for them.
- The flood fill visits the block in the order of the source's nested loops
  and keeps the source's bounds test (hao.py:142). The cell itself is part of
  the block, and revisiting it does nothing.

Behaviour that differs from the usual Minesweeper rules, kept as the code
has it:

- The cascade does not skip flagged cells, so a flagged cell can be revealed
  and still keep its flag. `revealed` and `flags` are therefore not kept
  disjoint. `Game.CascadeRevealsFlaggedCell` shows this on a 1x3 board.
- Nothing stops clicks after a win or a loss. There is no phase guard.
- On the first click, mines are placed before the flag check. A flagged
  first click therefore places the mines, clears `first_click`, and reveals
  nothing.
- An out-of-bounds coordinate makes the source raise `KeyError` (see above).
  `ROWS`, `COLS` and `MINES` are constants, and the code never checks them.

## Model

| member | source | states |
|---|---|---|
| Board.AllCells | hao.py:56-57 | The board's cells are exactly the in-bounds `(r, c)`, and there are `ROWS * COLS` of them |
| Board.DefaultIsValid | hao.py:13-15 | Sanity fact about the shipped constants: the 9x9 board with 10 mines satisfies `0 < MINES < ROWS * COLS` and has 81 cells |
| Board.BlockCells | hao.py:140-141 | The cells the nested loops visit are 9 distinct cells, with the centre among them, and they are exactly the cells within one step of the centre in each direction |
| Counting.CountIn | hao.py:149-154 | The counter loop returns at most the number of cells visited; it returns 0 iff no visited cell is a mine, and the full number iff every visited cell is |
| Counting.CountInIsCardinality | hao.py:149-154 | Counting over distinct cells gives the number of distinct mines among them |
| Counting.CountMines | hao.py:148-154 | `count_mines` is at most 9, at most 8 for a cell that is not a mine, and 0 iff no cell within one step is a mine |
| Counting.CountMinesIsNearMines | hao.py:148-154 | `count_mines(r, c)` equals the number of mine coordinates in the 3x3 block centred on `(r, c)` |
| Placement.FreeCellExists | hao.py:74-78 | While fewer than `MINES` mines are placed, a board cell other than the safe cell is still free, so the draw loop can make progress |
| Placement.PlaceMines | hao.py:73-78 | After placement there are exactly `MINES` mines, all on the board, and none on the first-clicked cell; the loop terminates |
| Flood.HiddenShrinks | hao.py:125-129 | Revealing cells never increases the number of hidden in-bounds cells, which is the measure the recursion decreases |
| Flood.Reveal | hao.py:125-143 | `reveal` only adds cells, and adds only in-bounds cells. It always leaves the clicked cell revealed. An already revealed cell changes nothing. A cell with a non-zero count is revealed alone. Every zero-count cell it reveals has its whole in-bounds block revealed. From a non-mine cell it reveals no mine. Each new cell is the clicked one or lies next to a zero-count cell it revealed |
| Flood.RevealLeast | hao.py:125-143 | Minimality: `reveal` adds nothing outside any set that contains the clicked cell and the cells already revealed, and that holds the in-bounds block of each of its zero-count cells that was not already revealed. Together with `Reveal`'s closure clause, this makes the result the least such set |
| Flood.BlockLeast | hao.py:140-143 | The cascade loop stays inside such a set when every in-bounds cell it walks lies in it |
| Flood.CutOffRegionStaysHidden | hao.py:136-143 | On a 1x7 board with a mine at `(0, 3)`, the fill from `(0, 0)` reveals exactly `(0, 0)`, `(0, 1)` and `(0, 2)`. The zero region beyond the mine stays hidden |
| Flood.RevealBlock | hao.py:140-143 | The cascade loop reveals every in-bounds cell of the block it walks. It keeps the same closure, no-mine and spreading guarantees for the cells it adds |
| Flood.RevealKeepsClosed | hao.py:134-143 | Flood-fill closure: if every revealed zero-count cell had its in-bounds block revealed before a reveal, the same holds after it |
| Flood.ClosedRevealsNeighbours | hao.py:138-143 | In a closed revealed set, a revealed cell with count 0 has every in-bounds cell within one step revealed |
| Flood.RevealTwice | hao.py:125-127 | Revealing the same cell twice gives the same revealed set as revealing it once |
| Game.LeftClick | hao.py:83-103 | The first click installs the placement, clears `first_click` and never lands on a mine. Later clicks keep the mines. Flags are untouched and `revealed` only grows. A flagged cell leaves `revealed` unchanged and the game continues; on the first click the placement still happens. A mine ends the game as lost without being revealed. Any other cell is revealed by the flood fill without adding mines, and the game is won iff `len(revealed) == ROWS * COLS - MINES` |
| Game.RightClick | hao.py:108-120 | A revealed cell is left alone. Otherwise the flag on the cell is toggled and nothing else changes |
| Game.RightClickTwice | hao.py:114-120 | Two right clicks on the same cell restore the state |
| Game.InitialInv | hao.py:27-39 | The freshly constructed game satisfies the state invariant |
| Game.RightClickKeepsInv | hao.py:108-120 | Right clicks keep the state invariant |
| Game.LeftClickKeepsInv | hao.py:83-103 | Left clicks keep the state invariant. The invariant says: `MINES` in-bounds mines once placed, in-bounds revealed cells and flags, no revealed mine, and the flood-fill closure |
| Game.MinesFixedAfterFirstClick | hao.py:85-88 | Once `first_click` is false, no click changes the mine set or sets `first_click` again |
| Game.LossRevealsNoMine | hao.py:94-97 | A click that ends the game as lost hit a mine and did not reveal it |
| Game.WinMeansAllSafeRevealed | hao.py:101-103 | In a reachable state, `len(revealed) == ROWS * COLS - MINES` holds iff every non-mine cell is revealed; flags play no part |
| Game.WinIffClickRevealsLastSafeCell | hao.py:99-103 | A left click ends the game as won iff it hit an unflagged non-mine cell and afterwards every non-mine cell is revealed |
| Game.CascadeRevealsFlaggedCell | hao.py:138-143 | The cascade reveals a flagged cell and leaves its flag in place: on a 1x3 board with a mine at `(0, 2)` and a flag at `(0, 1)`, clicking `(0, 0)` reveals `(0, 1)` and wins |
| Game.CascadeScenarioReveal | hao.py:136-143 | In that scenario the flood fill from `(0, 0)` reveals exactly `(0, 0)` and `(0, 1)` |
| Game.CascadeScenarioCounts | hao.py:148-154 | In that scenario `(0, 0)` counts 0 mines and `(0, 1)` counts 1 |

## Left out

- The tkinter widgets are left out because they are presentation only. This covers the window, the info label, `create_buttons`, every `btn.config`, the mine display in `game_over`, and the restart button.
- The timer (`start_timer`, `update_timer`) is left out. It depends on wall-clock `time.time()`, float arithmetic and `root.after` scheduling.
- `restart` and `main` are left out because they are window lifecycle: `restart` destroys the window and calls `main`, which opens a new window with a fresh game in the same process and runs a nested `mainloop` (hao.py:191-193, hao.py:198-201).
- `random.randint` is left out. Placement is any set that satisfies the placement postcondition, not a particular random sequence.
- Placement.PlaceMines: each loop turn draws only cells that change the set. The source's rejected draws (the safe cell, or a cell that already holds a mine) are left out, because they leave the set unchanged. The source loop therefore terminates only with probability 1, while the model's loop terminates after exactly `MINES` turns.
- Out-of-bounds coordinates are a precondition. The source raises `KeyError` on them from its button dictionary (hao.py:109, hao.py:130). An off-board `left_click` changes state. On the first click it runs `place_mines`, clears `first_click` and starts the timer (hao.py:85-88). If the off-board cell is not yet in `revealed`, `reveal` adds it (hao.py:129) and only then does the lookup at hao.py:130 raise `KeyError`. tkinter keeps its main loop running after a callback raises, so the added cell stays. A repeated off-board click on the same cell returns at hao.py:126-127 and raises nothing; the win test at hao.py:102 then runs with the off-board cell counted in `len(revealed)`, so the source can report a win while a safe cell is still hidden. No caller passes such a coordinate, because the buttons and the cascade only produce in-bounds cells (hao.py:63, hao.py:142).
- Flood.Reveal: always completes, while the source's `reveal` is recursive and Python's default recursion limit is 1000 frames. On a board where one cascade nests more than about 1000 calls, the source raises `RecursionError` part-way through. That leaves `revealed` not closed and skips the win test at hao.py:102. One cascade nests at most one `reveal` call per newly revealed cell, on top of a few frames for the tkinter callback and `left_click`. The shipped 9x9 board (at most 81 nested calls) and boards well under 1000 cells stay below that limit.
