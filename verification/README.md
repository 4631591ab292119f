# Battleship game state in Dafny

This project models the game-state core of `Battleship.py`, a single-player Battleship practice game. The board is a `BOARD_SIZE`×`BOARD_SIZE` grid of integer cell codes: 0 empty, 1 intact ship segment, 2 miss, 3 hit. The model covers four operations:

- `create_board` builds an all-empty board.
- `place_ships` places each ship by rejection sampling. It draws an anchor and an orientation, accepts the draw only if every cell of the run is on the board and empty, and then writes a ship into the run.
- The shot block of `main` marks the clicked cell. A ship cell becomes a hit; any other value becomes a miss. Only after a hit does it consult `check_win`.
- `check_win` reports whether no intact ship cell is left.

Layout:

- `grid.dfy`, module `GameBoard`: the board as a value `seq<seq<int>>`, the cell codes, cell counts and the win condition.
- `placement.dfy`, module `Placement`: placement as a function of the board and a sequence of draws (`PlaceRun` for one ship, `PlaceAll` for the whole list), with its properties.
- `shots.dfy`, module `Shots`: the shot as written, the win lemma and the finding below.
- `battleship.dfy`, module `Battleship`: the operations as methods on an `array2<int>` that they update in place. Each method's `ensures` ties the array (seen through the ghost function `Cells`) to the value model.

The random draws of `place_ships` are passed in as a sequence of `Attempt(row, col, horizontal)` values. Each draw lies on the board, as `random.randint(0, BOARD_SIZE - 1)` guarantees. `PlaceShips` consumes the draws in order and returns how many ships it placed. It places fewer than all the ships only when the draws run out.

In these points the model follows the code, and so does the game:

- A repeated shot rewrites the cell: 1 becomes 3, and anything else, including 3, becomes 2. There is no separate outcome for a cell that was already shot.
- `CreateBoard` takes the side as a parameter and accepts 0. The game fixes it at `BOARD_SIZE` = 7.
- A placed ship is not always a maximal run: two ships may lie end to end in one line. What is proved is that each placed ship's cells all hold a ship and that no two placed ships share a cell.

## Model

| member | source | states |
|---|---|---|
| GameBoard.EmptyGrid | Battleship.py:29-33 | the new board is square of side n and every cell is empty |
| GameBoard.EmptyGridFacts | Battleship.py:21-33 | a new board holds only legal codes and has zero ship cells |
| Battleship.CreateBoard | Battleship.py:21-33 | returns a fresh n×n array whose contents equal the all-empty board |
| Placement.PlaceRun | Battleship.py:81-87 | writing a run sets exactly the run's cells to ship and leaves every other cell unchanged |
| Battleship.IsValidPlacement | Battleship.py:69-79 | the scan with early break returns true iff every cell of the run is in bounds and empty |
| Battleship.PlaceOne | Battleship.py:81-87 | the cell-by-cell write loop leaves the board equal to PlaceRun of the old board |
| Placement.PlaceAll | Battleship.py:58-88 | placement keeps the board's shape, places at most one ship per size, and accepts only anchors that were drawn |
| Battleship.PlaceShips | Battleship.py:62-88 | the nested retry loops leave the board equal to PlaceAll of the old board and return the number of ships placed |
| Placement.PlaceRunCount | Battleship.py:83-87 | a valid placement adds exactly its length to the number of ship cells |
| Placement.PlaceAllOnlyFillsEmpty | Battleship.py:70-87 | placement never overwrites: across the whole placement each cell keeps its value or goes from empty to ship (that a rejected draw writes nothing is stated by `PlaceAll` passing the board through unchanged and by `IsValidPlacement` having no `modifies` clause) |
| Placement.PlaceAllCount | Battleship.py:62-88 | ship cells grow by exactly the sum of the sizes of the ships placed |
| Placement.PlaceAllShipsValid | Battleship.py:64-88 | every placed ship was in bounds and on empty cells of the starting board, and all its cells hold a ship afterwards |
| Placement.PlaceAllDisjoint | Battleship.py:69-87 | no two placed ships share a cell |
| Placement.PlaceAllKeepsCodes | Battleship.py:85-87 | placement keeps every cell within the codes 0..3 |
| Placement.NewBoardShipCells | Battleship.py:134-135 | on a new board the ship cells number the sum of the placed sizes, and the sum of all sizes once every ship is placed |
| Battleship.NewGame | Battleship.py:134-135 | creating and then populating a board gives PlaceAll of the empty board, with ship cells equal to the placed sizes' sum |
| Battleship.DefaultGameShipCells | Battleship.py:12-18 | with board size 7 and ships [5, 4, 3, 3, 2], a complete placement leaves 17 of the 49 cells holding a ship |
| GameBoard.NoShipLeftIffZeroCount | Battleship.py:113-121 | the win condition (no cell equals 1) holds iff the count of ship cells is zero |
| Battleship.CheckWin | Battleship.py:113-121 | the read-only scan with early return yields true iff no cell of the board is 1 |
| Shots.Shot | Battleship.py:150-157 | a shot sets the cell to 3 if it held 1 and to 2 otherwise, and changes no other cell |
| Shots.ShotCounts | Battleship.py:150-157 | a shot removes exactly one ship cell on a hit and none otherwise, and keeps codes in 0..3 |
| Shots.WinningShot | Battleship.py:150-155 | after a shot no ship is left iff none was left before, or the shot hit the last ship cell |
| Battleship.ResolveShot | Battleship.py:150-157 | marks the cell as Shot does and reports the hit; the win check runs only after a hit, so the game is won iff the shot hit the last ship cell |
| Shots.ShotLegalUnlessHit | Battleship.py:156-157 | as written, a shot moves cells only from empty to miss or from ship to hit iff its cell was not already a hit |
| Shots.ReshotHitBecomesMiss | Battleship.py:156-157 | shooting a hit cell again turns it into a miss and lowers the hit count by one |
| Shots.ResolvedShot | Battleship.py:150-157 | the corrected shot only ever moves a cell from empty to miss or from ship to hit |
| Shots.ResolvedShotFacts | Battleship.py:150-157 | the corrected shot agrees with the written one on unshot cells, is idempotent, and removes one ship cell exactly on a hit |

## Findings

| source | as written | input that shows it | evidently intended | confidence | as-written member | corrected member |
|---|---|---|---|---|---|---|
| Battleship.py:150-157 | the `else` branch writes 2 into every cell that is not 1, including a cell already marked 3 | a second click on a cell that an earlier shot turned into a hit (code 3): it becomes a miss (code 2) and is drawn red instead of green | a cell that was already shot keeps its mark | medium, not executed | Shots.ShotLegalUnlessHit | Shots.ResolvedShot |

The win outcome is the same for both versions (`Shots.ResolvedShotFacts` shows that they remove ship cells identically). `Battleship.ResolveShot` keeps the behaviour as written because it models the game loop of `main`. The corrected shot is modelled beside it.

## Left out

- `draw_board`, `get_player_move`, and the pygame set-up and event loop of `main` (Battleship.py:36-55, 91-110, 124-170) are rendering, mouse polling and calls into a library that is not part of this model.
- `random.randint` (Battleship.py:65-67) is replaced by a caller-supplied sequence of draws. No distribution is modelled.
- Battleship.PlaceShips: the retry loop of `place_ships` never ends when the ships cannot fit. The model instead stops when the supplied draws run out and reports how many ships it placed. Termination and probability of placement are not claimed.
- Ship sizes are natural numbers. In the source a negative size would act as an empty range and place nothing.
- Battleship.ResolveShot requires in-range coordinates, because `get_player_move` only produces indices of board cells (Battleship.py:94-107).
- The `game_over` flag, the quit event and `print("You win!")` (Battleship.py:138-155) are not modelled beyond the fact that the win check is consulted only after a hit.
