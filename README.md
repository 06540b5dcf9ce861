# Minesweeper engine, modelled in Dafny

This project models the game engine of a browser Minesweeper: the engine in
`app/lib/minesweeper.ts` and the grid helpers in `app/lib/utils.ts` that it uses.

The game state (`MsGameState`) holds four things:

- a difficulty;
- a board of tiles, where each tile has a *type* (a mine, or a number 0..8) and a
  *state* (unflagged, flagged, revealed, flagged incorrectly or clicked mine);
- the number of flags left;
- a stage (start, playing, won or lost).

The reducer `msReducer` changes this state in place for four actions:

- **start**: the first click. Mines are laid from a shuffled array of placements,
  never in the 3x3 block around the click. Every other tile gets its mine count, and
  a flood fill reveals the clicked tile.
- **reveal tile**: a mine loses the game, and the board is swept to show all mines
  and bad flags. A 0 starts the flood fill. Any other number is revealed alone. After
  a safe reveal, the game is won when the unrevealed tiles are exactly as many as the
  mines.
- **toggle flag**: flags or unflags one tile and moves one flag to or from the
  counter.
- **new game**: replaces the whole state with a fresh game.

## Layout

- `utils.dfy` (module `Utils`) models the helpers:
  - `GetIndexedNeighbors` and `GetNeighbors` give the clipped 8-neighbourhood. The
    function `IndexedNeighbors` specifies it.
  - `ShuffledArray` is the in-place Fisher–Yates shuffle. The function `ShuffleDown`
    specifies it.
- `board.dfy` (module `Board`) holds the data model: tiles, boards, stages and the
  game state. It also holds the functions the contracts are stated in:
  - `Count`, which counts the tiles of a kind;
  - `AdjacentMines`, the number of mines around a cell;
  - `NumbersMatch` and `AllSafeRevealed`.
- `minesweeper.dfy` (module `Minesweeper`) holds the engine:
  - the pure `GetGameConfig` and `NewMsGame`;
  - the loops `NumAdjacentMines` and `NumUnrevealedTiles`;
  - the class `Game`, whose fields are the four parts of the game state. Its methods
    are the reducer, each action, `OnMineClicked` and `RevealEmptyTile`.

`ValidState` is the invariant that every state the reducer reaches keeps:

- the board has the difficulty's size;
- every flag on the board has been taken from `flagsLeft`;
- before "start", every tile is a 0 and unflagged or flagged;
- after "start", there are exactly `numMines` mines and every number matches its
  mines;
- while playing, no mine is revealed;
- a won game has every safe tile revealed.

Every reducer method keeps the invariant (`ensures Valid()`).

Notes on the model:

- The board component dispatches an action only in some situations, and those
  guards are the reducer's precondition (`Dispatchable`). It reveals and starts only
  on unflagged tiles, toggles flags only on tiles that are not revealed, and
  dispatches nothing but "new game" once the game is won or lost.
- `Math.random` in the shuffle becomes the parameter `picks`. `picks[i]` is the draw
  at step `i`, and any value in `0..i` is allowed (`ValidPicks`). Every property is
  proved for every choice of draws.
- Tile numbers are the subset type `Digit` (0..8). `NumAdjacentMines` proves that
  the count lies in that range, which the source only asserts with a cast.
- As in the source, "start" does not check for a win. A first flood fill that reveals
  every safe tile leaves the stage at "playing". The model keeps this behaviour:
  `StartOutcome`, which `HandleStart` ensures, states `stage == Playing`.

## Model

| member | source | states |
|---|---|---|
| Minesweeper.GetGameConfig | app/lib/minesweeper.ts:28-37 | Each difficulty's table entry has at least one mine and more than nine mine-free cells, so the 3x3 block around the first click can always stay clear. |
| Minesweeper.NewBoard | app/lib/minesweeper.ts:43-48 | The board has `height` rows of `width` tiles, and every tile is an unflagged 0. |
| Minesweeper.NewMsGame | app/lib/minesweeper.ts:39-52 | A fresh game has the given difficulty, a board of that difficulty's size made of unflagged 0s, every flag still available and stage "start". It satisfies the game invariant. |
| Minesweeper.Game.constructor | app/page.tsx:16-19 | The host builds its reducer state with `newMsGame(d)` (defined at app/lib/minesweeper.ts:39-52; the page passes "MEDIUM"). The initial state is exactly `NewMsGame(d)` and satisfies the invariant. |
| Minesweeper.Game.HandleNewGame | app/lib/minesweeper.ts:144-151 | "new game", from any stage, replaces difficulty, board, flags and stage with `newMsGame(d)`, and the invariant holds afterwards. |
| Minesweeper.Toggled | app/lib/minesweeper.ts:85-95 | A flagged tile becomes unflagged and the counter rises by one. Any other tile becomes flagged and the counter drops by one. The tile's type, every other tile, the difficulty and the stage are unchanged. |
| Minesweeper.ToggleTwice | app/lib/minesweeper.ts:85-95 | Toggling the same unflagged tile twice restores the whole state: the tile and the counter. |
| Minesweeper.ToggledValid | app/lib/minesweeper.ts:85-95 | Toggling a flag where the board component allows it keeps the game invariant, including the flag balance. |
| Minesweeper.ToggledBeforeStart | app/lib/minesweeper.ts:85-95 | Before "start", flagging a blank unflagged tile with the counter moved down by one, or unflagging a flagged one with the counter moved up by one, keeps the invariant, the flag balance included. |
| Minesweeper.Game.HandleToggleFlag | app/lib/minesweeper.ts:85-95 | The new state is exactly `Toggled` of the old one, and the invariant holds. |
| Minesweeper.Game.MsReducer | app/lib/minesweeper.ts:59-153 | For each dispatchable action the invariant is kept, and the result is that action's outcome as its handler states it. For "start" and for "reveal tile" on a 0, that outcome describes the flood fill only as far as `RevealEmptyTile` does (see "## Left out"). "new game" gives `NewMsGame`. "toggle flag" gives `Toggled`. "start" gives `StartOutcome`: the mines where the shuffled placements say, the safe zone revealed and the flood fill's effect. "reveal tile" gives `RevealOutcome`: the loss sweep on a mine; otherwise the fill or the single reveal, the flags handed back, and "won" exactly when every safe tile is revealed. |
| Minesweeper.Game.HandleStart | app/lib/minesweeper.ts:96-142 | After "start" (`StartOutcome`), the stage is "playing" and the difficulty is unchanged. A cell holds a mine exactly when the shuffled placement at its slot is true, so none lies within Chebyshev distance 1 of the click. The clicked tile is a revealed 0 and its whole 3x3 block is revealed. Every tile keeps its old state or, being safe, is revealed. The fill is closed around revealed 0s, and every tile it revealed is the click or next to a 0 it revealed. The flags it revealed come back. The invariant holds, so every number matches. |
| Minesweeper.Game.LayMines | app/lib/minesweeper.ts:99-138 | The two passes before the click (`Laid`) lay exactly `numMines` mines. A cell is a mine exactly when the placement at its slot in the shuffle of "first `numMines` true" is true, and none is near the click. Every non-mine tile gets its adjacency count, so the clicked tile is a 0. No tile state changes. |
| Minesweeper.MinePlacements | app/lib/minesweeper.ts:99-103 | The placement array has length w*h-9 and is the shuffle of "first `numMines` entries true". It holds exactly min(w*h-9, `numMines`) trues, for any draws. |
| Minesweeper.InitialPlacements | app/lib/minesweeper.ts:100-102 | The unshuffled array `i < numMines` of length n holds min(n, `numMines`) trues. |
| Minesweeper.Game.PlaceMines | app/lib/minesweeper.ts:105-125 | After the mine-placing loop (`LaidFrom`), a cell is a mine exactly when it lies outside the 3x3 block around the click and the placement at its slot is true. Its slot is the number of cells outside the block before it in row-major order, which is the `tilesVisited` the loop has when it reaches the cell. Nothing else changes, there are exactly `numMines` mines, and the labelled break is always reached. |
| Minesweeper.Game.VisitTile | app/lib/minesweeper.ts:110-123 | One step of the placing loop. A cell near the click is passed over, and the board and both counters stay. Any other cell reads `minePlacements[tilesVisited]` inside the array and advances `tilesVisited`. When that placement is true, exactly this tile becomes a mine and `minesPlaced` rises by one; otherwise the board stays. The loop invariants are kept, and when `minesPlaced` reaches `numMines` the board is exactly `LaidFrom`. |
| Minesweeper.Game.PlaceRow | app/lib/minesweeper.ts:109-124 | One row of the placing loop keeps both loop invariants into the next row. If it reaches `numMines` and breaks, the board is exactly `LaidFrom`, with `numMines` mines, all outside the block. |
| Minesweeper.SlotsVisit | app/lib/minesweeper.ts:118-120 | A visited cell outside the block reads the placement at its own slot, so the read placements stay tied to the visited cells. |
| Minesweeper.SlotMonotone | app/lib/minesweeper.ts:109-124 | Slots never decrease in row-major order, so cells after the loop's stopping point lie at or after every placement read. |
| Minesweeper.SlotsFinished | app/lib/minesweeper.ts:118-125 | Once every true placement is read, cells after the stopping point get no mine, and the whole board is `LaidFrom`. |
| Minesweeper.LaidMines | app/lib/minesweeper.ts:109-138 | The numbering pass keeps mines in place, so after both passes a cell is a mine exactly when the placement at its slot is true. |
| Minesweeper.Exhausted | app/lib/minesweeper.ts:106-125 | There are w*h-9 placements and at most nine skipped cells, so once every cell has been visited every placement has been read and all `numMines` mines are down. |
| Minesweeper.PlacementsLeft | app/lib/minesweeper.ts:118 | While fewer than `numMines` mines are laid, `minePlacements[tilesVisited++]` reads inside the array. |
| Minesweeper.NearCountAtMostThree | app/lib/minesweeper.ts:112-116 | At most three rows (and three columns) lie within distance 1 of the click, so at most nine cells are skipped. |
| Minesweeper.Game.FillNumbers | app/lib/minesweeper.ts:127-138 | After the numbering pass, every non-mine tile's type is the number of mines among its in-bounds neighbours. Mines and tile states are unchanged. |
| Minesweeper.LaidFacts | app/lib/minesweeper.ts:109-138 | After both passes the mine count is the placing loop's count, no mine lies near the click, and the clicked tile is a 0, as the comment says the skip is meant to guarantee. |
| Board.NoMinesAroundZero | app/lib/minesweeper.ts:111-116 | A cell with no mine in its 3x3 block has adjacency count 0. |
| Minesweeper.StartFill | app/lib/minesweeper.ts:140-141 | The flood fill's facts, stated against the board it ran on, carry over to the board before "start", whose tile states the passes kept. Each tile keeps its state or is revealed and safe; the fill is closed and only 0s spread it; and the click's whole 3x3 block is revealed. |
| Minesweeper.StartDone | app/lib/minesweeper.ts:96-142 | The two passes and the fill together give a valid state and the full `StartOutcome`. |
| Minesweeper.StartedValid | app/lib/minesweeper.ts:96-138 | Laying mines and numbers on a valid "start" board, with no tile state changed, gives a valid "playing" state. |
| Minesweeper.StartFinished | app/lib/minesweeper.ts:96-142 | The whole "start" action (both passes, then the flood fill) ends in a valid state. The safe zone holds and the mine tiles keep their states. |
| Minesweeper.NumAdjacentMines | app/lib/minesweeper.ts:181-191 | The loop's count is the number of mines among the in-bounds 8-neighbours, so it lies in 0..8. |
| Minesweeper.CountMines | app/lib/minesweeper.ts:182-188 | The loop over a list of tiles counts exactly its mines. |
| Board.MinesAmongNeighbors | app/lib/minesweeper.ts:184 | The mines among `getNeighbors(board, r, c)` number exactly the cell's adjacency count. |
| Minesweeper.Game.OnMineClicked | app/lib/minesweeper.ts:155-179 | Stage is "lost" and flags and difficulty are unchanged. Every other tile is swept: an unflagged mine is revealed, a flagged non-mine is flagged incorrectly, and everything else (flagged mines included) stays. The clicked tile is "clicked mine". No type changes. |
| Minesweeper.LossKeepsValid | app/lib/minesweeper.ts:155-179 | The loss sweep keeps the invariant: it moves no mine and no flag. |
| Minesweeper.Game.RevealEmptyTile | app/lib/minesweeper.ts:193-224 | The flood fill terminates. Each tile is either unchanged or, being a hidden non-mine, revealed, so types, mines and revealed tiles are untouched. The start tile is revealed unless it is a mine. Every neighbour of a 0 it revealed is revealed or a mine. Every tile it revealed is the start or next to a 0 it revealed. `flagsLeft` rises by exactly the number of flagged tiles it revealed. |
| Minesweeper.EnqueueCells | app/lib/minesweeper.ts:217-221 | The `forEach` appends the cell (nr, nc) of every neighbour, in list order, to the back of the queue, and leaves the queue's earlier entries in place. |
| Minesweeper.Game.FloodStep | app/lib/minesweeper.ts:199-223 | One turn of the queue loop keeps the fill invariant and the "only 0s spread" invariant, and hands back exactly the flags it reveals. Either the number of hidden safe tiles drops, or the board is unchanged and the queue is shorter. This is the termination measure. |
| Minesweeper.SupportReveal | app/lib/minesweeper.ts:212-213 | Revealing the queue's head keeps every revealed tile and queued cell at the start or next to a revealed 0. |
| Minesweeper.SupportEnqueue | app/lib/minesweeper.ts:216-221 | Cells queued around a revealed 0 are next to that 0. |
| Minesweeper.QueueGrown | app/lib/minesweeper.ts:216-221 | Queueing every neighbour of the 0 just revealed restores the fill invariant: every neighbour of a revealed 0 is queued, revealed or a mine. |
| Minesweeper.FloodKeepsValid | app/lib/minesweeper.ts:193-224 | A flood fill during play keeps the invariant: numbers, mine count and flag balance are preserved. |
| Minesweeper.Game.HandleReveal | app/lib/minesweeper.ts:63-84 | On a mine, the result is exactly the loss sweep. Otherwise the tile is revealed: a 0 by a closed flood fill that only 0s spread, any other number alone. The flags that were revealed come back, and the stage becomes "won" exactly when every safe tile is revealed; otherwise it stays "playing". |
| Minesweeper.Game.RevealSafe | app/lib/minesweeper.ts:68-81 | The safe branch of "reveal tile", with its win check: won exactly when every safe tile is revealed, otherwise still playing. |
| Minesweeper.Game.RevealAt | app/lib/minesweeper.ts:69-73 | A 0 is revealed by the flood fill. Any other number is the one tile set to "revealed". |
| Minesweeper.NumUnrevealedTiles | app/lib/minesweeper.ts:226-234 | The loop counts exactly the tiles whose state is not "revealed". |
| Minesweeper.WinCondition | app/lib/minesweeper.ts:74-77 | With `numMines` mines and none revealed, the unrevealed count equals `numMines` if and only if every safe tile is revealed. |
| Minesweeper.WinCheck | app/lib/minesweeper.ts:74-77 | During play the win test holds exactly when every safe tile is revealed, and a won game still satisfies the invariant. |
| Utils.IndexedNeighbors | app/lib/utils.ts:1-13 | Off the grid the list is empty. Otherwise it has at most 8 entries, each in bounds, at Chebyshev distance 1 and not the cell itself, with `val == arr[nr][nc]`. Every such cell is in the list. |
| Utils.NeighborsInOrder | app/lib/utils.ts:4-11 | The list is strictly in row-major (dr, then dc) order, so it has no duplicates. |
| Utils.GetIndexedNeighbors | app/lib/utils.ts:1-13 | The nested dr/dc loop builds exactly `IndexedNeighbors`. |
| Utils.PushRow | app/lib/utils.ts:5-10 | The inner dc loop appends exactly the in-bounds cells of row r+dr, skipping the centre. |
| Utils.GetNeighbors | app/lib/utils.ts:15-17 | The result has one value per indexed neighbour, and each equals that neighbour's `val`, in order. |
| Utils.ShuffledArray | app/lib/utils.ts:22-33 | The shuffle changes the given array in place and returns it. The contents are `ShuffleDown` of the old contents under the draws, and their multiset is unchanged for any draws in 0..i. |
| Utils.ShufflePermutes | app/lib/utils.ts:22-33 | The shuffle specification keeps the length and the multiset, whatever the draws. |
| Utils.SwapPermutes | app/lib/utils.ts:26-29 | Swapping `array[i]` and `array[j]` keeps the multiset. |

## Left out

- The leaderboard write after a win (`setTimeout(() => addLeaderboardEntry(...))`) is a database write (I/O). `timestampInMs` is only used there, so actions carry no timestamp.
- `formatDuration` relies on date formatting from a foreign library.
- `Math.random` becomes the injected draws `picks`. Uniformity of the shuffle cannot be stated.
- The board component, the stopwatch, the rendering and the leaderboard pages are not part of this model. Only the board component's dispatch guards are kept, as the reducer's precondition `Dispatchable`. So the model says nothing about actions dispatched after a win or loss.
- The source reads a difficulty name and would fail on an unknown one. `Difficulty` is a closed datatype here, so that case cannot arise.
- Minesweeper.Game.RevealEmptyTile: the flood fill is specified by its effects (closed under neighbours of revealed 0s, and only spread by 0s), not as the exact set of tiles reachable from the start through 0s.
- Minesweeper.Game.HandleStart: inherits the flood fill's description above. The tiles it reveals are bounded by closure and by "only 0s spread", not given as the exact set reachable from the click.
- Minesweeper.Game.HandleReveal: on a 0, inherits the flood fill's description from `RevealEmptyTile`. The tiles revealed are bounded by closure and by "only 0s spread", not given as the exact set reachable from the click through 0s.
- Minesweeper.Game.RevealSafe: on a 0, inherits the flood fill's description from `RevealEmptyTile`, as `HandleReveal` does.
- Minesweeper.Game.RevealAt: on a 0, inherits the flood fill's description from `RevealEmptyTile`, as `HandleReveal` does.
- Minesweeper.Game.MsReducer: forwards `StartOutcome` and `RevealOutcome`, so for "start" and for "reveal tile" on a 0 it inherits the flood fill's description from `RevealEmptyTile` and does not give the exact set of tiles revealed.
- Tiles are values inside `seq<seq<Tile>>`, not shared objects, so the model does not capture aliasing of tile objects between rows, which the source never creates.
