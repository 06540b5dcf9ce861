/** The game engine: the difficulty table, the initial state, and the reducer
    that applies one player action to the game state in place. */
module Minesweeper {
  import opened Utils
  import opened Board

  /** The four actions the reducer handles. */
  datatype Action =
    | RevealTile(row: int, col: int)
    | ToggleFlag(row: int, col: int)
    | StartGame(row: int, col: int)
    | NewGame(difficulty: Difficulty)

  /** Board size and mine count per difficulty. Each table entry leaves more than
      nine cells free of mines, so a 3x3 block can always be kept clear. */
  function GetGameConfig(difficulty: Difficulty): (cfg: Config)
    ensures 0 < cfg.numMines < cfg.width * cfg.height - 9
  {
    match difficulty
    case Easy => Config(10, 8, 10)
    case Medium => Config(18, 14, 40)
    case Hard => Config(24, 20, 99)
  }

  /** The invariant every reachable game state keeps. */
  ghost predicate ValidState(s: MsGameState)
  {
    var cfg := GetGameConfig(s.difficulty);
    Shaped(s.board, cfg.height, cfg.width) &&
    // every flag on the board has been taken from the counter
    s.flagsLeft + Count(s.board, HasFlag) == cfg.numMines &&
    (s.stage == Start ==>
      forall i, j :: InGrid(s.board, i, j) ==>
        s.board[i][j].kind == Number(0) && (s.board[i][j].state == Unflagged || s.board[i][j].state == Flagged)) &&
    (s.stage != Start ==> Count(s.board, IsMine) == cfg.numMines && NumbersMatch(s.board)) &&
    (s.stage == Playing || s.stage == Won ==>
      forall i, j :: InGrid(s.board, i, j) ==> PlayState(s.board[i][j])) &&
    (s.stage == Won ==> AllSafeRevealed(s.board))
  }

  /** While a game is on, a tile is unflagged, flagged or revealed, and mines are never revealed. */
  predicate PlayState(t: Tile)
  {
    (t.state == Unflagged || t.state == Flagged || t.state == Revealed) &&
    (t.kind == Mine ==> t.state != Revealed)
  }

  /** The guards the board component applies before it dispatches an action. */
  ghost predicate Dispatchable(s: MsGameState, action: Action)
    requires ValidState(s)
  {
    match action
    case RevealTile(r, c) => s.stage == Playing && InGrid(s.board, r, c) && s.board[r][c].state == Unflagged
    case StartGame(r, c) => s.stage == Start && InGrid(s.board, r, c) && s.board[r][c].state == Unflagged
    case ToggleFlag(r, c) => (s.stage == Start || s.stage == Playing) && InGrid(s.board, r, c) && s.board[r][c].state != Revealed
    case NewGame(_) => true
  }

  /** A height x width board of unflagged tiles of type 0. */
  function NewBoard(height: nat, width: nat): (b: Grid)
    ensures Shaped(b, height, width)
    ensures forall i, j :: 0 <= i < height && 0 <= j < width ==> b[i][j] == Tile(Number(0), Unflagged)
  {
    seq(height, _ => seq(width, _ => Tile(Number(0), Unflagged)))
  }

  /** The state of a fresh game: an empty board of the difficulty's size, every flag
      still available, stage "start". */
  function NewMsGame(difficulty: Difficulty): (s: MsGameState)
    ensures var cfg := GetGameConfig(difficulty);
      s.difficulty == difficulty && s.flagsLeft == cfg.numMines && s.stage == Start &&
      Shaped(s.board, cfg.height, cfg.width) &&
      forall i, j :: 0 <= i < cfg.height && 0 <= j < cfg.width ==> s.board[i][j] == Tile(Number(0), Unflagged)
    ensures ValidState(s)
  {
    var cfg := GetGameConfig(difficulty);
    var b := NewBoard(cfg.height, cfg.width);
    CountZero(b, HasFlag);
    MsGameState(difficulty, b, cfg.numMines, Start)
  }

  /** The state after the "toggle flag" action on (r, c). */
  function Toggled(s: MsGameState, r: int, c: int): (s': MsGameState)
    requires Rectangular(s.board) && InGrid(s.board, r, c)
    ensures s'.difficulty == s.difficulty && s'.stage == s.stage && SameShape(s.board, s'.board)
    ensures s.board[r][c].state == Flagged ==>
      s'.board[r][c] == Tile(s.board[r][c].kind, Unflagged) && s'.flagsLeft == s.flagsLeft + 1
    ensures s.board[r][c].state != Flagged ==>
      s'.board[r][c] == Tile(s.board[r][c].kind, Flagged) && s'.flagsLeft == s.flagsLeft - 1
    ensures forall i, j :: InGrid(s.board, i, j) && (i != r || j != c) ==> s'.board[i][j] == s.board[i][j]
  {
    var t := s.board[r][c];
    if t.state == Flagged then
      s.(board := Set(s.board, r, c, t.(state := Unflagged)), flagsLeft := s.flagsLeft + 1)
    else
      s.(board := Set(s.board, r, c, t.(state := Flagged)), flagsLeft := s.flagsLeft - 1)
  }

  /** Toggling an unflagged tile twice gives back the state it started from. */
  lemma ToggleTwice(s: MsGameState, r: int, c: int)
    requires Rectangular(s.board) && InGrid(s.board, r, c) && s.board[r][c].state == Unflagged
    ensures Rectangular(Toggled(s, r, c).board) && InGrid(Toggled(s, r, c).board, r, c)
    ensures Toggled(Toggled(s, r, c), r, c) == s
  {
    var s1 := Toggled(s, r, c);
    assert Rectangular(s1.board) by {
      assert forall i :: 0 <= i < |s1.board| ==> |s1.board[i]| == |s.board[i]|;
    }
    var s2 := Toggled(s1, r, c);
    assert s2.board[r] == s.board[r];
    assert s2.board == s.board;
  }

  /** Toggling a flag where the board component allows it keeps the game invariant. */
  lemma ToggledValid(s: MsGameState, r: int, c: int)
    requires ValidState(s) && Dispatchable(s, ToggleFlag(r, c))
    ensures ValidState(Toggled(s, r, c))
  {
    var s' := Toggled(s, r, c);
    assert s'.board == Set(s.board, r, c, s'.board[r][c]);
    CountUpdate(s.board, r, c, s'.board[r][c], HasFlag);
    if s.stage == Start {
      ToggledBeforeStart(s, s', r, c);
    } else {
      SameKindsKeepNumbers(s.board, s'.board);
      PlayingValid(s');
    }
  }

  /** Before "start", putting a flag on a blank tile and taking one from the counter, or
      taking a flag off and giving it back, keeps the invariant. */
  lemma ToggledBeforeStart(s: MsGameState, s': MsGameState, r: int, c: int)
    requires ValidState(s) && s.stage == Start && InGrid(s.board, r, c)
    requires s'.difficulty == s.difficulty && s'.stage == Start
    requires s.board[r][c].state == Flagged ==>
      s'.board == Set(s.board, r, c, Tile(Number(0), Unflagged)) && s'.flagsLeft == s.flagsLeft + 1
    requires s.board[r][c].state != Flagged ==>
      s'.board == Set(s.board, r, c, Tile(Number(0), Flagged)) && s'.flagsLeft == s.flagsLeft - 1
    ensures ValidState(s')
  {
    CountUpdate(s.board, r, c, s'.board[r][c], HasFlag);
  }

  /** How many cells of [0, x) lie within distance 1 of a. */
  ghost function NearCount(a: int, x: int): nat
    decreases x
  {
    if x <= 0 then 0 else NearCount(a, x - 1) + (if -1 <= a - (x - 1) <= 1 then 1 else 0)
  }

  lemma {:induction false} NearCountAtMostThree(a: int, x: int)
    ensures NearCount(a, x) <= 3
    ensures x >= 0 ==> NearCount(a, x) == Max(0, Min(x, a + 2) - Max(0, a - 1))
    decreases x
  {
    if x > 0 {
      NearCountAtMostThree(a, x - 1);
    }
  }

  function Max(x: int, y: int): int { if x < y then y else x }
  function Min(x: int, y: int): int { if x < y then x else y }

  /** Counts the mines among the in-bounds neighbours of (r, c). */
  method NumAdjacentMines(board: Grid, r: int, c: int) returns (mineCount: Digit)
    requires Rectangular(board) && InGrid(board, r, c)
    ensures mineCount == AdjacentMines(board, r, c)
  {
    var count := CountMines(GetNeighbors(board, r, c));
    MinesAmongNeighbors(board, r, c);
    mineCount := count;
  }

  /** The loop of NumAdjacentMines: one increment per mine in the list. */
  method CountMines(tiles: seq<Tile>) returns (count: nat)
    ensures count == CountRow(tiles, IsMine)
  {
    count := 0;
    for k := 0 to |tiles|
      invariant count == CountRow(tiles[..k], IsMine)
    {
      CountRowPrefix(tiles, k, IsMine);
      if tiles[k].kind == Mine {
        count := count + 1;
      }
    }
    assert tiles[..|tiles|] == tiles;
  }

  /** Counts the tiles whose state is not "revealed". */
  method NumUnrevealedTiles(board: Grid) returns (ret: nat)
    ensures ret == Count(board, NotRevealed)
  {
    ret := 0;
    for i := 0 to |board|
      invariant ret == Count(board[..i], NotRevealed)
    {
      var row := board[i];
      for j := 0 to |row|
        invariant ret == Count(board[..i], NotRevealed) + CountRow(row[..j], NotRevealed)
      {
        CountRowPrefix(row, j, NotRevealed);
        if row[j].state != Revealed {
          ret := ret + 1;
        }
      }
      assert row[..|row|] == row;
      CountPrefix(board, i, NotRevealed);
    }
    assert board[..|board|] == board;
  }

  /** With the mines fixed and none of them revealed, the not-revealed count equals the
      mine count exactly when every safe tile is revealed. */
  lemma WinCondition(b: Grid, numMines: nat)
    requires Rectangular(b) && Count(b, IsMine) == numMines
    requires forall i, j :: InGrid(b, i, j) && b[i][j].kind == Mine ==> b[i][j].state != Revealed
    ensures Count(b, NotRevealed) == numMines <==> AllSafeRevealed(b)
  {
    CountSplit(b, NotRevealed, IsMine, HiddenSafe);
    CountZero(b, HiddenSafe);
  }

  /** In the playing stage the game is won exactly when the unrevealed tiles are as many
      as the mines, and a won game keeps the invariant. */
  lemma WinCheck(s: MsGameState)
    requires ValidState(s) && s.stage == Playing
    ensures Count(s.board, NotRevealed) == GetGameConfig(s.difficulty).numMines <==> AllSafeRevealed(s.board)
    ensures AllSafeRevealed(s.board) ==> ValidState(s.(stage := Won))
  {
    WinCondition(s.board, GetGameConfig(s.difficulty).numMines);
  }

  /** Tiles with the same types give the same mine count and the same numbers. */
  lemma SameKindsKeepNumbers(b1: Grid, b2: Grid)
    requires Rectangular(b1) && Rectangular(b2) && SameShape(b1, b2)
    requires forall i, j :: InGrid(b1, i, j) ==> b1[i][j].kind == b2[i][j].kind
    ensures Count(b1, IsMine) == Count(b2, IsMine)
    ensures NumbersMatch(b1) ==> NumbersMatch(b2)
  {
    assert |b1| > 0 ==> |b1[0]| == |b2[0]|;
    CountCongruent(b1, b2, IsMine, IsMine);
    assert SameMines(b1, b2);
    forall i, j | InGrid(b2, i, j)
      ensures AdjacentMines(b1, i, j) == AdjacentMines(b2, i, j)
    {
      AdjacentMinesSameMines(b1, b2, i, j);
    }
  }

  /** What the loss sweep does to one tile: unflagged mines are shown, wrong flags marked. */
  function Swept(t: Tile): Tile
  {
    if t.kind == Mine && t.state == Unflagged then t.(state := Revealed)
    else if t.kind != Mine && t.state == Flagged then t.(state := FlaggedIncorrectly)
    else t
  }

  /** What the flood fill may do to one tile: leave it, or reveal a hidden tile that is no mine. */
  predicate FillStep(t0: Tile, t: Tile)
  {
    t == t0 || (t0.kind != Mine && t0.state != Revealed && t == t0.(state := Revealed))
  }

  /** The tile at (i, j) was hidden in b0 and is revealed in b. */
  ghost predicate NewlyRevealed(b0: Grid, b: Grid, i: int, j: int)
  {
    0 <= i < |b0| && 0 <= j < |b0[i]| && 0 <= i < |b| && 0 <= j < |b[i]| &&
    b0[i][j].state != Revealed && b[i][j].state == Revealed
  }

  /** A 0 that the flood fill from b0 to b has revealed at (i, j). */
  ghost predicate OpenedZero(b0: Grid, b: Grid, i: int, j: int)
  {
    NewlyRevealed(b0, b, i, j) && b[i][j].kind == Number(0)
  }

  /** (i, j) is where the flood fill started, or lies next to a 0 it has revealed. */
  ghost predicate Reached(b0: Grid, b: Grid, r0: int, c0: int, i: int, j: int)
  {
    (i == r0 && j == c0) || exists ni, nj :: Adjacent(ni, nj, i, j) && OpenedZero(b0, b, ni, nj)
  }

  /** Only 0s spread the flood fill: every tile it has revealed and every queued cell is reached. */
  ghost predicate Supported(b0: Grid, b: Grid, queue: seq<(int, int)>, r0: int, c0: int)
  {
    (forall i, j :: NewlyRevealed(b0, b, i, j) ==> Reached(b0, b, r0, c0, i, j)) &&
    (forall k :: 0 <= k < |queue| ==> Reached(b0, b, r0, c0, queue[k].0, queue[k].1))
  }

  /** b has b0's shape and differs from it only by tiles the flood fill revealed. */
  ghost predicate Filled(b0: Grid, b: Grid)
  {
    Rectangular(b) && SameShape(b0, b) &&
    forall i, j :: InGrid(b, i, j) ==> FillStep(b0[i][j], b[i][j])
  }

  ghost predicate QueueInGrid(b: Grid, queue: seq<(int, int)>)
  {
    forall k :: 0 <= k < |queue| ==> InGrid(b, queue[k].0, queue[k].1)
  }

  /** (i, j) is queued, revealed or a mine: the flood fill has nothing left to do there. */
  ghost predicate Covered(b: Grid, queue: seq<(int, int)>, i: int, j: int)
    requires Rectangular(b) && InGrid(b, i, j)
  {
    (i, j) in queue || b[i][j].state == Revealed || b[i][j].kind == Mine
  }

  /** Every neighbour of a 0 that the flood fill revealed is covered. */
  ghost predicate Closed(b0: Grid, b: Grid, queue: seq<(int, int)>)
    requires Rectangular(b) && SameShape(b0, b)
  {
    forall i, j, ni, nj ::
      InGrid(b, i, j) && InGrid(b, ni, nj) && Adjacent(i, j, ni, nj) &&
      b0[i][j].state != Revealed && b[i][j].state == Revealed && b[i][j].kind == Number(0) ==>
        Covered(b, queue, ni, nj)
  }

  /** Closed, except possibly at the cell (r, c) itself. */
  ghost predicate ClosedBut(b0: Grid, b: Grid, queue: seq<(int, int)>, r: int, c: int)
    requires Rectangular(b) && SameShape(b0, b)
  {
    forall i, j, ni, nj ::
      InGrid(b, i, j) && InGrid(b, ni, nj) && Adjacent(i, j, ni, nj) && (i != r || j != c) &&
      b0[i][j].state != Revealed && b[i][j].state == Revealed && b[i][j].kind == Number(0) ==>
        Covered(b, queue, ni, nj)
  }

  /** The flood fill's loop invariant: b0 is the board it started on and (r0, c0) the cell it started from. */
  ghost predicate FloodInv(b0: Grid, b: Grid, queue: seq<(int, int)>, r0: int, c0: int)
  {
    Filled(b0, b) && QueueInGrid(b, queue) && InGrid(b, r0, c0) &&
    Covered(b, queue, r0, c0) && Closed(b0, b, queue)
  }

  /** The cells of a neighbour list, in order. */
  function Cells(ns: seq<Neighbor<Tile>>): (cs: seq<(int, int)>)
    ensures |cs| == |ns|
    ensures forall m :: 0 <= m < |ns| ==> cs[m] == (ns[m].nr, ns[m].nc)
  {
    if ns == [] then [] else Cells(ns[..|ns| - 1]) + [(ns[|ns| - 1].nr, ns[|ns| - 1].nc)]
  }

  /** The `forEach` that pushes the cell of every neighbour onto the back of the queue. */
  method EnqueueCells(queue: seq<(int, int)>, ns: seq<Neighbor<Tile>>) returns (q: seq<(int, int)>)
    ensures q == queue + Cells(ns)
  {
    q := queue;
    for k := 0 to |ns|
      invariant q == queue + Cells(ns[..k])
    {
      assert ns[..k + 1][..k] == ns[..k];
      q := q + [(ns[k].nr, ns[k].nc)];
    }
    assert ns[..|ns|] == ns;
  }

  /** A cell covered by queue is still covered by queue[1..] once queue's head is revealed or a mine. */
  lemma PopKeepsCovered(b: Grid, queue: seq<(int, int)>, i: int, j: int)
    requires Rectangular(b) && |queue| > 0 && InGrid(b, queue[0].0, queue[0].1) && InGrid(b, i, j)
    requires b[queue[0].0][queue[0].1].state == Revealed || b[queue[0].0][queue[0].1].kind == Mine
    requires Covered(b, queue, i, j)
    ensures Covered(b, queue[1..], i, j)
  {
    if (i, j) != queue[0] && (i, j) in queue {
      var k :| 0 <= k < |queue| && queue[k] == (i, j);
      assert queue[1..][k - 1] == (i, j);
    }
  }

  /** Skipping a queued cell that is revealed or a mine keeps the invariant. */
  lemma PopStep(b0: Grid, b: Grid, queue: seq<(int, int)>, r0: int, c0: int)
    requires FloodInv(b0, b, queue, r0, c0) && |queue| > 0
    requires b[queue[0].0][queue[0].1].state == Revealed || b[queue[0].0][queue[0].1].kind == Mine
    ensures FloodInv(b0, b, queue[1..], r0, c0)
  {
    PopKeepsCovered(b, queue, r0, c0);
    forall i, j, ni, nj |
      InGrid(b, i, j) && InGrid(b, ni, nj) && Adjacent(i, j, ni, nj) &&
      b0[i][j].state != Revealed && b[i][j].state == Revealed && b[i][j].kind == Number(0)
      ensures Covered(b, queue[1..], ni, nj)
    {
      PopKeepsCovered(b, queue, ni, nj);
    }
  }

  /** Revealing the hidden safe head (r, c) of the queue and dropping it keeps the
      invariant everywhere except at the neighbours of (r, c). */
  lemma RevealStep(b0: Grid, b1: Grid, b2: Grid, queue: seq<(int, int)>, r: int, c: int, r0: int, c0: int)
    requires FloodInv(b0, b1, queue, r0, c0) && |queue| > 0 && queue[0] == (r, c)
    requires b1[r][c].kind != Mine && b1[r][c].state != Revealed
    requires b2 == Set(b1, r, c, b1[r][c].(state := Revealed))
    ensures Filled(b0, b2) && QueueInGrid(b2, queue[1..]) && InGrid(b2, r0, c0)
    ensures Covered(b2, queue[1..], r0, c0)
    ensures ClosedBut(b0, b2, queue[1..], r, c)
    ensures b2[r][c].kind != Number(0) ==> FloodInv(b0, b2, queue[1..], r0, c0)
  {
    assert Rectangular(b2) by {
      assert forall i :: 0 <= i < |b2| ==> |b2[i]| == |b1[i]|;
    }
    assert QueueInGrid(b2, queue[1..]) by {
      forall k | 0 <= k < |queue[1..]|
        ensures InGrid(b2, queue[1..][k].0, queue[1..][k].1)
      {
        assert queue[1..][k] == queue[k + 1];
      }
    }
    forall i, j | InGrid(b1, i, j) && Covered(b1, queue, i, j)
      ensures Covered(b2, queue[1..], i, j)
    {
      if (i, j) != queue[0] && (i, j) in queue {
        var k :| 0 <= k < |queue| && queue[k] == (i, j);
        assert queue[1..][k - 1] == (i, j);
      }
    }
  }

  /** Every in-grid cell adjacent to (r, c) is among the cells of its neighbour list. */
  lemma NeighborCellsComplete(b: Grid, r: int, c: int, ni: int, nj: int)
    requires Rectangular(b) && InGrid(b, r, c) && InGrid(b, ni, nj) && Adjacent(r, c, ni, nj)
    ensures (ni, nj) in Cells(IndexedNeighbors(b, r, c))
  {
    var ns := IndexedNeighbors(b, r, c);
    var m :| 0 <= m < |ns| && ns[m] == Neighbor(b[ni][nj], ni, nj);
    assert Cells(ns)[m] == (ni, nj);
  }

  /** Queueing every neighbour of the 0 just revealed at (r, c) restores the invariant. */
  lemma QueueGrown(b0: Grid, b: Grid, q1: seq<(int, int)>, r: int, c: int, r0: int, c0: int)
    requires Filled(b0, b) && InGrid(b, r, c) && InGrid(b, r0, c0)
    requires Covered(b, q1, r0, c0) && ClosedBut(b0, b, q1, r, c)
    requires QueueInGrid(b, q1)
    ensures FloodInv(b0, b, q1 + Cells(IndexedNeighbors(b, r, c)), r0, c0)
  {
    var q2 := q1 + Cells(IndexedNeighbors(b, r, c));
    QueueGrownInGrid(b, q1, r, c);
    assert (r0, c0) in q1 ==> (r0, c0) in q2;
    forall i, j, ni, nj |
      InGrid(b, i, j) && InGrid(b, ni, nj) && Adjacent(i, j, ni, nj) &&
      b0[i][j].state != Revealed && b[i][j].state == Revealed && b[i][j].kind == Number(0)
      ensures Covered(b, q2, ni, nj)
    {
      if i == r && j == c {
        NeighborCellsComplete(b, r, c, ni, nj);
      } else {
        assert (ni, nj) in q1 ==> (ni, nj) in q2;
      }
    }
  }

  lemma QueueGrownInGrid(b: Grid, q1: seq<(int, int)>, r: int, c: int)
    requires Rectangular(b) && QueueInGrid(b, q1)
    ensures QueueInGrid(b, q1 + Cells(IndexedNeighbors(b, r, c)))
  {
    var ns := IndexedNeighbors(b, r, c);
    var q2 := q1 + Cells(ns);
    forall k | 0 <= k < |q2|
      ensures InGrid(b, q2[k].0, q2[k].1)
    {
      if k >= |q1| {
        assert q2[k] == (ns[k - |q1|].nr, ns[k - |q1|].nc);
      }
    }
  }

  /** Skipping the head of the queue keeps every tile and queued cell reached. */
  lemma SupportPop(b0: Grid, b: Grid, queue: seq<(int, int)>, r0: int, c0: int)
    requires Supported(b0, b, queue, r0, c0) && |queue| > 0
    ensures Supported(b0, b, queue[1..], r0, c0)
  {
    forall k | 0 <= k < |queue[1..]|
      ensures Reached(b0, b, r0, c0, queue[1..][k].0, queue[1..][k].1)
    {
      assert queue[1..][k] == queue[k + 1];
    }
  }

  /** A cell reached before another tile is revealed is still reached after. */
  lemma ReachedGrows(b0: Grid, b1: Grid, b2: Grid, r0: int, c0: int, i: int, j: int)
    requires Reached(b0, b1, r0, c0, i, j)
    requires forall ni, nj :: OpenedZero(b0, b1, ni, nj) ==> OpenedZero(b0, b2, ni, nj)
    ensures Reached(b0, b2, r0, c0, i, j)
  {
    if i != r0 || j != c0 {
      var ni, nj :| Adjacent(ni, nj, i, j) && OpenedZero(b0, b1, ni, nj);
      assert OpenedZero(b0, b2, ni, nj);
    }
  }

  /** Revealing the reached, hidden head (r, c) of the queue keeps every tile and queued cell reached. */
  lemma SupportReveal(b0: Grid, b1: Grid, b2: Grid, queue: seq<(int, int)>, r: int, c: int, r0: int, c0: int)
    requires Filled(b0, b1) && Supported(b0, b1, queue, r0, c0) && |queue| > 0 && queue[0] == (r, c)
    requires InGrid(b1, r, c) && b1[r][c].state != Revealed
    requires b2 == Set(b1, r, c, b1[r][c].(state := Revealed))
    ensures NewlyRevealed(b0, b2, r, c)
    ensures Supported(b0, b2, queue[1..], r0, c0)
  {
    assert b0[r][c].state != Revealed;
    assert forall i :: 0 <= i < |b2| ==> |b2[i]| == |b1[i]|;
    assert forall ni, nj :: OpenedZero(b0, b1, ni, nj) ==> OpenedZero(b0, b2, ni, nj);
    forall i, j | NewlyRevealed(b0, b2, i, j)
      ensures Reached(b0, b2, r0, c0, i, j)
    {
      if i == r && j == c {
        ReachedGrows(b0, b1, b2, r0, c0, queue[0].0, queue[0].1);
      } else {
        assert NewlyRevealed(b0, b1, i, j);
        ReachedGrows(b0, b1, b2, r0, c0, i, j);
      }
    }
    forall k | 0 <= k < |queue[1..]|
      ensures Reached(b0, b2, r0, c0, queue[1..][k].0, queue[1..][k].1)
    {
      assert queue[1..][k] == queue[k + 1];
      ReachedGrows(b0, b1, b2, r0, c0, queue[k + 1].0, queue[k + 1].1);
    }
  }

  /** The neighbours of a 0 the fill revealed at (r, c) are reached, so queueing them keeps the queue reached. */
  lemma SupportEnqueue(b0: Grid, b: Grid, q1: seq<(int, int)>, r: int, c: int, r0: int, c0: int)
    requires Rectangular(b) && Supported(b0, b, q1, r0, c0) && OpenedZero(b0, b, r, c)
    ensures Supported(b0, b, q1 + Cells(IndexedNeighbors(b, r, c)), r0, c0)
  {
    var ns := IndexedNeighbors(b, r, c);
    var q2 := q1 + Cells(ns);
    forall k | 0 <= k < |q2|
      ensures Reached(b0, b, r0, c0, q2[k].0, q2[k].1)
    {
      if k >= |q1| {
        assert q2[k] == (ns[k - |q1|].nr, ns[k - |q1|].nc);
        assert Adjacent(r, c, q2[k].0, q2[k].1);
      } else {
        assert q2[k] == q1[k];
      }
    }
  }

  /** (r, c) lies in the 3x3 block around the first click (ar, ac). */
  predicate Near(ar: int, ac: int, r: int, c: int)
  {
    -1 <= ar - r <= 1 && -1 <= ac - c <= 1
  }

  /** The number of true entries of s. */
  function Trues(s: seq<bool>): nat
  {
    if s == [] then 0 else Trues(s[..|s| - 1]) + (if s[|s| - 1] then 1 else 0)
  }

  lemma {:induction false} TruesCount(s: seq<bool>)
    ensures Trues(s) == multiset(s)[true]
  {
    if s != [] {
      TruesCount(s[..|s| - 1]);
      assert s == s[..|s| - 1] + [s[|s| - 1]];
    }
  }

  /** The placements before shuffling: the first m of n entries are true. */
  lemma {:induction false} InitialPlacements(n: nat, m: nat)
    ensures multiset(seq(n, i => i < m))[true] == Min(n, m)
  {
    if n > 0 {
      InitialPlacements(n - 1, m);
      assert seq(n, i => i < m) == seq(n - 1, i => i < m) + [n - 1 < m];
    }
  }

  /** The number of cells in the rows before row r of a board of the given width. */
  function RowStart(r: int, width: nat): nat
    decreases r
  {
    if r <= 0 then 0 else RowStart(r - 1, width) + width
  }

  lemma {:induction false} RowStartProduct(r: nat, width: nat)
    ensures RowStart(r, width) == r * width
  {
    if r > 0 {
      RowStartProduct(r - 1, width);
      assert r * width == (r - 1) * width + width;
    }
  }

  /** The board's width, read off its first row. */
  function Width(b: Grid): nat
  {
    if |b| == 0 then 0 else |b[0]|
  }

  /** b is b0 with mines laid on some tiles, none of them near the click (ar, ac). */
  ghost predicate MinedAway(b0: Grid, b: Grid, ar: int, ac: int)
  {
    SameShape(b0, b) &&
    forall i, j :: 0 <= i < |b0| && 0 <= j < |b0[i]| ==>
      b[i][j] == b0[i][j] || (b[i][j] == b0[i][j].(kind := Mine) && !Near(ar, ac, i, j))
  }

  /** As MinedAway, and every mine lies strictly before (r, c) in row-major order. */
  ghost predicate MinedBefore(b0: Grid, b: Grid, ar: int, ac: int, r: int, c: int)
  {
    SameShape(b0, b) &&
    forall i, j :: 0 <= i < |b0| && 0 <= j < |b0[i]| ==>
      b[i][j] == b0[i][j] || (b[i][j] == b0[i][j].(kind := Mine) && !Near(ar, ac, i, j) && RowMajorBefore(i, j, r, c))
  }

  /** The invariant of the mine-placing loop at (r, c) on placements p: tilesVisited
      placements have been read, skipped cells near the click passed over, and
      minesPlaced mines laid, one for each true placement read. */
  ghost predicate PlaceInv(b0: Grid, b: Grid, p: seq<bool>, ar: int, ac: int, r: int, c: int,
                           tilesVisited: int, skipped: int, minesPlaced: int)
  {
    Rectangular(b0) && (forall i, j :: InGrid(b0, i, j) ==> b0[i][j].kind != Mine) &&
    MinedBefore(b0, b, ar, ac, r, c) && Count(b, IsMine) == minesPlaced &&
    0 <= r && 0 <= c <= Width(b0) &&
    0 <= tilesVisited <= |p| && minesPlaced == Trues(p[..tilesVisited]) &&
    tilesVisited + skipped == RowStart(r, Width(b0)) + c &&
    skipped <= 3 * NearCount(ar, r) + (if -1 <= ar - r <= 1 then NearCount(ac, c) else 0)
  }

  /** Before the first cell, nothing is laid, read or passed over. */
  lemma PlaceStart(b0: Grid, p: seq<bool>, ar: int, ac: int)
    requires Rectangular(b0) && forall i, j :: InGrid(b0, i, j) ==> b0[i][j].kind != Mine
    ensures PlaceInv(b0, b0, p, ar, ac, 0, 0, 0, 0, 0)
  {
    CountZero(b0, IsMine);
    assert p[..0] == [];
  }

  /** Passing over a cell near the click. */
  lemma SkipNear(b0: Grid, b: Grid, p: seq<bool>, ar: int, ac: int, r: int, c: int, tv: int, sk: int, m: int)
    requires PlaceInv(b0, b, p, ar, ac, r, c, tv, sk, m) && c < Width(b0) && Near(ar, ac, r, c)
    ensures PlaceInv(b0, b, p, ar, ac, r, c + 1, tv, sk + 1, m)
  {
  }

  /** Reading a false placement for a cell away from the click. */
  lemma ReadNoMine(b0: Grid, b: Grid, p: seq<bool>, ar: int, ac: int, r: int, c: int, tv: int, sk: int, m: int)
    requires PlaceInv(b0, b, p, ar, ac, r, c, tv, sk, m) && c < Width(b0) && !Near(ar, ac, r, c)
    requires tv < |p| && !p[tv]
    ensures PlaceInv(b0, b, p, ar, ac, r, c + 1, tv + 1, sk, m)
  {
    assert p[..tv + 1][..tv] == p[..tv];
  }

  /** Reading a true placement for the cell (r, c) away from the click and laying a mine there. */
  lemma LayMine(b0: Grid, b: Grid, p: seq<bool>, ar: int, ac: int, r: int, c: int, tv: int, sk: int, m: int)
    requires PlaceInv(b0, b, p, ar, ac, r, c, tv, sk, m) && 0 <= r < |b0| && c < Width(b0) && !Near(ar, ac, r, c)
    requires tv < |p| && p[tv]
    ensures PlaceInv(b0, Set(b, r, c, b[r][c].(kind := Mine)), p, ar, ac, r, c + 1, tv + 1, sk, m + 1)
    ensures MinedAway(b0, Set(b, r, c, b[r][c].(kind := Mine)), ar, ac)
    ensures Count(Set(b, r, c, b[r][c].(kind := Mine)), IsMine) == m + 1
  {
    assert p[..tv + 1][..tv] == p[..tv];
    CountUpdate(b, r, c, b[r][c].(kind := Mine), IsMine);
  }

  /** Moving from the end of row r to the start of row r + 1. */
  lemma NextRow(b0: Grid, b: Grid, p: seq<bool>, ar: int, ac: int, r: int, tv: int, sk: int, m: int)
    requires PlaceInv(b0, b, p, ar, ac, r, Width(b0), tv, sk, m)
    ensures PlaceInv(b0, b, p, ar, ac, r + 1, 0, tv, sk, m)
  {
    NearCountAtMostThree(ac, Width(b0));
  }

  /** With w * h - 9 placements, at most nine cells near the click and every cell of
      the board passed, all placements have been read, so every mine has been laid. */
  lemma Exhausted(b0: Grid, b: Grid, p: seq<bool>, ar: int, ac: int, tv: int, sk: int, m: int)
    requires PlaceInv(b0, b, p, ar, ac, |b0|, 0, tv, sk, m)
    requires |p| == |b0| * Width(b0) - 9
    ensures m == Trues(p)
  {
    NearCountAtMostThree(ar, |b0|);
    RowStartProduct(|b0|, Width(b0));
    assert p[..tv] == p;
  }

  /** While fewer than all the mines have been laid, an unread placement is left. */
  lemma PlacementsLeft(p: seq<bool>, tv: int, m: int, n: int)
    requires 0 <= tv <= |p| && m == Trues(p[..tv]) && m < n && Trues(p) == n
    ensures tv < |p|
  {
    assert p[..|p|] == p;
  }

  /** What MinedAway means for the placing loop's caller. */
  lemma MinedAwayFacts(b0: Grid, b: Grid, ar: int, ac: int)
    requires Rectangular(b0) && MinedAway(b0, b, ar, ac)
    requires forall i, j :: InGrid(b0, i, j) ==> b0[i][j].kind != Mine
    ensures Rectangular(b)
    ensures forall i, j :: InGrid(b, i, j) && Near(ar, ac, i, j) ==> b[i][j].kind != Mine
    ensures forall i, j :: InGrid(b, i, j) ==> b[i][j].state == b0[i][j].state
    ensures forall i, j :: InGrid(b, i, j) && b[i][j].kind != Mine ==> b[i][j] == b0[i][j]
  {
    assert forall i :: 0 <= i < |b| ==> |b[i]| == |b0[i]|;
  }

  /** The cells near the click (ar, ac) in the rows before row r of a board of width w. */
  ghost function NearRows(ar: int, ac: int, w: nat, r: int): nat
    decreases r
  {
    if r <= 0 then 0 else NearRows(ar, ac, w, r - 1) + (if -1 <= ar - (r - 1) <= 1 then NearCount(ac, w) else 0)
  }

  /** The cells near the click strictly before (r, c) in row-major order. */
  ghost function NearBefore(ar: int, ac: int, w: nat, r: int, c: int): nat
  {
    NearRows(ar, ac, w, r) + (if -1 <= ar - r <= 1 then NearCount(ac, c) else 0)
  }

  /** The index of the placement the placing loop reads at (r, c): the number of
      cells before (r, c) in row-major order that are not near the click. */
  ghost function Slot(ar: int, ac: int, w: nat, r: int, c: int): int
  {
    RowStart(r, w) + c - NearBefore(ar, ac, w, r, c)
  }

  /** The placing loop lays a mine at (i, j): the cell is away from the click and
      its placement is read and true. */
  ghost predicate MineSlot(p: seq<bool>, ar: int, ac: int, w: nat, i: int, j: int)
  {
    !Near(ar, ac, i, j) && 0 <= Slot(ar, ac, w, i, j) < |p| && p[Slot(ar, ac, w, i, j)]
  }

  /** b is b0 with a mine on exactly the cells whose placement in p is true. */
  ghost predicate LaidFrom(b0: Grid, b: Grid, p: seq<bool>, ar: int, ac: int)
  {
    SameShape(b0, b) &&
    forall i, j :: 0 <= i < |b0| && 0 <= j < |b0[i]| ==>
      b[i][j] == if MineSlot(p, ar, ac, Width(b0), i, j) then b0[i][j].(kind := Mine) else b0[i][j]
  }

  /** The placing loop at (r, c), having passed sk cells near the click and read tv
      placements: every visited cell away from the click has had its placement read,
      and holds a mine exactly when that placement is true. */
  ghost predicate SlotsRead(b0: Grid, b: Grid, p: seq<bool>, ar: int, ac: int, r: int, c: int, tv: int, sk: int)
  {
    SameShape(b0, b) && tv <= |p| && sk == NearBefore(ar, ac, Width(b0), r, c) &&
    forall i, j :: 0 <= i < |b0| && 0 <= j < |b0[i]| && RowMajorBefore(i, j, r, c) && !Near(ar, ac, i, j) ==>
      0 <= Slot(ar, ac, Width(b0), i, j) < tv && (b[i][j].kind == Mine <==> p[Slot(ar, ac, Width(b0), i, j)])
  }

  /** The placing loop at the head of row r, with both of its invariants. */
  ghost predicate Placing(b0: Grid, b: Grid, p: seq<bool>, ar: int, ac: int, r: int, tv: int, sk: int, m: int)
  {
    PlaceInv(b0, b, p, ar, ac, r, 0, tv, sk, m) && SlotsRead(b0, b, p, ar, ac, r, 0, tv, sk)
  }

  /** The placing loop once its last mine is down: m mines, laid as p says. */
  ghost predicate PlacedAll(b0: Grid, b: Grid, p: seq<bool>, ar: int, ac: int, m: int)
  {
    MinedAway(b0, b, ar, ac) && Count(b, IsMine) == m && LaidFrom(b0, b, p, ar, ac)
  }

  lemma SlotsStart(b0: Grid, p: seq<bool>, ar: int, ac: int)
    ensures SlotsRead(b0, b0, p, ar, ac, 0, 0, 0, 0)
  {
  }

  /** Passing over a cell near the click. */
  lemma SlotsSkip(b0: Grid, b: Grid, p: seq<bool>, ar: int, ac: int, r: int, c: int, tv: int, sk: int)
    requires SlotsRead(b0, b, p, ar, ac, r, c, tv, sk) && c >= 0 && Near(ar, ac, r, c)
    ensures SlotsRead(b0, b, p, ar, ac, r, c + 1, tv, sk + 1)
  {
  }

  /** Reading placement tv for the cell (r, c) away from the click, and laying a mine there when it is true. */
  lemma SlotsVisit(b0: Grid, b: Grid, b': Grid, p: seq<bool>, ar: int, ac: int, r: int, c: int, tv: int, sk: int)
    requires SlotsRead(b0, b, p, ar, ac, r, c, tv, sk) && c >= 0 && !Near(ar, ac, r, c)
    requires tv + sk == RowStart(r, Width(b0)) + c && 0 <= tv < |p|
    requires 0 <= r < |b| && 0 <= c < |b[r]| && b[r][c].kind != Mine
    requires b' == if p[tv] then Set(b, r, c, b[r][c].(kind := Mine)) else b
    ensures SlotsRead(b0, b', p, ar, ac, r, c + 1, tv + 1, sk)
  {
  }

  /** Moving from the end of row r to the start of row r + 1. */
  lemma SlotsNextRow(b0: Grid, b: Grid, p: seq<bool>, ar: int, ac: int, r: int, tv: int, sk: int)
    requires Rectangular(b0) && r >= 0 && SlotsRead(b0, b, p, ar, ac, r, Width(b0), tv, sk)
    ensures SlotsRead(b0, b, p, ar, ac, r + 1, 0, tv, sk)
  {
  }

  /** Along a row, the slot index never decreases. */
  lemma {:induction false} SlotRowMonotone(ar: int, ac: int, w: nat, r: int, c: int, j: int)
    requires 0 <= c <= j
    ensures Slot(ar, ac, w, r, c) <= Slot(ar, ac, w, r, j)
    decreases j - c
  {
    if c < j {
      SlotRowMonotone(ar, ac, w, r, c, j - 1);
    }
  }

  /** In row-major order, the slot index never decreases. */
  lemma {:induction false} SlotMonotone(ar: int, ac: int, w: nat, r: int, c: int, i: int, j: int)
    requires 0 <= r && 0 <= c <= w && 0 <= j && (r < i || (r == i && c <= j))
    ensures Slot(ar, ac, w, r, c) <= Slot(ar, ac, w, i, j)
    decreases i - r
  {
    if r == i {
      SlotRowMonotone(ar, ac, w, r, c, j);
    } else {
      SlotRowMonotone(ar, ac, w, r, c, w);
      assert Slot(ar, ac, w, r, w) == Slot(ar, ac, w, r + 1, 0);
      SlotMonotone(ar, ac, w, r + 1, 0, i, j);
    }
  }

  /** A prefix of the placements holds no more trues than the whole. */
  lemma {:induction false} TruesMonotone(q: seq<bool>, k: nat)
    requires k <= |q|
    ensures Trues(q[..k]) <= Trues(q)
  {
    if k < |q| {
      var n := |q| - 1;
      TruesMonotone(q[..n], k);
      assert q[..n][..k] == q[..k];
    } else {
      assert q[..k] == q;
    }
  }

  /** A true placement at or after k means the first k placements miss a true one. */
  lemma {:induction false} TruesTail(p: seq<bool>, tv: nat, k: nat)
    requires tv <= k < |p| && p[k]
    ensures Trues(p[..tv]) < Trues(p)
  {
    var n := |p| - 1;
    var q := p[..n];
    if k == n {
      TruesMonotone(q, tv);
      assert q[..tv] == p[..tv];
    } else {
      TruesTail(q, tv, k);
      assert q[..tv] == p[..tv];
    }
  }

  /** Once every true placement has been read, the loop has laid the mines exactly as
      the placements say: on the visited cells by SlotsRead, and nowhere after them,
      where every placement left is false. */
  lemma SlotsFinished(b0: Grid, b: Grid, p: seq<bool>, ar: int, ac: int, r: int, c: int, tv: int, sk: int, m: int)
    requires PlaceInv(b0, b, p, ar, ac, r, c, tv, sk, m) && SlotsRead(b0, b, p, ar, ac, r, c, tv, sk)
    requires m == Trues(p)
    ensures LaidFrom(b0, b, p, ar, ac)
  {
    var w := Width(b0);
    forall i, j | 0 <= i < |b0| && 0 <= j < |b0[i]|
      ensures b[i][j] == if MineSlot(p, ar, ac, w, i, j) then b0[i][j].(kind := Mine) else b0[i][j]
    {
      if !RowMajorBefore(i, j, r, c) && !Near(ar, ac, i, j) {
        SlotMonotone(ar, ac, w, r, c, i, j);
        if 0 <= Slot(ar, ac, w, i, j) < |p| && p[Slot(ar, ac, w, i, j)] {
          TruesTail(p, tv, Slot(ar, ac, w, i, j));
        }
      }
    }
  }

  /** The tiles the placing loop made mines keep their mine-ness through the numbering pass. */
  lemma LaidMines(b0: Grid, placed: Grid, b: Grid, p: seq<bool>, ar: int, ac: int)
    requires Rectangular(b0) && forall i, j :: InGrid(b0, i, j) ==> b0[i][j].kind != Mine
    requires LaidFrom(b0, placed, p, ar, ac) && SameMines(placed, b)
    ensures forall i, j :: 0 <= i < |b| && 0 <= j < |b[i]| ==>
      (b[i][j].kind == Mine <==> MineSlot(p, ar, ac, Width(b0), i, j))
  {
  }

  /** A flood fill over a board in the playing stage keeps the game invariant. */
  lemma FloodKeepsValid(s0: MsGameState, s1: MsGameState)
    requires ValidState(s0) && s0.stage == Playing
    requires s1.difficulty == s0.difficulty && s1.stage == Playing
    requires Filled(s0.board, s1.board)
    requires s1.flagsLeft == s0.flagsLeft + Count(s0.board, IsFlagged) - Count(s1.board, IsFlagged)
    ensures ValidState(s1)
  {
    var b0: Grid, b1: Grid := s0.board, s1.board;
    assert forall i, j :: InGrid(b1, i, j) ==> b0[i][j].kind == b1[i][j].kind;
    SameKindsKeepNumbers(b0, b1);
    CountCongruent(b0, b0, HasFlag, IsFlagged);
    CountCongruent(b1, b1, HasFlag, IsFlagged);
    PlayingValid(s1);
  }

  /** The sweep of a lost game keeps the game invariant: it moves no mine and no flag. */
  lemma LossKeepsValid(s0: MsGameState, s1: MsGameState, r: int, c: int)
    requires ValidState(s0) && s0.stage == Playing && InGrid(s0.board, r, c)
    requires s0.board[r][c] == Tile(Mine, Unflagged)
    requires s1.difficulty == s0.difficulty && s1.flagsLeft == s0.flagsLeft && s1.stage == Lost
    requires SameShape(s0.board, s1.board) && s1.board[r][c] == Tile(Mine, ClickedMine)
    requires forall i, j :: InGrid(s1.board, i, j) && (i != r || j != c) ==> s1.board[i][j] == Swept(s0.board[i][j])
    ensures ValidState(s1)
  {
    var b0: Grid, b1: Grid := s0.board, s1.board;
    assert Rectangular(b1) by {
      assert forall i :: 0 <= i < |b1| ==> |b1[i]| == |b0[i]|;
    }
    forall i, j | InGrid(b1, i, j)
      ensures b0[i][j].kind == b1[i][j].kind && HasFlag(b0[i][j]) == HasFlag(b1[i][j])
    {
      if i != r || j != c {
        assert b1[i][j] == Swept(b0[i][j]);
      }
    }
    SameKindsKeepNumbers(b0, b1);
    CountCongruent(b0, b1, HasFlag, HasFlag);
  }

  /** The game invariant in the playing stage, conjunct by conjunct. */
  lemma PlayingValid(s: MsGameState)
    requires s.stage == Playing
    requires Shaped(s.board, GetGameConfig(s.difficulty).height, GetGameConfig(s.difficulty).width)
    requires s.flagsLeft + Count(s.board, HasFlag) == GetGameConfig(s.difficulty).numMines
    requires Count(s.board, IsMine) == GetGameConfig(s.difficulty).numMines && NumbersMatch(s.board)
    requires forall i, j :: InGrid(s.board, i, j) ==> PlayState(s.board[i][j])
    ensures ValidState(s)
  {
  }

  /** Laying the mines and the numbers on a valid board in the start stage, without
      touching a flag, gives a valid playing state. */
  lemma StartedValid(s0: MsGameState, s1: MsGameState)
    requires ValidState(s0) && s0.stage == Start
    requires s1.difficulty == s0.difficulty && s1.flagsLeft == s0.flagsLeft && s1.stage == Playing
    requires SameShape(s0.board, s1.board) && Rectangular(s1.board)
    requires Count(s1.board, IsMine) == GetGameConfig(s0.difficulty).numMines && NumbersMatch(s1.board)
    requires forall i, j :: InGrid(s1.board, i, j) ==> s1.board[i][j].state == s0.board[i][j].state
    ensures ValidState(s1)
  {
    var b0: Grid, b1: Grid := s0.board, s1.board;
    CountCongruent(b0, b1, HasFlag, HasFlag);
    assert |b0| > 0 ==> |b0[0]| == |b1[0]|;
    PlayingValid(s1);
  }

  /** The flood fill moves no mine and changes no mine tile. */
  lemma FilledFacts(b0: Grid, b: Grid)
    requires Filled(b0, b)
    ensures forall i, j :: InGrid(b, i, j) ==> b[i][j].kind == b0[i][j].kind
    ensures forall i, j :: InGrid(b, i, j) && b[i][j].kind == Mine ==> b[i][j] == b0[i][j]
  {
  }

  /** The numbering pass has reached (r, c): b is b0 with the same mines and states,
      and every tile before (r, c) that is no mine carries its number. */
  ghost predicate NumberedBefore(b0: Grid, b: Grid, r: int, c: int)
  {
    Rectangular(b0) && SameShape(b0, b) && SameMines(b0, b) && Width(b0) == Width(b) &&
    forall i, j :: InGrid(b, i, j) ==>
      b[i][j].state == b0[i][j].state &&
      (b[i][j].kind != Mine ==>
        b[i][j].kind == if RowMajorBefore(i, j, r, c) then Number(AdjacentMines(b0, i, j)) else b0[i][j].kind)
  }

  /** Numbering the tile at (r, c), or passing over it when it is a mine. */
  lemma NumberStep(b0: Grid, b: Grid, r: int, c: int)
    requires NumberedBefore(b0, b, r, c) && InGrid(b, r, c)
    ensures Rectangular(b) && AdjacentMines(b0, r, c) == AdjacentMines(b, r, c)
    ensures b[r][c].kind == Mine ==> NumberedBefore(b0, b, r, c + 1)
    ensures b[r][c].kind != Mine ==>
      NumberedBefore(b0, Set(b, r, c, b[r][c].(kind := Number(AdjacentMines(b0, r, c)))), r, c + 1)
  {
    assert Rectangular(b) by {
      assert forall i :: 0 <= i < |b| ==> |b[i]| == |b0[i]|;
    }
    AdjacentMinesSameMines(b0, b, r, c);
  }

  /** Moving from the end of row r to the start of row r + 1. */
  lemma NumberedRow(b0: Grid, b: Grid, r: int)
    requires NumberedBefore(b0, b, r, Width(b))
    ensures NumberedBefore(b0, b, r + 1, 0)
  {
  }

  /** Once every row is done, every tile that is no mine carries its number. */
  lemma NumberedAll(b0: Grid, b: Grid)
    requires NumberedBefore(b0, b, |b|, 0)
    ensures Rectangular(b) && NumbersMatch(b)
  {
    assert Rectangular(b) by {
      assert forall i :: 0 <= i < |b| ==> |b[i]| == |b0[i]|;
    }
    forall i, j | InGrid(b, i, j)
      ensures AdjacentMines(b0, i, j) == AdjacentMines(b, i, j)
    {
      AdjacentMinesSameMines(b0, b, i, j);
    }
  }

  /** The whole "start" action keeps the game invariant: the two passes give a valid
      playing state (StartedValid), and the flood fill keeps it (FloodKeepsValid). */
  lemma StartFinished(s0: MsGameState, s1: MsGameState, s2: MsGameState, ar: int, ac: int)
    requires ValidState(s0) && s0.stage == Start
    requires s1.difficulty == s0.difficulty && s1.flagsLeft == s0.flagsLeft && s1.stage == Playing
    requires SameShape(s0.board, s1.board) && Rectangular(s1.board)
    requires Count(s1.board, IsMine) == GetGameConfig(s0.difficulty).numMines && NumbersMatch(s1.board)
    requires forall i, j :: InGrid(s1.board, i, j) ==> s1.board[i][j].state == s0.board[i][j].state
    requires forall i, j :: InGrid(s1.board, i, j) && Near(ar, ac, i, j) ==> s1.board[i][j].kind != Mine
    requires s2.difficulty == s1.difficulty && s2.stage == Playing && Filled(s1.board, s2.board)
    requires s2.flagsLeft == s1.flagsLeft + Count(s1.board, IsFlagged) - Count(s2.board, IsFlagged)
    ensures ValidState(s2) && SameShape(s0.board, s2.board)
    ensures forall i, j :: InGrid(s2.board, i, j) && Near(ar, ac, i, j) ==> s2.board[i][j].kind != Mine
    ensures forall i, j :: InGrid(s2.board, i, j) && s2.board[i][j].kind == Mine ==>
      s2.board[i][j].state == s0.board[i][j].state
  {
    StartedValid(s0, s1);
    FloodKeepsValid(s1, s2);
    FilledFacts(s1.board, s2.board);
  }

  /** The placements "start" reads: n entries of which the first m are true, shuffled
      under the draws picks. */
  function Placements(n: nat, m: nat, picks: seq<int>): seq<bool>
    requires ValidPicks(picks, n)
  {
    ShuffleDown(seq(n, i => i < m), picks, n - 1)
  }

  /** Builds the placements "start" shuffles; exactly min(n, m) of them are true. */
  method MinePlacements(n: nat, m: nat, picks: seq<int>) returns (a: array<bool>)
    requires ValidPicks(picks, n)
    ensures fresh(a) && a.Length == n
    ensures a[..] == Placements(n, m, picks)
    ensures multiset(a[..])[true] == Min(n, m)
  {
    a := new bool[n](i => i < m);
    assert a[..] == seq(n, i => i < m);
    InitialPlacements(n, m);
    a := ShuffledArray(a, picks);
  }

  /** What the two passes of "start" leave: the mines of the first pass, none near the
      click, and the click itself a 0. */
  lemma LaidFacts(b0: Grid, placed: Grid, b: Grid, ar: int, ac: int)
    requires Rectangular(b0) && MinedAway(b0, placed, ar, ac)
    requires forall i, j :: InGrid(b0, i, j) ==> b0[i][j].kind == Number(0)
    requires SameShape(placed, b) && Rectangular(b) && SameMines(placed, b) && NumbersMatch(b)
    ensures Count(b, IsMine) == Count(placed, IsMine)
    ensures forall i, j :: InGrid(b, i, j) && Near(ar, ac, i, j) ==> b[i][j].kind != Mine
    ensures InGrid(b, ar, ac) ==> b[ar][ac].kind == Number(0)
  {
    MinedAwayFacts(b0, placed, ar, ac);
    CountCongruent(placed, b, IsMine, IsMine);
    if InGrid(b, ar, ac) {
      NoMinesAroundZero(b, ar, ac);
    }
  }

  /** The transfer of the fill's facts from the board it ran on (b1, after the two
      passes) to the board before "start" (b0), whose tile states b1 kept, and the
      consequence that the whole mine-free block around the click is revealed. */
  lemma StartFill(b0: Grid, b1: Grid, b: Grid, ar: int, ac: int)
    requires Rectangular(b0) && Rectangular(b1) && SameShape(b0, b1)
    requires forall i, j :: InGrid(b1, i, j) ==> b1[i][j].state == b0[i][j].state
    requires InGrid(b1, ar, ac) && b0[ar][ac].state == Unflagged && b1[ar][ac].kind == Number(0)
    requires forall i, j :: InGrid(b1, i, j) && Near(ar, ac, i, j) ==> b1[i][j].kind != Mine
    requires Filled(b1, b) && Closed(b1, b, []) && b[ar][ac].state == Revealed
    requires forall i, j :: NewlyRevealed(b1, b, i, j) ==> Reached(b1, b, ar, ac, i, j)
    ensures Count(b1, IsFlagged) == Count(b0, IsFlagged)
    ensures forall i, j :: InGrid(b, i, j) ==>
      b[i][j].kind == b1[i][j].kind &&
      (b[i][j].state == b0[i][j].state || (b[i][j].kind != Mine && b[i][j].state == Revealed))
    ensures SameShape(b0, b) && Closed(b0, b, [])
    ensures forall i, j :: NewlyRevealed(b0, b, i, j) ==> Reached(b0, b, ar, ac, i, j)
    ensures forall i, j :: InGrid(b, i, j) && Near(ar, ac, i, j) ==> b[i][j].state == Revealed
  {
    CountCongruent(b1, b0, IsFlagged, IsFlagged);
    assert forall i, j :: NewlyRevealed(b0, b, i, j) <==> NewlyRevealed(b1, b, i, j);
    assert forall i, j :: OpenedZero(b0, b, i, j) <==> OpenedZero(b1, b, i, j);
    forall i, j | NewlyRevealed(b0, b, i, j)
      ensures Reached(b0, b, ar, ac, i, j)
    {
      assert Reached(b1, b, ar, ac, i, j);
    }
    forall i, j | InGrid(b, i, j) && Near(ar, ac, i, j) && (i != ar || j != ac)
      ensures b[i][j].state == Revealed
    {
      assert Adjacent(ar, ac, i, j);
      assert Covered(b, [], i, j);
    }
  }

  /** What the two passes of "start" make of the board b0 of difficulty d: the same
      shape and tile states, numMines mines exactly where the shuffled placements put
      them, none near the click (ar, ac), and every tile numbered. */
  ghost predicate Laid(b0: Grid, b: Grid, d: Difficulty, ar: int, ac: int, picks: seq<int>)
  {
    var cfg := GetGameConfig(d);
    SameShape(b0, b) && Rectangular(b) &&
    Count(b, IsMine) == cfg.numMines && NumbersMatch(b) &&
    (forall i, j :: InGrid(b, i, j) ==> b[i][j].state == b0[i][j].state) &&
    (forall i, j :: InGrid(b, i, j) && Near(ar, ac, i, j) ==> b[i][j].kind != Mine) &&
    (InGrid(b, ar, ac) ==> b[ar][ac].kind == Number(0)) &&
    ValidPicks(picks, cfg.width * cfg.height - 9) &&
    forall i, j :: InGrid(b, i, j) ==>
      (b[i][j].kind == Mine <==>
        MineSlot(Placements(cfg.width * cfg.height - 9, cfg.numMines, picks), ar, ac, cfg.width, i, j))
  }

  /** The two passes and the fill of "start" together give its outcome. */
  lemma StartDone(s0: MsGameState, s1: MsGameState, s2: MsGameState, ar: int, ac: int, picks: seq<int>)
    requires ValidState(s0) && s0.stage == Start && InGrid(s0.board, ar, ac) && s0.board[ar][ac].state == Unflagged
    requires s1.difficulty == s0.difficulty && s1.flagsLeft == s0.flagsLeft && s1.stage == Playing
    requires Laid(s0.board, s1.board, s0.difficulty, ar, ac, picks)
    requires s2.difficulty == s1.difficulty && s2.stage == Playing && Filled(s1.board, s2.board)
    requires SameShape(s1.board, s2.board) && Rectangular(s2.board) && s2.board[ar][ac].state == Revealed
    requires Closed(s1.board, s2.board, [])
    requires forall i, j :: NewlyRevealed(s1.board, s2.board, i, j) ==> Reached(s1.board, s2.board, ar, ac, i, j)
    requires s2.flagsLeft == s1.flagsLeft + Count(s1.board, IsFlagged) - Count(s2.board, IsFlagged)
    ensures ValidState(s2) && StartOutcome(s0, s2, ar, ac, picks)
  {
    StartFinished(s0, s1, s2, ar, ac);
    StartOutcomeOf(s0, s1, s2, ar, ac, picks);
  }

  /** The outcome of "start" from the passes and the fill, without the invariant. */
  lemma StartOutcomeOf(s0: MsGameState, s1: MsGameState, s2: MsGameState, ar: int, ac: int, picks: seq<int>)
    requires Rectangular(s0.board) && InGrid(s0.board, ar, ac) && s0.board[ar][ac].state == Unflagged
    requires s1.difficulty == s0.difficulty && s1.flagsLeft == s0.flagsLeft
    requires Laid(s0.board, s1.board, s0.difficulty, ar, ac, picks)
    requires s2.difficulty == s1.difficulty && s2.stage == Playing && Filled(s1.board, s2.board)
    requires SameShape(s1.board, s2.board) && Rectangular(s2.board) && s2.board[ar][ac].state == Revealed
    requires Closed(s1.board, s2.board, [])
    requires forall i, j :: NewlyRevealed(s1.board, s2.board, i, j) ==> Reached(s1.board, s2.board, ar, ac, i, j)
    requires s2.flagsLeft == s1.flagsLeft + Count(s1.board, IsFlagged) - Count(s2.board, IsFlagged)
    ensures StartOutcome(s0, s2, ar, ac, picks)
  {
    StartFill(s0.board, s1.board, s2.board, ar, ac);
  }

  /** What "start" at (ar, ac) under the draws picks makes of the state s0: stage
      "playing"; a mine exactly where the shuffled placements put one, so none near
      the click; the click a revealed 0, and the whole block around it revealed; and
      the flood fill's effect on the tile states, with the flags it hands back. */
  ghost predicate StartOutcome(s0: MsGameState, s: MsGameState, ar: int, ac: int, picks: seq<int>)
  {
    var cfg := GetGameConfig(s0.difficulty);
    Rectangular(s0.board) && Rectangular(s.board) && SameShape(s0.board, s.board) && InGrid(s.board, ar, ac) &&
    ValidPicks(picks, cfg.width * cfg.height - 9) &&
    s.difficulty == s0.difficulty && s.stage == Playing &&
    s.flagsLeft == s0.flagsLeft + Count(s0.board, IsFlagged) - Count(s.board, IsFlagged) &&
    (forall i, j :: InGrid(s.board, i, j) ==>
      (s.board[i][j].kind == Mine <==>
        MineSlot(Placements(cfg.width * cfg.height - 9, cfg.numMines, picks), ar, ac, cfg.width, i, j))) &&
    (forall i, j :: InGrid(s.board, i, j) && Near(ar, ac, i, j) ==>
      s.board[i][j].kind != Mine && s.board[i][j].state == Revealed) &&
    s.board[ar][ac] == Tile(Number(0), Revealed) &&
    (forall i, j :: InGrid(s.board, i, j) ==>
      s.board[i][j].state == s0.board[i][j].state || (s.board[i][j].kind != Mine && s.board[i][j].state == Revealed)) &&
    Closed(s0.board, s.board, []) &&
    (forall i, j :: NewlyRevealed(s0.board, s.board, i, j) ==> Reached(s0.board, s.board, ar, ac, i, j))
  }

  /** What "reveal tile" at (r, c) makes of the state s0. On a mine: the loss sweep.
      Otherwise: the tile is revealed, by a closed flood fill that only 0s spread when
      it is a 0 and alone when it is any other number; the flags revealed come back;
      and the game is won exactly when every safe tile is revealed. */
  ghost predicate RevealOutcome(s0: MsGameState, s: MsGameState, r: int, c: int)
  {
    Rectangular(s0.board) && InGrid(s0.board, r, c) && Rectangular(s.board) && SameShape(s0.board, s.board) &&
    s.difficulty == s0.difficulty &&
    (s0.board[r][c].kind == Mine ==>
      s.stage == Lost && s.flagsLeft == s0.flagsLeft && s.board[r][c] == s0.board[r][c].(state := ClickedMine) &&
      forall i, j :: InGrid(s.board, i, j) && (i != r || j != c) ==> s.board[i][j] == Swept(s0.board[i][j])) &&
    (s0.board[r][c].kind != Mine ==>
      s.board[r][c].state == Revealed && Filled(s0.board, s.board) &&
      s.flagsLeft == s0.flagsLeft + Count(s0.board, IsFlagged) - Count(s.board, IsFlagged) &&
      (s.stage == Won <==> AllSafeRevealed(s.board)) && (s.stage == Won || s.stage == Playing)) &&
    (s0.board[r][c].kind == Number(0) ==>
      Closed(s0.board, s.board, []) &&
      forall i, j :: NewlyRevealed(s0.board, s.board, i, j) ==> Reached(s0.board, s.board, r, c, i, j)) &&
    (s0.board[r][c].kind != Mine && s0.board[r][c].kind != Number(0) ==>
      s.board == Set(s0.board, r, c, Tile(s0.board[r][c].kind, Revealed)))
  }

  class Game {
    var difficulty: Difficulty
    var board: Grid
    var flagsLeft: int
    var stage: Stage

    ghost function State(): MsGameState
      reads this
    {
      MsGameState(difficulty, board, flagsLeft, stage)
    }

    ghost predicate Valid()
      reads this
    {
      ValidState(State())
    }

    /** The host creates the state with a fresh game of the given difficulty. */
    constructor (d: Difficulty)
      ensures State() == NewMsGame(d) && Valid()
    {
      var s := NewMsGame(d);
      difficulty, board, flagsLeft, stage := s.difficulty, s.board, s.flagsLeft, s.stage;
    }

    /** "new game": replaces the whole state by a fresh game, from any stage. */
    method HandleNewGame(d: Difficulty)
      modifies this
      ensures State() == NewMsGame(d) && Valid()
    {
      var newState := NewMsGame(d);
      board := newState.board;
      flagsLeft := newState.flagsLeft;
      stage := newState.stage;
      difficulty := newState.difficulty;
    }

    /** "toggle flag": a flagged tile becomes unflagged and gives its flag back;
        any other tile becomes flagged and takes one. */
    method HandleToggleFlag(r: int, c: int)
      requires Valid() && Dispatchable(State(), ToggleFlag(r, c))
      modifies this
      ensures State() == Toggled(old(State()), r, c) && Valid()
    {
      ToggledValid(State(), r, c);
      if board[r][c].state == Flagged {
        board := Set(board, r, c, board[r][c].(state := Unflagged));
        flagsLeft := flagsLeft + 1;
      } else {
        board := Set(board, r, c, board[r][c].(state := Flagged));
        flagsLeft := flagsLeft - 1;
      }
    }


    /** Ends the game after a click on the mine at (r, c): every unflagged mine is
        shown, every flag on a safe tile is marked wrong, and the clicked tile is
        marked as the mine that was hit. */
    method OnMineClicked(r: int, c: int)
      requires Rectangular(board) && InGrid(board, r, c)
      modifies this
      ensures stage == Lost && difficulty == old(difficulty) && flagsLeft == old(flagsLeft)
      ensures SameShape(old(board), board) && Rectangular(board)
      ensures board[r][c] == old(board[r][c]).(state := ClickedMine)
      ensures forall i, j :: InGrid(board, i, j) && (i != r || j != c) ==> board[i][j] == Swept(old(board[i][j]))
    {
      ghost var b0: Grid := board;
      stage := Lost;
      for i := 0 to |board|
        modifies this`board
        invariant SameShape(b0, board)
        invariant forall p, q :: InGrid(b0, p, q) ==> board[p][q] == if p < i then Swept(b0[p][q]) else b0[p][q]
      {
        for j := 0 to |board[0]|
          modifies this`board
          invariant SameShape(b0, board)
          invariant forall p, q :: InGrid(b0, p, q) ==>
            board[p][q] == if p < i || (p == i && q < j) then Swept(b0[p][q]) else b0[p][q]
        {
          if board[i][j].kind == Mine && board[i][j].state == Unflagged {
            board := Set(board, i, j, board[i][j].(state := Revealed));
          }
          if board[i][j].kind != Mine && board[i][j].state == Flagged {
            board := Set(board, i, j, board[i][j].(state := FlaggedIncorrectly));
          }
        }
      }
      board := Set(board, r, c, board[r][c].(state := ClickedMine));
    }

    /** Flood fill from (r0, c0): pops cells off a queue, skips mines and revealed
        tiles, hands back the flag of a flagged tile, reveals it, and queues the
        neighbours of every 0 it reveals. */
    method RevealEmptyTile(r0: int, c0: int)
      requires Rectangular(board) && InGrid(board, r0, c0)
      modifies this`board, this`flagsLeft
      ensures SameShape(old(board), board) && Rectangular(board)
      ensures forall i, j :: InGrid(board, i, j) ==> FillStep(old(board[i][j]), board[i][j])
      ensures old(board[r0][c0].kind) != Mine ==> board[r0][c0].state == Revealed
      ensures Closed(old(board), board, [])
      ensures forall i, j :: NewlyRevealed(old(board), board, i, j) ==> Reached(old(board), board, r0, c0, i, j)
      ensures flagsLeft == old(flagsLeft) + Count(old(board), IsFlagged) - Count(board, IsFlagged)
    {
      ghost var b0: Grid := board;
      var queue: seq<(int, int)> := [(r0, c0)];
      while |queue| > 0
        invariant FloodInv(b0, board, queue, r0, c0)
        invariant Supported(b0, board, queue, r0, c0)
        invariant flagsLeft == old(flagsLeft) + Count(b0, IsFlagged) - Count(board, IsFlagged)
        decreases Count(board, HiddenSafe), |queue|
      {
        queue := FloodStep(b0, queue, r0, c0);
      }
    }

    /** One turn of the flood fill's loop: pops the front cell; a mine or a revealed
        tile is skipped; otherwise a flag on it is handed back, it is revealed, and if
        it is a 0 its neighbours are queued. */
    method FloodStep(ghost b0: Grid, queue: seq<(int, int)>, ghost r0: int, ghost c0: int)
      returns (queue': seq<(int, int)>)
      requires |queue| > 0 && FloodInv(b0, board, queue, r0, c0) && Supported(b0, board, queue, r0, c0)
      modifies this`board, this`flagsLeft
      ensures FloodInv(b0, board, queue', r0, c0) && Supported(b0, board, queue', r0, c0)
      ensures flagsLeft == old(flagsLeft) + Count(old(board), IsFlagged) - Count(board, IsFlagged)
      ensures Count(board, HiddenSafe) < Count(old(board), HiddenSafe) ||
        (board == old(board) && |queue'| < |queue|)
    {
      var r, c := queue[0].0, queue[0].1;
      queue' := queue[1..];
      if board[r][c].kind == Mine || board[r][c].state == Revealed {
        PopStep(b0, board, queue, r0, c0);
        SupportPop(b0, board, queue, r0, c0);
        assert board == old(board) && flagsLeft == old(flagsLeft);
        return;
      }
      if board[r][c].state == Flagged {
        flagsLeft := flagsLeft + 1;
      }
      ghost var bOld := board;
      var t := board[r][c].(state := Revealed);
      CountUpdate(board, r, c, t, HiddenSafe);
      CountUpdate(board, r, c, t, IsFlagged);
      board := Set(board, r, c, t);
      assert !IsFlagged(t) && !HiddenSafe(t) && HiddenSafe(bOld[r][c]);
      ghost var bNew := board;
      ghost var fNew := flagsLeft;
      assert Count(bNew, HiddenSafe) < Count(bOld, HiddenSafe);
      assert fNew == old(flagsLeft) + Count(bOld, IsFlagged) - Count(bNew, IsFlagged);
      RevealStep(b0, bOld, board, queue, r, c, r0, c0);
      SupportReveal(b0, bOld, board, queue, r, c, r0, c0);
      if board[r][c].kind == Number(0) {
        var ns := GetIndexedNeighbors(board, r, c);
        ghost var q1 := queue';
        queue' := EnqueueCells(queue', ns);
        QueueGrown(b0, board, q1, r, c, r0, c0);
        SupportEnqueue(b0, board, q1, r, c, r0, c0);
      }
      assert board == bNew && flagsLeft == fNew;
    }

    /** The mine-placing loop of "start": walks the board in row-major order, skips
        the 3x3 block around (ar, ac), reads the next placement for every other tile
        and lays a mine where it is true, until the last mine is down. */
    method PlaceMines(ar: int, ac: int, minePlacements: array<bool>)
      requires Shaped(board, GetGameConfig(difficulty).height, GetGameConfig(difficulty).width)
      requires minePlacements.Length == GetGameConfig(difficulty).width * GetGameConfig(difficulty).height - 9
      requires multiset(minePlacements[..])[true] == GetGameConfig(difficulty).numMines
      requires forall i, j :: InGrid(board, i, j) ==> board[i][j].kind != Mine
      modifies this`board
      ensures MinedAway(old(board), board, ar, ac)
      ensures LaidFrom(old(board), board, minePlacements[..], ar, ac)
      ensures Count(board, IsMine) == GetGameConfig(difficulty).numMines
    {
      var cfg := GetGameConfig(difficulty);
      ghost var b0: Grid := board;
      ghost var p := minePlacements[..];
      var minesPlaced := 0;
      var tilesVisited := 0;
      ghost var skipped := 0;
      PlaceStart(b0, p, ar, ac);
      SlotsStart(b0, p, ar, ac);
      TruesCount(p);
      for r := 0 to cfg.height
        invariant Placing(b0, board, minePlacements[..], ar, ac, r, tilesVisited, skipped, minesPlaced)
        invariant minesPlaced < cfg.numMines
      {
        tilesVisited, minesPlaced, skipped :=
          PlaceRow(b0, ar, ac, r, minePlacements, cfg.numMines, tilesVisited, minesPlaced, skipped);
        if minesPlaced == cfg.numMines {
          break;
        }
      }
      if minesPlaced < cfg.numMines {
        assert |b0| == cfg.height && Width(b0) == cfg.width;
        Exhausted(b0, board, p, ar, ac, tilesVisited, skipped, minesPlaced);
        assert false;
      }
    }

    /** The inner loop of the mine-placing loop, over the cells of row r. It stops
        early, as the labelled break does, once the last mine is down. */
    method PlaceRow(ghost b0: Grid, ar: int, ac: int, r: int, minePlacements: array<bool>, numMines: nat,
                    tilesVisited: int, minesPlaced: int, ghost skipped: int)
      returns (tilesVisited': int, minesPlaced': int, ghost skipped': int)
      requires Placing(b0, board, minePlacements[..], ar, ac, r, tilesVisited, skipped, minesPlaced)
      requires 0 <= r < |b0| && Width(b0) == GetGameConfig(difficulty).width
      requires Trues(minePlacements[..]) == numMines && minesPlaced < numMines
      modifies this`board
      ensures minesPlaced' <= numMines
      ensures minesPlaced' < numMines ==>
        Placing(b0, board, minePlacements[..], ar, ac, r + 1, tilesVisited', skipped', minesPlaced')
      ensures minesPlaced' == numMines ==> PlacedAll(b0, board, minePlacements[..], ar, ac, numMines)
    {
      var cfg := GetGameConfig(difficulty);
      ghost var p := minePlacements[..];
      tilesVisited', minesPlaced', skipped' := tilesVisited, minesPlaced, skipped;
      for c := 0 to cfg.width
        invariant PlaceInv(b0, board, p, ar, ac, r, c, tilesVisited', skipped', minesPlaced')
        invariant SlotsRead(b0, board, p, ar, ac, r, c, tilesVisited', skipped')
        invariant minesPlaced' < numMines
      {
        tilesVisited', minesPlaced', skipped' :=
          VisitTile(b0, ar, ac, r, c, minePlacements, numMines, tilesVisited', minesPlaced', skipped');
        if minesPlaced' == numMines {
          return;
        }
      }
      NextRow(b0, board, p, ar, ac, r, tilesVisited', skipped', minesPlaced');
      SlotsNextRow(b0, board, p, ar, ac, r, tilesVisited', skipped');
    }

    /** One step of the mine-placing loop at (r, c): a tile near the click is passed
        over; any other tile reads the next placement and becomes a mine if it is true. */
    method VisitTile(ghost b0: Grid, ar: int, ac: int, r: int, c: int, minePlacements: array<bool>, numMines: nat,
                     tilesVisited: int, minesPlaced: int, ghost skipped: int)
      returns (tilesVisited': int, minesPlaced': int, ghost skipped': int)
      requires PlaceInv(b0, board, minePlacements[..], ar, ac, r, c, tilesVisited, skipped, minesPlaced)
      requires SlotsRead(b0, board, minePlacements[..], ar, ac, r, c, tilesVisited, skipped)
      requires 0 <= r < |b0| && c < Width(b0)
      requires Trues(minePlacements[..]) == numMines && minesPlaced < numMines
      modifies this`board
      ensures Near(ar, ac, r, c) ==>
        board == old(board) && tilesVisited' == tilesVisited && minesPlaced' == minesPlaced
      ensures !Near(ar, ac, r, c) ==>
        tilesVisited < minePlacements.Length && tilesVisited' == tilesVisited + 1 &&
        board == (if minePlacements[tilesVisited] then Set(old(board), r, c, old(board[r][c]).(kind := Mine)) else old(board)) &&
        minesPlaced' == minesPlaced + (if minePlacements[tilesVisited] then 1 else 0)
      ensures PlaceInv(b0, board, minePlacements[..], ar, ac, r, c + 1, tilesVisited', skipped', minesPlaced')
      ensures SlotsRead(b0, board, minePlacements[..], ar, ac, r, c + 1, tilesVisited', skipped')
      ensures minesPlaced <= minesPlaced' <= numMines
      ensures minesPlaced' == numMines ==>
        MinedAway(b0, board, ar, ac) && Count(board, IsMine) == numMines && LaidFrom(b0, board, minePlacements[..], ar, ac)
    {
      ghost var p := minePlacements[..];
      tilesVisited', minesPlaced', skipped' := tilesVisited, minesPlaced, skipped;
      if -1 <= ar - r <= 1 && -1 <= ac - c <= 1 {
        SkipNear(b0, board, p, ar, ac, r, c, tilesVisited, skipped, minesPlaced);
        SlotsSkip(b0, board, p, ar, ac, r, c, tilesVisited, skipped);
        skipped' := skipped + 1;
        return;
      }
      PlacementsLeft(p, tilesVisited, minesPlaced, numMines);
      ghost var bOld := board;
      if minePlacements[tilesVisited] {
        LayMine(b0, board, p, ar, ac, r, c, tilesVisited, skipped, minesPlaced);
        board := Set(board, r, c, board[r][c].(kind := Mine));
        minesPlaced' := minesPlaced + 1;
      } else {
        ReadNoMine(b0, board, p, ar, ac, r, c, tilesVisited, skipped, minesPlaced);
      }
      SlotsVisit(b0, bOld, board, p, ar, ac, r, c, tilesVisited, skipped);
      tilesVisited' := tilesVisited + 1;
      if minesPlaced' == numMines {
        SlotsFinished(b0, board, p, ar, ac, r, c + 1, tilesVisited', skipped', minesPlaced');
      }
    }

    /** The second pass of "start": every tile that is no mine gets the number of mines around it. */
    method FillNumbers()
      requires Shaped(board, GetGameConfig(difficulty).height, GetGameConfig(difficulty).width)
      modifies this`board
      ensures SameShape(old(board), board) && Rectangular(board)
      ensures SameMines(old(board), board)
      ensures forall i, j :: InGrid(board, i, j) ==> board[i][j].state == old(board[i][j].state)
      ensures NumbersMatch(board)
    {
      var cfg := GetGameConfig(difficulty);
      ghost var b0: Grid := board;
      for r := 0 to cfg.height
        invariant Shaped(board, cfg.height, cfg.width) && NumberedBefore(b0, board, r, 0)
      {
        for c := 0 to cfg.width
          invariant Shaped(board, cfg.height, cfg.width) && NumberedBefore(b0, board, r, c)
        {
          NumberStep(b0, board, r, c);
          if board[r][c].kind != Mine {
            var n := NumAdjacentMines(board, r, c);
            AdjacentMinesSameMines(b0, board, r, c);
            board := Set(board, r, c, board[r][c].(kind := Number(n)));
          }
        }
        NumberedRow(b0, board, r);
      }
      NumberedAll(b0, board);
    }

    /** "start": the game enters the playing stage, mines are laid away from the
        clicked tile (ar, ac) following the shuffled placements, every other tile gets
        its number, and the clicked tile is revealed by a flood fill. The shuffle's
        random draws are the parameter picks. */
    method HandleStart(ar: int, ac: int, picks: seq<int>)
      requires Valid() && Dispatchable(State(), StartGame(ar, ac))
      requires ValidPicks(picks, GetGameConfig(difficulty).width * GetGameConfig(difficulty).height - 9)
      modifies this
      ensures Valid() && StartOutcome(old(State()), State(), ar, ac, picks)
    {
      ghost var s0 := State();
      stage := Playing;
      LayMines(ar, ac, picks);
      ghost var s1 := State();
      RevealEmptyTile(ar, ac);
      StartDone(s0, s1, State(), ar, ac, picks);
    }

    /** The two passes of "start" before the click: the shuffled placements decide
        where the mines go, away from (ar, ac), then every other tile gets its number. */
    method LayMines(ar: int, ac: int, picks: seq<int>)
      requires Shaped(board, GetGameConfig(difficulty).height, GetGameConfig(difficulty).width)
      requires forall i, j :: InGrid(board, i, j) ==> board[i][j].kind == Number(0)
      requires ValidPicks(picks, GetGameConfig(difficulty).width * GetGameConfig(difficulty).height - 9)
      modifies this`board
      ensures Laid(old(board), board, difficulty, ar, ac, picks)
    {
      var cfg := GetGameConfig(difficulty);
      var minePlacements := MinePlacements(cfg.width * cfg.height - 9, cfg.numMines, picks);
      ghost var b0: Grid := board;
      PlaceMines(ar, ac, minePlacements);
      ghost var placed: Grid := board;
      FillNumbers();
      LaidFacts(b0, placed, board, ar, ac);
      LaidMines(b0, placed, board, minePlacements[..], ar, ac);
    }

    /** "reveal tile": a mine loses the game; a 0 starts a flood fill; any other
        number is revealed alone. Unless the game is lost, it is won exactly when the
        unrevealed tiles are as many as the mines. */
    method HandleReveal(r: int, c: int)
      requires Valid() && Dispatchable(State(), RevealTile(r, c))
      modifies this
      ensures Valid() && RevealOutcome(old(State()), State(), r, c)
    {
      if board[r][c].kind == Mine {
        ghost var s0 := State();
        OnMineClicked(r, c);
        LossKeepsValid(s0, State(), r, c);
      } else {
        RevealSafe(r, c);
      }
    }

    /** The branch of "reveal tile" for a tile that is no mine, with the win check. */
    method RevealSafe(r: int, c: int)
      requires Valid() && stage == Playing && InGrid(board, r, c)
      requires board[r][c].kind != Mine && board[r][c].state == Unflagged
      modifies this`board, this`flagsLeft, this`stage
      ensures Valid() && SameShape(old(board), board) && Rectangular(board)
      ensures board[r][c].state == Revealed && Filled(old(board), board)
      ensures flagsLeft == old(flagsLeft) + Count(old(board), IsFlagged) - Count(board, IsFlagged)
      ensures (stage == Won <==> AllSafeRevealed(board)) && (stage == Won || stage == Playing)
      ensures old(board[r][c].kind) == Number(0) ==> Closed(old(board), board, [])
      ensures old(board[r][c].kind) == Number(0) ==>
        forall i, j :: NewlyRevealed(old(board), board, i, j) ==> Reached(old(board), board, r, c, i, j)
      ensures old(board[r][c].kind) != Number(0) ==> board == Set(old(board), r, c, Tile(old(board[r][c].kind), Revealed))
    {
      var cfg := GetGameConfig(difficulty);
      ghost var s0 := State();
      RevealAt(r, c);
      FloodKeepsValid(s0, State());
      WinCheck(State());
      var unrevealed := NumUnrevealedTiles(board);
      if unrevealed == cfg.numMines {
        stage := Won;
      }
    }

    /** Reveals the safe, unflagged tile at (r, c): a 0 by the flood fill, any other number alone. */
    method RevealAt(r: int, c: int)
      requires Rectangular(board) && InGrid(board, r, c)
      requires board[r][c].kind != Mine && board[r][c].state == Unflagged
      modifies this`board, this`flagsLeft
      ensures SameShape(old(board), board) && Rectangular(board)
      ensures board[r][c].state == Revealed && Filled(old(board), board)
      ensures flagsLeft == old(flagsLeft) + Count(old(board), IsFlagged) - Count(board, IsFlagged)
      ensures old(board[r][c].kind) == Number(0) ==> Closed(old(board), board, [])
      ensures old(board[r][c].kind) == Number(0) ==>
        forall i, j :: NewlyRevealed(old(board), board, i, j) ==> Reached(old(board), board, r, c, i, j)
      ensures old(board[r][c].kind) != Number(0) ==> board == Set(old(board), r, c, Tile(old(board[r][c].kind), Revealed))
    {
      if board[r][c].kind == Number(0) {
        RevealEmptyTile(r, c);
      } else {
        var t := board[r][c].(state := Revealed);
        CountUpdate(board, r, c, t, IsFlagged);
        board := Set(board, r, c, t);
      }
    }

    /** Applies one action the board component lets through. The picks are the
        shuffle's random draws; only "start" reads them. */
    method MsReducer(action: Action, picks: seq<int>)
      requires Valid() && Dispatchable(State(), action)
      requires action.StartGame? ==>
        ValidPicks(picks, GetGameConfig(difficulty).width * GetGameConfig(difficulty).height - 9)
      modifies this
      ensures Valid()
      ensures action.NewGame? ==> State() == NewMsGame(action.difficulty)
      ensures action.ToggleFlag? ==> State() == Toggled(old(State()), action.row, action.col)
      ensures action.StartGame? ==> StartOutcome(old(State()), State(), action.row, action.col, picks)
      ensures action.RevealTile? ==> RevealOutcome(old(State()), State(), action.row, action.col)
    {
      match action
      case RevealTile(r, c) => HandleReveal(r, c);
      case ToggleFlag(r, c) => HandleToggleFlag(r, c);
      case StartGame(r, c) => HandleStart(r, c, picks);
      case NewGame(d) => HandleNewGame(d);
    }
  }
}
