/** The game's data model and the functions on boards that the engine's contracts
    are stated in. The types are those declared at the top of app/lib/minesweeper.ts:
    `MsTile` (lines 5-13) is `Tile`, with its `type` as `TileType` and its `state`
    as `TileState`; `MsGameState` (lines 21-26) is `MsGameState`, with its stage
    values as `Stage`; and the Prisma enum `Difficulty` is `Difficulty`. The counting
    helpers (`Count`, `AdjacentMines`) and the predicates `NumbersMatch` and
    `AllSafeRevealed` have no counterpart in the source: they are the vocabulary in
    which the engine's effects are stated. */
module Board {
  import opened Utils

  datatype Difficulty = Easy | Medium | Hard

  datatype Config = Config(width: nat, height: nat, numMines: nat)

  /** A mine count around a cell. */
  type Digit = n: nat | n <= 8

  /** The source's `type` field: a mine, or the number of mines around the tile. */
  datatype TileType = Mine | Number(n: Digit)

  datatype TileState = Unflagged | Flagged | Revealed | FlaggedIncorrectly | ClickedMine

  datatype Tile = Tile(kind: TileType, state: TileState)

  /** Rows of tiles, row-major, 0-indexed. */
  type Grid = seq<seq<Tile>>

  datatype Stage = Start | Playing | Won | Lost

  datatype MsGameState = MsGameState(difficulty: Difficulty, board: Grid, flagsLeft: int, stage: Stage)

  predicate Shaped(b: Grid, height: nat, width: nat)
  {
    |b| == height && forall i :: 0 <= i < |b| ==> |b[i]| == width
  }

  predicate SameShape(b1: Grid, b2: Grid)
  {
    |b1| == |b2| && forall i :: 0 <= i < |b1| ==> |b1[i]| == |b2[i]|
  }

  /** Point update of the tile at (i, j). */
  function Set(b: Grid, i: nat, j: nat, t: Tile): (b': Grid)
    requires i < |b| && j < |b[i]|
    ensures SameShape(b, b') && b'[i][j] == t
    ensures forall p, q :: 0 <= p < |b| && 0 <= q < |b[p]| && (p != i || q != j) ==> b'[p][q] == b[p][q]
  {
    b[i := b[i][j := t]]
  }

  predicate IsMine(t: Tile) { t.kind == Mine }
  predicate NotRevealed(t: Tile) { t.state != Revealed }
  predicate IsFlagged(t: Tile) { t.state == Flagged }
  /** A flag shown on the board, right or wrong. */
  predicate HasFlag(t: Tile) { t.state == Flagged || t.state == FlaggedIncorrectly }
  /** A tile that is no mine and is not yet revealed. */
  predicate HiddenSafe(t: Tile) { t.kind != Mine && t.state != Revealed }

  // ---------------------------------------------------------------------------
  // Counting tiles

  function CountRow(row: seq<Tile>, p: Tile -> bool): nat
  {
    if row == [] then 0 else CountRow(row[..|row| - 1], p) + (if p(row[|row| - 1]) then 1 else 0)
  }

  /** The number of tiles of b that satisfy p. */
  function Count(b: Grid, p: Tile -> bool): nat
  {
    if b == [] then 0 else Count(b[..|b| - 1], p) + CountRow(b[|b| - 1], p)
  }

  /** Extending a prefix of a row by one tile. */
  lemma CountRowPrefix(row: seq<Tile>, k: nat, p: Tile -> bool)
    requires k < |row|
    ensures CountRow(row[..k + 1], p) == CountRow(row[..k], p) + (if p(row[k]) then 1 else 0)
  {
    assert row[..k + 1][..k] == row[..k];
  }

  /** Extending a prefix of a board by one row. */
  lemma CountPrefix(b: Grid, i: nat, p: Tile -> bool)
    requires i < |b|
    ensures Count(b[..i + 1], p) == Count(b[..i], p) + CountRow(b[i], p)
  {
    assert b[..i + 1][..i] == b[..i];
  }

  lemma {:induction false} CountRowAppend(a: seq<Tile>, b: seq<Tile>, p: Tile -> bool)
    ensures CountRow(a + b, p) == CountRow(a, p) + CountRow(b, p)
  {
    if b == [] {
      assert a + b == a;
    } else {
      assert (a + b)[..|a + b| - 1] == a + b[..|b| - 1];
      CountRowAppend(a, b[..|b| - 1], p);
    }
  }

  lemma {:induction false} CountRowUpdate(row: seq<Tile>, j: nat, t: Tile, p: Tile -> bool)
    requires j < |row|
    ensures CountRow(row[j := t], p) == CountRow(row, p) - (if p(row[j]) then 1 else 0) + (if p(t) then 1 else 0)
  {
    var n := |row| - 1;
    if j == n {
      assert row[j := t][..n] == row[..n];
    } else {
      assert row[j := t][..n] == row[..n][j := t];
      CountRowUpdate(row[..n], j, t, p);
    }
  }

  /** Changing one tile changes a count by what that tile contributed before and after. */
  lemma {:induction false} CountUpdate(b: Grid, i: nat, j: nat, t: Tile, p: Tile -> bool)
    requires i < |b| && j < |b[i]|
    ensures Count(Set(b, i, j, t), p) == Count(b, p) - (if p(b[i][j]) then 1 else 0) + (if p(t) then 1 else 0)
  {
    var n := |b| - 1;
    var b' := Set(b, i, j, t);
    if i == n {
      assert b'[..n] == b[..n];
      CountRowUpdate(b[i], j, t, p);
    } else {
      assert b'[..n] == Set(b[..n], i, j, t);
      CountUpdate(b[..n], i, j, t, p);
    }
  }

  lemma {:induction false} CountRowCongruent(r1: seq<Tile>, r2: seq<Tile>, p: Tile -> bool, q: Tile -> bool)
    requires |r1| == |r2| && forall j :: 0 <= j < |r1| ==> p(r1[j]) == q(r2[j])
    ensures CountRow(r1, p) == CountRow(r2, q)
  {
    if r1 != [] {
      CountRowCongruent(r1[..|r1| - 1], r2[..|r2| - 1], p, q);
    }
  }

  /** Two boards of one shape whose tiles agree, cell by cell, on p and q have equal counts. */
  lemma {:induction false} CountCongruent(b1: Grid, b2: Grid, p: Tile -> bool, q: Tile -> bool)
    requires SameShape(b1, b2)
    requires forall i, j :: 0 <= i < |b1| && 0 <= j < |b1[i]| ==> p(b1[i][j]) == q(b2[i][j])
    ensures Count(b1, p) == Count(b2, q)
  {
    if b1 != [] {
      var n := |b1| - 1;
      CountRowCongruent(b1[n], b2[n], p, q);
      CountCongruent(b1[..n], b2[..n], p, q);
    }
  }

  lemma {:induction false} CountRowZero(row: seq<Tile>, p: Tile -> bool)
    ensures CountRow(row, p) == 0 <==> forall j :: 0 <= j < |row| ==> !p(row[j])
  {
    if row != [] {
      CountRowZero(row[..|row| - 1], p);
    }
  }

  /** A count is zero exactly when no tile satisfies the predicate. */
  lemma {:induction false} CountZero(b: Grid, p: Tile -> bool)
    ensures Count(b, p) == 0 <==> forall i, j :: 0 <= i < |b| && 0 <= j < |b[i]| ==> !p(b[i][j])
  {
    if b != [] {
      var n := |b| - 1;
      CountRowZero(b[n], p);
      CountZero(b[..n], p);
      assert forall i :: 0 <= i < n ==> b[..n][i] == b[i];
    }
  }

  lemma {:induction false} CountRowSplit(row: seq<Tile>, p: Tile -> bool, q: Tile -> bool, s: Tile -> bool)
    requires forall j :: 0 <= j < |row| ==> (p(row[j]) <==> q(row[j]) || s(row[j])) && !(q(row[j]) && s(row[j]))
    ensures CountRow(row, p) == CountRow(row, q) + CountRow(row, s)
  {
    if row != [] {
      CountRowSplit(row[..|row| - 1], p, q, s);
    }
  }

  /** When p holds exactly where one of the disjoint q and s holds, its count is their sum. */
  lemma {:induction false} CountSplit(b: Grid, p: Tile -> bool, q: Tile -> bool, s: Tile -> bool)
    requires forall i, j :: 0 <= i < |b| && 0 <= j < |b[i]| ==>
      (p(b[i][j]) <==> q(b[i][j]) || s(b[i][j])) && !(q(b[i][j]) && s(b[i][j]))
    ensures Count(b, p) == Count(b, q) + Count(b, s)
  {
    if b != [] {
      var n := |b| - 1;
      CountRowSplit(b[n], p, q, s);
      assert forall i, j :: 0 <= i < n && 0 <= j < |b[..n][i]| ==>
        (p(b[..n][i][j]) <==> q(b[..n][i][j]) || s(b[..n][i][j])) && !(q(b[..n][i][j]) && s(b[..n][i][j]));
      CountSplit(b[..n], p, q, s);
    }
  }

  // ---------------------------------------------------------------------------
  // Mines around a cell

  /** 1 when (r, c) lies on the board and holds a mine, otherwise 0. */
  function MineAt(b: Grid, r: int, c: int): nat
    requires Rectangular(b)
  {
    if InGrid(b, r, c) && b[r][c].kind == Mine then 1 else 0
  }

  /** The number of mines among the up to eight cells around (r, c) that lie on the board. */
  function AdjacentMines(b: Grid, r: int, c: int): Digit
    requires Rectangular(b)
  {
    MineAt(b, r - 1, c - 1) + MineAt(b, r - 1, c) + MineAt(b, r - 1, c + 1) +
    MineAt(b, r, c - 1) + MineAt(b, r, c + 1) +
    MineAt(b, r + 1, c - 1) + MineAt(b, r + 1, c) + MineAt(b, r + 1, c + 1)
  }

  /** b1 and b2 have the same shape and the same mines. */
  ghost predicate SameMines(b1: Grid, b2: Grid)
  {
    SameShape(b1, b2) &&
    forall i, j :: 0 <= i < |b1| && 0 <= j < |b1[i]| ==> (b1[i][j].kind == Mine <==> b2[i][j].kind == Mine)
  }

  /** Adjacency counts depend on the mine layout only. */
  lemma AdjacentMinesSameMines(b1: Grid, b2: Grid, r: int, c: int)
    requires Rectangular(b1) && Rectangular(b2) && SameMines(b1, b2)
    ensures AdjacentMines(b1, r, c) == AdjacentMines(b2, r, c)
  {
    assert |b1| > 0 ==> |b1[0]| == |b2[0]|;
  }

  lemma CountValsAppend(a: seq<Neighbor<Tile>>, b: seq<Neighbor<Tile>>, p: Tile -> bool)
    ensures CountRow(Vals(a + b), p) == CountRow(Vals(a), p) + CountRow(Vals(b), p)
  {
    ValsAppend(a, b);
    CountRowAppend(Vals(a), Vals(b), p);
  }

  /** What the offset (dr, dc) adds to the adjacency count. */
  function CandidateMine(b: Grid, r: int, c: int, dr: int, dc: int): nat
    requires Rectangular(b)
  {
    if dr == 0 && dc == 0 then 0 else MineAt(b, r + dr, c + dc)
  }

  /** What the offsets of row offset dr before dc add to the adjacency count. */
  function PrefixMines(b: Grid, r: int, c: int, dr: int, dc: int): nat
    requires Rectangular(b)
    decreases dc + 1
  {
    if dc <= -1 then 0 else PrefixMines(b, r, c, dr, dc - 1) + CandidateMine(b, r, c, dr, dc - 1)
  }

  lemma {:induction false} RowPrefixMines(b: Grid, r: int, c: int, dr: int, dc: int)
    requires Rectangular(b)
    ensures CountRow(Vals(RowPrefix(b, r, c, dr, dc)), IsMine) == PrefixMines(b, r, c, dr, dc)
    decreases dc + 1
  {
    if dc > -1 {
      RowPrefixMines(b, r, c, dr, dc - 1);
      var a, cand := RowPrefix(b, r, c, dr, dc - 1), Candidate(b, r, c, dr, dc - 1);
      assert RowPrefix(b, r, c, dr, dc) == a + cand;
      CountValsAppend(a, cand, IsMine);
      CandidateMineCount(b, r, c, dr, dc - 1);
    }
  }

  lemma CandidateMineCount(b: Grid, r: int, c: int, dr: int, dc: int)
    requires Rectangular(b)
    ensures CountRow(Vals(Candidate(b, r, c, dr, dc)), IsMine) == CandidateMine(b, r, c, dr, dc)
  {
    var cand := Candidate(b, r, c, dr, dc);
    if cand != [] {
      assert Vals(cand) == [] + [cand[0].val];
    }
  }

  /** The mines among a cell's neighbour values are exactly its adjacency count. */
  lemma MinesAmongNeighbors(b: Grid, r: int, c: int)
    requires Rectangular(b) && InGrid(b, r, c)
    ensures CountRow(GetNeighbors(b, r, c), IsMine) == AdjacentMines(b, r, c)
  {
    var a0 := RowPrefix(b, r, c, -1, 2);
    var a1 := RowPrefix(b, r, c, 0, 2);
    var a2 := RowPrefix(b, r, c, 1, 2);
    RowPrefixMines(b, r, c, -1, 2);
    RowPrefixMines(b, r, c, 0, 2);
    RowPrefixMines(b, r, c, 1, 2);
    assert RowsBefore(b, r, c, 2) == [] + a0 + a1 + a2;
    assert [] + a0 == a0;
    CountValsAppend(a0, a1, IsMine);
    CountValsAppend(a0 + a1, a2, IsMine);
    forall dr | -1 <= dr <= 1
      ensures PrefixMines(b, r, c, dr, 2) ==
        CandidateMine(b, r, c, dr, -1) + CandidateMine(b, r, c, dr, 0) + CandidateMine(b, r, c, dr, 1)
    {
      assert PrefixMines(b, r, c, dr, 0) == CandidateMine(b, r, c, dr, -1);
    }
  }

  /** A cell with no mine anywhere in its 3x3 block has adjacency count 0. */
  lemma NoMinesAroundZero(b: Grid, r: int, c: int)
    requires Rectangular(b)
    requires forall i, j :: InGrid(b, i, j) && -1 <= r - i <= 1 && -1 <= c - j <= 1 ==> b[i][j].kind != Mine
    ensures AdjacentMines(b, r, c) == 0
  {
  }

  /** Every tile that is no mine carries the number of mines around it. */
  ghost predicate NumbersMatch(b: Grid)
    requires Rectangular(b)
  {
    forall i, j :: InGrid(b, i, j) && b[i][j].kind != Mine ==> b[i][j].kind.n == AdjacentMines(b, i, j)
  }

  ghost predicate AllSafeRevealed(b: Grid)
  {
    forall i, j :: 0 <= i < |b| && 0 <= j < |b[i]| && b[i][j].kind != Mine ==> b[i][j].state == Revealed
  }
}
