/** Grid helpers of the game: the clipped 8-neighbourhood of a cell and an
    in-place Fisher-Yates shuffle whose random draws are supplied by the caller. */
module Utils {

  /** One entry of a neighbour list: the value found at (nr, nc). */
  datatype Neighbor<T> = Neighbor(val: T, nr: int, nc: int)

  /** Every row has the width of the first one, which is how the grid's width is read. */
  predicate Rectangular<T>(arr: seq<seq<T>>)
  {
    forall i :: 0 <= i < |arr| ==> |arr[i]| == |arr[0]|
  }

  predicate InGrid<T>(arr: seq<seq<T>>, r: int, c: int)
  {
    0 <= r < |arr| && 0 <= c < |arr[0]|
  }

  /** (nr, nc) is one of the eight cells around (r, c): a different cell at Chebyshev distance 1. */
  predicate Adjacent(r: int, c: int, nr: int, nc: int)
  {
    (nr != r || nc != c) && -1 <= nr - r <= 1 && -1 <= nc - c <= 1
  }

  /** (r1, c1) comes strictly before (r2, c2) in row-major order. */
  predicate RowMajorBefore(r1: int, c1: int, r2: int, c2: int)
  {
    r1 < r2 || (r1 == r2 && c1 < c2)
  }

  /** What the offset (dr, dc) contributes to the neighbour list of (r, c). */
  function Candidate<T>(arr: seq<seq<T>>, r: int, c: int, dr: int, dc: int): seq<Neighbor<T>>
    requires Rectangular(arr)
  {
    if (dr != 0 || dc != 0) && InGrid(arr, r + dr, c + dc) then [Neighbor(arr[r + dr][c + dc], r + dr, c + dc)] else []
  }

  /** What the row offset dr contributes for the column offsets before dc. */
  function RowPrefix<T>(arr: seq<seq<T>>, r: int, c: int, dr: int, dc: int): seq<Neighbor<T>>
    requires Rectangular(arr)
    decreases dc + 1
  {
    if dc <= -1 then [] else RowPrefix(arr, r, c, dr, dc - 1) + Candidate(arr, r, c, dr, dc - 1)
  }

  /** What the row offsets before dr contribute, each with dc running from -1 to 1. */
  function RowsBefore<T>(arr: seq<seq<T>>, r: int, c: int, dr: int): seq<Neighbor<T>>
    requires Rectangular(arr)
    decreases dr + 1
  {
    if dr <= -1 then [] else RowsBefore(arr, r, c, dr - 1) + RowPrefix(arr, r, c, dr - 1, 2)
  }

  /** The neighbour list of (r, c): empty outside the grid, otherwise every
      in-grid adjacent cell exactly once, in row-major (dr, then dc) order. */
  function IndexedNeighbors<T>(arr: seq<seq<T>>, r: int, c: int): (ns: seq<Neighbor<T>>)
    requires Rectangular(arr)
    ensures !InGrid(arr, r, c) ==> ns == []
    ensures |ns| <= 8
    ensures forall k :: 0 <= k < |ns| ==>
      InGrid(arr, ns[k].nr, ns[k].nc) && Adjacent(r, c, ns[k].nr, ns[k].nc) && ns[k].val == arr[ns[k].nr][ns[k].nc]
    ensures forall nr, nc :: InGrid(arr, r, c) && InGrid(arr, nr, nc) && Adjacent(r, c, nr, nc) ==>
      Neighbor(arr[nr][nc], nr, nc) in ns
  {
    if !InGrid(arr, r, c) then []
    else
      AllRowsFacts(arr, r, c);
      RowsBefore(arr, r, c, 2)
  }

  /** The neighbour list runs in row-major order, with no cell twice. */
  lemma NeighborsInOrder<T>(arr: seq<seq<T>>, r: int, c: int)
    requires Rectangular(arr)
    ensures var ns := IndexedNeighbors(arr, r, c);
      forall k, m :: 0 <= k < m < |ns| ==> RowMajorBefore(ns[k].nr, ns[k].nc, ns[m].nr, ns[m].nc)
  {
    if InGrid(arr, r, c) {
      AllRowsFacts(arr, r, c);
    }
  }

  /** The entry names an in-grid cell adjacent to (r, c) and carries that cell's value. */
  ghost predicate PlacedAt<T>(arr: seq<seq<T>>, r: int, c: int, n: Neighbor<T>)
    requires Rectangular(arr)
  {
    InGrid(arr, n.nr, n.nc) && Adjacent(r, c, n.nr, n.nc) && n.val == arr[n.nr][n.nc]
  }

  /** The entries are strictly increasing in row-major order. */
  ghost predicate Ordered<T>(ns: seq<Neighbor<T>>)
  {
    forall k, m :: 0 <= k < m < |ns| ==> RowMajorBefore(ns[k].nr, ns[k].nc, ns[m].nr, ns[m].nc)
  }

  /** Every entry is placed and lies in row `row`, left of column colLimit. */
  ghost predicate PlacedInRow<T>(arr: seq<seq<T>>, r: int, c: int, ns: seq<Neighbor<T>>, row: int, colLimit: int)
    requires Rectangular(arr)
  {
    forall k :: 0 <= k < |ns| ==> PlacedAt(arr, r, c, ns[k]) && ns[k].nr == row && ns[k].nc < colLimit
  }

  /** Every entry is placed and lies above row rowLimit. */
  ghost predicate PlacedAbove<T>(arr: seq<seq<T>>, r: int, c: int, ns: seq<Neighbor<T>>, rowLimit: int)
    requires Rectangular(arr)
  {
    forall k :: 0 <= k < |ns| ==> PlacedAt(arr, r, c, ns[k]) && ns[k].nr < rowLimit
  }

  lemma ConcatInRow<T>(arr: seq<seq<T>>, r: int, c: int, a: seq<Neighbor<T>>, b: seq<Neighbor<T>>, row: int, colLimit: int)
    requires Rectangular(arr) && PlacedInRow(arr, r, c, a, row, colLimit) && PlacedInRow(arr, r, c, b, row, colLimit)
    ensures PlacedInRow(arr, r, c, a + b, row, colLimit)
  {
    forall k | 0 <= k < |a + b|
      ensures PlacedAt(arr, r, c, (a + b)[k]) && (a + b)[k].nr == row && (a + b)[k].nc < colLimit
    {
      if k >= |a| {
        assert (a + b)[k] == b[k - |a|];
      }
    }
  }

  lemma ConcatAbove<T>(arr: seq<seq<T>>, r: int, c: int, a: seq<Neighbor<T>>, b: seq<Neighbor<T>>, rowLimit: int)
    requires Rectangular(arr) && PlacedAbove(arr, r, c, a, rowLimit) && PlacedAbove(arr, r, c, b, rowLimit)
    ensures PlacedAbove(arr, r, c, a + b, rowLimit)
  {
    forall k | 0 <= k < |a + b|
      ensures PlacedAt(arr, r, c, (a + b)[k]) && (a + b)[k].nr < rowLimit
    {
      if k >= |a| {
        assert (a + b)[k] == b[k - |a|];
      }
    }
  }

  /** Every entry of a comes before every entry of b. */
  ghost predicate AllBefore<T>(a: seq<Neighbor<T>>, b: seq<Neighbor<T>>)
  {
    forall k, m :: 0 <= k < |a| && 0 <= m < |b| ==> RowMajorBefore(a[k].nr, a[k].nc, b[m].nr, b[m].nc)
  }

  lemma ConcatOrdered<T>(a: seq<Neighbor<T>>, b: seq<Neighbor<T>>)
    requires Ordered(a) && Ordered(b) && AllBefore(a, b)
    ensures Ordered(a + b)
  {
    forall k, m | 0 <= k < m < |a + b|
      ensures RowMajorBefore((a + b)[k].nr, (a + b)[k].nc, (a + b)[m].nr, (a + b)[m].nc)
    {
      if m < |a| {
      } else if k >= |a| {
        assert (a + b)[k] == b[k - |a|] && (a + b)[m] == b[m - |a|];
      } else {
        assert (a + b)[k] == a[k] && (a + b)[m] == b[m - |a|];
      }
    }
  }

  lemma CandidateFacts<T>(arr: seq<seq<T>>, r: int, c: int, dr: int, dc: int)
    requires Rectangular(arr) && -1 <= dr <= 1 && -1 <= dc <= 1
    ensures var cand := Candidate(arr, r, c, dr, dc);
      |cand| <= 1 && Ordered(cand) &&
      PlacedInRow(arr, r, c, cand, r + dr, c + dc + 1) &&
      (forall k :: 0 <= k < |cand| ==> cand[k].nc == c + dc) &&
      ((dr != 0 || dc != 0) && InGrid(arr, r + dr, c + dc) ==> Neighbor(arr[r + dr][c + dc], r + dr, c + dc) in cand)
  {
  }

  /** The column offsets before dc of row offset dr give at most dc + 1 in-grid cells of
      row r + dr adjacent to (r, c), with columns below c + dc. */
  lemma {:induction false} RowPrefixPlaced<T>(arr: seq<seq<T>>, r: int, c: int, dr: int, dc: int)
    requires Rectangular(arr) && -1 <= dr <= 1 && -1 <= dc <= 2
    ensures |RowPrefix(arr, r, c, dr, dc)| <= dc + 1
    ensures PlacedInRow(arr, r, c, RowPrefix(arr, r, c, dr, dc), r + dr, c + dc)
    decreases dc + 1
  {
    if dc > -1 {
      RowPrefixPlaced(arr, r, c, dr, dc - 1);
      CandidateFacts(arr, r, c, dr, dc - 1);
      var a, b := RowPrefix(arr, r, c, dr, dc - 1), Candidate(arr, r, c, dr, dc - 1);
      assert RowPrefix(arr, r, c, dr, dc) == a + b;
      ConcatInRow(arr, r, c, a, b, r + dr, c + dc);
    }
  }

  /** ... and their columns increase. */
  lemma {:induction false} RowPrefixOrdered<T>(arr: seq<seq<T>>, r: int, c: int, dr: int, dc: int)
    requires Rectangular(arr) && -1 <= dr <= 1 && -1 <= dc <= 2
    ensures Ordered(RowPrefix(arr, r, c, dr, dc))
    decreases dc + 1
  {
    if dc > -1 {
      RowPrefixOrdered(arr, r, c, dr, dc - 1);
      RowPrefixPlaced(arr, r, c, dr, dc - 1);
      CandidateFacts(arr, r, c, dr, dc - 1);
      var a, b := RowPrefix(arr, r, c, dr, dc - 1), Candidate(arr, r, c, dr, dc - 1);
      assert AllBefore(a, b) by {
        forall k, m | 0 <= k < |a| && 0 <= m < |b|
          ensures RowMajorBefore(a[k].nr, a[k].nc, b[m].nr, b[m].nc)
        {
        }
      }
      ConcatOrdered(a, b);
      assert RowPrefix(arr, r, c, dr, dc) == a + b;
    }
  }

  /** ... and every such cell is among them. */
  lemma {:induction false} RowPrefixComplete<T>(arr: seq<seq<T>>, r: int, c: int, dr: int, dc: int)
    requires Rectangular(arr) && -1 <= dr <= 1 && -1 <= dc <= 2
    ensures forall nr, nc :: nr == r + dr && nc < c + dc && InGrid(arr, nr, nc) && Adjacent(r, c, nr, nc) ==>
      Neighbor(arr[nr][nc], nr, nc) in RowPrefix(arr, r, c, dr, dc)
    decreases dc + 1
  {
    if dc > -1 {
      RowPrefixComplete(arr, r, c, dr, dc - 1);
      CandidateFacts(arr, r, c, dr, dc - 1);
      assert RowPrefix(arr, r, c, dr, dc) == RowPrefix(arr, r, c, dr, dc - 1) + Candidate(arr, r, c, dr, dc - 1);
    }
  }

  /** The row of (r, c) itself holds at most two neighbours. */
  lemma CentreRowShort<T>(arr: seq<seq<T>>, r: int, c: int)
    requires Rectangular(arr)
    ensures |RowPrefix(arr, r, c, 0, 2)| <= 2
  {
    assert RowPrefix(arr, r, c, 0, 2) == RowPrefix(arr, r, c, 0, 1) + Candidate(arr, r, c, 0, 1);
    assert RowPrefix(arr, r, c, 0, 1) == RowPrefix(arr, r, c, 0, 0) + Candidate(arr, r, c, 0, 0);
    assert Candidate(arr, r, c, 0, 0) == [];
    RowPrefixPlaced(arr, r, c, 0, 0);
    CandidateFacts(arr, r, c, 0, 1);
  }

  /** The row offsets before dr give at most three neighbours per row, two in the row of (r, c). */
  lemma {:induction false} RowsBeforeLength<T>(arr: seq<seq<T>>, r: int, c: int, dr: int)
    requires Rectangular(arr) && -1 <= dr <= 2
    ensures |RowsBefore(arr, r, c, dr)| <= if dr <= 0 then 3 * (dr + 1) else 3 * dr + 2
    decreases dr + 1
  {
    if dr > -1 {
      RowsBeforeLength(arr, r, c, dr - 1);
      RowPrefixPlaced(arr, r, c, dr - 1, 2);
      if dr - 1 == 0 {
        CentreRowShort(arr, r, c);
      }
    }
  }

  /** The row offsets before dr give in-grid cells adjacent to (r, c) in rows above r + dr. */
  lemma {:induction false} RowsBeforePlaced<T>(arr: seq<seq<T>>, r: int, c: int, dr: int)
    requires Rectangular(arr) && -1 <= dr <= 2
    ensures PlacedAbove(arr, r, c, RowsBefore(arr, r, c, dr), r + dr)
    decreases dr + 1
  {
    if dr > -1 {
      RowsBeforePlaced(arr, r, c, dr - 1);
      RowPrefixPlaced(arr, r, c, dr - 1, 2);
      var a, b := RowsBefore(arr, r, c, dr - 1), RowPrefix(arr, r, c, dr - 1, 2);
      assert RowsBefore(arr, r, c, dr) == a + b;
      ConcatAbove(arr, r, c, a, b, r + dr);
    }
  }

  /** ... in row-major order. */
  lemma {:induction false} RowsBeforeOrdered<T>(arr: seq<seq<T>>, r: int, c: int, dr: int)
    requires Rectangular(arr) && -1 <= dr <= 2
    ensures Ordered(RowsBefore(arr, r, c, dr))
    decreases dr + 1
  {
    if dr > -1 {
      RowsBeforeOrdered(arr, r, c, dr - 1);
      RowsBeforePlaced(arr, r, c, dr - 1);
      RowPrefixOrdered(arr, r, c, dr - 1, 2);
      RowPrefixPlaced(arr, r, c, dr - 1, 2);
      var a, b := RowsBefore(arr, r, c, dr - 1), RowPrefix(arr, r, c, dr - 1, 2);
      assert AllBefore(a, b) by {
        forall k, m | 0 <= k < |a| && 0 <= m < |b|
          ensures RowMajorBefore(a[k].nr, a[k].nc, b[m].nr, b[m].nc)
        {
        }
      }
      ConcatOrdered(a, b);
      assert RowsBefore(arr, r, c, dr) == a + b;
    }
  }

  /** ... and every such cell is among them. */
  lemma {:induction false} RowsBeforeComplete<T>(arr: seq<seq<T>>, r: int, c: int, dr: int)
    requires Rectangular(arr) && -1 <= dr <= 2
    ensures forall nr, nc :: nr < r + dr && InGrid(arr, nr, nc) && Adjacent(r, c, nr, nc) ==>
      Neighbor(arr[nr][nc], nr, nc) in RowsBefore(arr, r, c, dr)
    decreases dr + 1
  {
    if dr > -1 {
      RowsBeforeComplete(arr, r, c, dr - 1);
      RowPrefixComplete(arr, r, c, dr - 1, 2);
      assert RowsBefore(arr, r, c, dr) == RowsBefore(arr, r, c, dr - 1) + RowPrefix(arr, r, c, dr - 1, 2);
    }
  }

  lemma AllRowsFacts<T>(arr: seq<seq<T>>, r: int, c: int)
    requires Rectangular(arr) && InGrid(arr, r, c)
    ensures var ns := RowsBefore(arr, r, c, 2);
      |ns| <= 8 && Ordered(ns) &&
      PlacedAbove(arr, r, c, ns, r + 2) &&
      (forall nr, nc :: InGrid(arr, nr, nc) && Adjacent(r, c, nr, nc) ==> Neighbor(arr[nr][nc], nr, nc) in ns)
  {
    RowsBeforeLength(arr, r, c, 2);
    RowsBeforePlaced(arr, r, c, 2);
    RowsBeforeOrdered(arr, r, c, 2);
    RowsBeforeComplete(arr, r, c, 2);
  }

  /** The source's nested dr/dc loop that pushes each in-bounds neighbour. */
  method GetIndexedNeighbors<T>(arr: seq<seq<T>>, r: int, c: int) returns (ret: seq<Neighbor<T>>)
    requires Rectangular(arr)
    ensures ret == IndexedNeighbors(arr, r, c)
  {
    if r < 0 || r >= |arr| || c < 0 || c >= |arr[0]| {
      return [];
    }
    ret := [];
    for dr := -1 to 2
      invariant ret == RowsBefore(arr, r, c, dr)
    {
      ret := PushRow(arr, r, c, dr, ret);
      assert RowsBefore(arr, r, c, dr + 1) == RowsBefore(arr, r, c, dr) + RowPrefix(arr, r, c, dr, 2);
    }
  }

  /** The inner loop of GetIndexedNeighbors: appends the in-bounds cells of row r + dr
      around column c, the centre excluded. */
  method PushRow<T>(arr: seq<seq<T>>, r: int, c: int, dr: int, ret: seq<Neighbor<T>>)
    returns (ret': seq<Neighbor<T>>)
    requires Rectangular(arr)
    ensures ret' == ret + RowPrefix(arr, r, c, dr, 2)
  {
    ret' := ret;
    for dc := -1 to 2
      invariant ret' == ret + RowPrefix(arr, r, c, dr, dc)
    {
      ghost var before := ret';
      assert RowPrefix(arr, r, c, dr, dc + 1) == RowPrefix(arr, r, c, dr, dc) + Candidate(arr, r, c, dr, dc);
      if dr == 0 && dc == 0 {
        continue;
      }
      var nr := r + dr;
      var nc := c + dc;
      if nr >= 0 && nr < |arr| && nc >= 0 && nc < |arr[0]| {
        ret' := ret' + [Neighbor(arr[nr][nc], nr, nc)];
      }
      assert ret' == before + Candidate(arr, r, c, dr, dc);
    }
  }

  /** The values of a neighbour list, in order. */
  function Vals<T>(ns: seq<Neighbor<T>>): (vs: seq<T>)
    ensures |vs| == |ns|
    ensures forall k :: 0 <= k < |ns| ==> vs[k] == ns[k].val
  {
    if ns == [] then [] else Vals(ns[..|ns| - 1]) + [ns[|ns| - 1].val]
  }

  lemma {:induction false} ValsAppend<T>(a: seq<Neighbor<T>>, b: seq<Neighbor<T>>)
    ensures Vals(a + b) == Vals(a) + Vals(b)
  {
    if b != [] {
      assert (a + b)[..|a + b| - 1] == a + b[..|b| - 1];
      ValsAppend(a, b[..|b| - 1]);
    } else {
      assert a + b == a;
    }
  }

  /** The neighbours' values, in the order of IndexedNeighbors. */
  function GetNeighbors<T>(arr: seq<seq<T>>, r: int, c: int): (vals: seq<T>)
    requires Rectangular(arr)
    ensures |vals| == |IndexedNeighbors(arr, r, c)|
    ensures forall k :: 0 <= k < |vals| ==> vals[k] == IndexedNeighbors(arr, r, c)[k].val
  {
    Vals(IndexedNeighbors(arr, r, c))
  }

  /** The draw for step i of the shuffle is picks[i], an index between 0 and i
      (Math.floor(Math.random() * (i + 1)) in the source); picks[0] is unused. */
  predicate ValidPicks(picks: seq<int>, n: nat)
  {
    |picks| == n && forall i :: 0 < i < n ==> 0 <= picks[i] <= i
  }

  function Swap<T>(s: seq<T>, i: nat, j: nat): (t: seq<T>)
    requires i < |s| && j < |s|
    ensures |t| == |s| && t[i] == s[j] && t[j] == s[i]
    ensures forall k :: 0 <= k < |s| && k != i && k != j ==> t[k] == s[k]
  {
    s[i := s[j]][j := s[i]]
  }

  lemma SwapPermutes<T>(s: seq<T>, i: nat, j: nat)
    requires i < |s| && j < |s|
    ensures multiset(Swap(s, i, j)) == multiset(s)
  {
    var t := s[i := s[j]];
    assert multiset(t) == multiset(s) - multiset{s[i]} + multiset{s[j]};
    assert multiset(t[j := s[i]]) == multiset(t) - multiset{t[j]} + multiset{s[i]};
  }

  /** The sequence after the shuffle's steps i, i - 1, ..., 1 have run on s. */
  function ShuffleDown<T>(s: seq<T>, picks: seq<int>, i: int): seq<T>
    requires ValidPicks(picks, |s|) && i < |s|
    decreases i
  {
    if i <= 0 then s else ShuffleDown(Swap(s, i, picks[i]), picks, i - 1)
  }

  /** Whatever the draws, shuffling only rearranges: the result is a permutation. */
  lemma {:induction false} ShufflePermutes<T>(s: seq<T>, picks: seq<int>, i: int)
    requires ValidPicks(picks, |s|) && i < |s|
    ensures |ShuffleDown(s, picks, i)| == |s|
    ensures multiset(ShuffleDown(s, picks, i)) == multiset(s)
    decreases i
  {
    if i > 0 {
      SwapPermutes(s, i, picks[i]);
      ShufflePermutes(Swap(s, i, picks[i]), picks, i - 1);
    }
  }

  /** Fisher-Yates: for i from the last index down to 1, swap a[i] with a[picks[i]]. */
  method ShuffledArray<T>(a: array<T>, picks: seq<int>) returns (res: array<T>)
    requires ValidPicks(picks, a.Length)
    modifies a
    ensures res == a
    ensures a[..] == ShuffleDown(old(a[..]), picks, a.Length - 1)
    ensures multiset(a[..]) == multiset(old(a[..]))
  {
    ghost var s0 := a[..];
    var i := a.Length - 1;
    while i > 0
      invariant -1 <= i < a.Length
      invariant ShuffleDown(a[..], picks, i) == ShuffleDown(s0, picks, a.Length - 1)
    {
      ghost var before := a[..];
      var j := picks[i];
      var temp := a[i];
      a[i] := a[j];
      a[j] := temp;
      assert a[..] == Swap(before, i, j);
      i := i - 1;
    }
    ShufflePermutes(s0, picks, a.Length - 1);
    res := a;
  }
}
