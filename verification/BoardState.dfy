/**
 * A board as a value: the colour grid and the ownership grid of a Filler board, with its
 * dimensions, and the read-only operations of the board that are plain expressions.
 */
module BoardState {
  import opened Tiles

  /** `tiles[i][j]` is the colour of cell (i, j); `owners[i][j]` says who holds it. */
  datatype Snapshot = Snapshot(nrows: nat, ncols: nat, tiles: seq<seq<Tile>>, owners: seq<seq<Owner>>)

  /** Both grids have `nrows` rows of `ncols` cells, and the board has at least one cell. */
  predicate WellFormed(s: Snapshot)
  {
    s.nrows >= 1 && s.ncols >= 1 &&
    |s.tiles| == s.nrows && |s.owners| == s.nrows &&
    forall a :: 0 <= a < s.nrows ==> |s.tiles[a]| == s.ncols && |s.owners[a]| == s.ncols
  }

  predicate InBounds(s: Snapshot, a: int, b: int)
  {
    0 <= a < s.nrows && 0 <= b < s.ncols
  }

  /** `r` is a well-formed board with the dimensions of `s`. */
  predicate SameShape(s: Snapshot, r: Snapshot)
  {
    WellFormed(r) && r.nrows == s.nrows && r.ncols == s.ncols
  }

  /** Cells (a, b) and (x, y) are orthogonal neighbours. */
  predicate Adjacent(a: int, b: int, x: int, y: int)
  {
    (a == x && (b == y - 1 || b == y + 1)) || (b == y && (a == x - 1 || a == x + 1))
  }

  /** Cell (a, b) comes before cell (i, j) in row-major order. */
  predicate Before(a: int, b: int, i: int, j: int)
  {
    a < i || (a == i && b < j)
  }

  /** Two boards of the same shape that agree on every cell are the same board. */
  lemma SnapshotsEqual(s: Snapshot, r: Snapshot)
    requires WellFormed(s) && SameShape(s, r)
    requires forall a, b :: InBounds(s, a, b) ==> r.tiles[a][b] == s.tiles[a][b]
    requires forall a, b :: InBounds(s, a, b) ==> r.owners[a][b] == s.owners[a][b]
    ensures r == s
  {
    forall a | 0 <= a < s.nrows ensures r.tiles[a] == s.tiles[a] && r.owners[a] == s.owners[a] {
      assert forall b :: 0 <= b < s.ncols ==> r.tiles[a][b] == s.tiles[a][b];
      assert forall b :: 0 <= b < s.ncols ==> r.owners[a][b] == s.owners[a][b];
    }
  }

  // ---------------------------------------------------------------------------------------
  // The corner colours

  /**
   * The colours of the two players, in player order: the bottom-left corner belongs to player 0
   * when the ownership grid says so there, otherwise the two corners are swapped.
   */
  function PlayerTiles(s: Snapshot): (r: (Tile, Tile))
    requires WellFormed(s)
    ensures {r.0, r.1} == CornerColours(s)
  {
    if s.owners[s.nrows - 1][0] == Owned(0) then (s.tiles[s.nrows - 1][0], s.tiles[0][s.ncols - 1])
    else (s.tiles[0][s.ncols - 1], s.tiles[s.nrows - 1][0])
  }

  /** The two corner colours, whichever order `PlayerTiles` gives them in. */
  function CornerColours(s: Snapshot): set<Tile>
    requires WellFormed(s)
  {
    {s.tiles[s.nrows - 1][0], s.tiles[0][s.ncols - 1]}
  }

  // ---------------------------------------------------------------------------------------
  // Counting cells and the value of a board

  /** The number of cells of `row` held by `p` (a list's `count`). */
  function CountRow(row: seq<Owner>, p: Player): nat
  {
    if row == [] then 0 else (if row[0] == Owned(p) then 1 else 0) + CountRow(row[1..], p)
  }

  /** The number of cells of the grid `rows` held by `p`. */
  function CountOwned(rows: seq<seq<Owner>>, p: Player): nat
  {
    if rows == [] then 0 else CountRow(rows[0], p) + CountOwned(rows[1..], p)
  }

  /** The number of cells of the grid `rows`. */
  function Cells(rows: seq<seq<Owner>>): nat
  {
    if rows == [] then 0 else |rows[0]| + Cells(rows[1..])
  }

  /** No cell is counted for both players. */
  lemma {:induction false} CountRowBoth(row: seq<Owner>, p: Player)
    ensures CountRow(row, p) + CountRow(row, Opponent(p)) <= |row|
  {
    if row != [] {
      CountRowBoth(row[1..], p);
    }
  }

  lemma {:induction false} CountOwnedBoth(rows: seq<seq<Owner>>, p: Player)
    ensures CountOwned(rows, p) + CountOwned(rows, Opponent(p)) <= Cells(rows)
  {
    if rows != [] {
      CountRowBoth(rows[0], p);
      CountOwnedBoth(rows[1..], p);
    }
  }

  /** A grid of `|rows|` rows of `n` cells has `|rows| * n` cells. */
  lemma {:induction false} CellsOfGrid(rows: seq<seq<Owner>>, n: nat)
    requires forall a :: 0 <= a < |rows| ==> |rows[a]| == n
    ensures Cells(rows) == |rows| * n
  {
    if rows != [] {
      CellsOfGrid(rows[1..], n);
      assert |rows| * n == n + |rows[1..]| * n;
    }
  }

  /**
   * The tile differential: cells held by `p` minus cells held by the opponent. It is at most
   * the number of cells `p` holds and at least minus the number the opponent holds.
   */
  function BoardValue(s: Snapshot, p: Player): (v: int)
    requires WellFormed(s)
    ensures -(CountOwned(s.owners, Opponent(p)) as int) <= v <= CountOwned(s.owners, p)
  {
    CountOwned(s.owners, p) - CountOwned(s.owners, Opponent(p))
  }

  /** The board value lies between minus and plus the number of cells, `nrows * ncols`. */
  lemma BoardValueBounded(s: Snapshot, p: Player)
    requires WellFormed(s)
    ensures -(s.nrows * s.ncols) <= BoardValue(s, p) <= s.nrows * s.ncols
  {
    CountOwnedBoth(s.owners, p);
    CellsOfGrid(s.owners, s.ncols);
  }

  lemma BoardValueAntisymmetric(s: Snapshot, p: Player)
    requires WellFormed(s)
    ensures BoardValue(s, p) == -BoardValue(s, Opponent(p))
  {
  }

  /** If every cell `p` holds in `r1` is still held in `r2`, the count cannot drop; one more cell makes it grow. */
  lemma {:induction false} CountRowCompare(r1: seq<Owner>, r2: seq<Owner>, p: Player, gained: int)
    requires |r1| == |r2|
    requires forall b :: 0 <= b < |r1| && r1[b] == Owned(p) ==> r2[b] == Owned(p)
    ensures CountRow(r1, p) <= CountRow(r2, p)
    ensures 0 <= gained < |r1| && r1[gained] != Owned(p) && r2[gained] == Owned(p) ==> CountRow(r1, p) < CountRow(r2, p)
  {
    if r1 != [] {
      CountRowCompare(r1[1..], r2[1..], p, gained - 1);
    }
  }

  /** `o1` and `o2` are grids of the same shape. */
  predicate SameDims<T, U>(o1: seq<seq<T>>, o2: seq<seq<U>>)
  {
    |o1| == |o2| && forall a :: 0 <= a < |o1| ==> |o1[a]| == |o2[a]|
  }

  lemma {:induction false} CountOwnedCompare(o1: seq<seq<Owner>>, o2: seq<seq<Owner>>, p: Player, ga: int, gb: int)
    requires SameDims(o1, o2)
    requires forall a, b :: 0 <= a < |o1| && 0 <= b < |o1[a]| && o1[a][b] == Owned(p) ==> o2[a][b] == Owned(p)
    ensures CountOwned(o1, p) <= CountOwned(o2, p)
    ensures 0 <= ga < |o1| && 0 <= gb < |o1[ga]| && o1[ga][gb] != Owned(p) && o2[ga][gb] == Owned(p) ==>
              CountOwned(o1, p) < CountOwned(o2, p)
  {
    if o1 != [] {
      CountRowCompare(o1[0], o2[0], p, if ga == 0 then gb else -1);
      CountOwnedCompare(o1[1..], o2[1..], p, ga - 1, gb);
    }
  }

  /** A grid whose cells `p` holds are exactly those of another grid has the same count for `p`. */
  lemma CountOwnedSame(o1: seq<seq<Owner>>, o2: seq<seq<Owner>>, p: Player)
    requires SameDims(o1, o2)
    requires forall a, b :: 0 <= a < |o1| && 0 <= b < |o1[a]| ==> (o1[a][b] == Owned(p) <==> o2[a][b] == Owned(p))
    ensures CountOwned(o1, p) == CountOwned(o2, p)
  {
    CountOwnedCompare(o1, o2, p, -1, -1);
    CountOwnedCompare(o2, o1, p, -1, -1);
  }

  /** A row in which `p` holds no cell, or exactly the cell at `b` (none when `b` is out of range), counts 0 or 1. */
  lemma {:induction false} CountRowAt(row: seq<Owner>, p: Player, b: int)
    requires forall c :: 0 <= c < |row| && c != b ==> row[c] != Owned(p)
    ensures CountRow(row, p) == if 0 <= b < |row| && row[b] == Owned(p) then 1 else 0
  {
    if row != [] {
      CountRowAt(row[1..], p, b - 1);
    }
  }

  /** A grid in which `p` holds at most the cell (a, b) counts 1 if `p` holds it and 0 otherwise. */
  lemma {:induction false} CountOwnedAt(rows: seq<seq<Owner>>, p: Player, a: int, b: int)
    requires forall x, y :: 0 <= x < |rows| && 0 <= y < |rows[x]| && (x, y) != (a, b) ==> rows[x][y] != Owned(p)
    ensures CountOwned(rows, p) == if 0 <= a < |rows| && 0 <= b < |rows[a]| && rows[a][b] == Owned(p) then 1 else 0
  {
    if rows != [] {
      CountRowAt(rows[0], p, if a == 0 then b else -1);
      CountOwnedAt(rows[1..], p, a - 1, b);
    }
  }

  // ---------------------------------------------------------------------------------------
  // Candidate moves

  /**
   * The moves a player may make when no move captures anything: every colour except the two
   * corner colours, in palette order. The player does not matter.
   */
  function LegalMoves(s: Snapshot): (r: seq<Tile>)
    requires WellFormed(s)
    ensures forall t :: t in r <==> t !in CornerColours(s)
    ensures forall m, n :: 0 <= m < n < |r| ==> Rank(r[m]) < Rank(r[n])
    ensures |r| >= 4
  {
    var (t0, t1) := PlayerTiles(s);
    FewForbidden({t0, t1});
    EveryTile();
    InPaletteOrder(AllTiles - {t0, t1})
  }

  /** Cell (a, b) has an unowned orthogonal neighbour of colour `t`. */
  predicate OffersColour(s: Snapshot, a: int, b: int, t: Tile)
    requires WellFormed(s) && InBounds(s, a, b)
  {
    (a > 0 && s.owners[a - 1][b] == Unowned && s.tiles[a - 1][b] == t) ||
    (a + 1 < s.nrows && s.owners[a + 1][b] == Unowned && s.tiles[a + 1][b] == t) ||
    (b > 0 && s.owners[a][b - 1] == Unowned && s.tiles[a][b - 1] == t) ||
    (b + 1 < s.ncols && s.owners[a][b + 1] == Unowned && s.tiles[a][b + 1] == t)
  }

  /** Some cell held by `p` that comes before (i, j) offers colour `t`. */
  ghost predicate OfferedBefore(s: Snapshot, p: Player, t: Tile, i: int, j: int)
    requires WellFormed(s)
  {
    exists a, b :: InBounds(s, a, b) && Before(a, b, i, j) && s.owners[a][b] == Owned(p) && OffersColour(s, a, b, t)
  }

  /** Scanning cell (i, j) adds what that cell offers. */
  lemma OfferedStep(s: Snapshot, p: Player, t: Tile, i: int, j: int)
    requires WellFormed(s) && InBounds(s, i, j)
    ensures OfferedBefore(s, p, t, i, j + 1) <==>
              OfferedBefore(s, p, t, i, j) || (s.owners[i][j] == Owned(p) && OffersColour(s, i, j, t))
  {
    if OfferedBefore(s, p, t, i, j + 1) {
      var a, b :| InBounds(s, a, b) && Before(a, b, i, j + 1) && s.owners[a][b] == Owned(p) && OffersColour(s, a, b, t);
      if !(a == i && b == j) {
        assert Before(a, b, i, j);
      }
    }
    if s.owners[i][j] == Owned(p) && OffersColour(s, i, j, t) {
      assert Before(i, j, i, j + 1);
    }
    if OfferedBefore(s, p, t, i, j) {
      var a, b :| InBounds(s, a, b) && Before(a, b, i, j) && s.owners[a][b] == Owned(p) && OffersColour(s, a, b, t);
      assert Before(a, b, i, j + 1);
    }
  }

  /** Finishing a row is the same as starting the next one. */
  lemma OfferedNextRow(s: Snapshot, p: Player, t: Tile, i: int)
    requires WellFormed(s)
    ensures OfferedBefore(s, p, t, i, s.ncols) <==> OfferedBefore(s, p, t, i + 1, 0)
  {
    if OfferedBefore(s, p, t, i + 1, 0) {
      var a, b :| InBounds(s, a, b) && Before(a, b, i + 1, 0) && s.owners[a][b] == Owned(p) && OffersColour(s, a, b, t);
      assert Before(a, b, i, s.ncols);
    }
    if OfferedBefore(s, p, t, i, s.ncols) {
      var a, b :| InBounds(s, a, b) && Before(a, b, i, s.ncols) && s.owners[a][b] == Owned(p) && OffersColour(s, a, b, t);
      assert Before(a, b, i + 1, 0);
    }
  }

  /** The colours of the unowned cells next to `p`'s territory. */
  ghost function FrontierColours(s: Snapshot, p: Player): set<Tile>
    requires WellFormed(s)
  {
    set t | t in AllTiles && OfferedBefore(s, p, t, s.nrows, 0)
  }

  /**
   * The moves that capture at least one cell: frontier colours other than the two corner
   * colours, in palette order.
   */
  ghost function PotentialMoves(s: Snapshot, p: Player): (r: seq<Tile>)
    requires WellFormed(s)
    ensures forall t :: t in r ==> t !in CornerColours(s)
    ensures forall t :: t in r <==> t in FrontierColours(s, p) - CornerColours(s)
  {
    var (t0, t1) := PlayerTiles(s);
    InPaletteOrder(FrontierColours(s, p) - {t0, t1})
  }

  /** Every cell is owned. */
  ghost predicate AllClaimed(s: Snapshot)
    requires WellFormed(s)
  {
    forall a, b :: InBounds(s, a, b) ==> s.owners[a][b] != Unowned
  }

  /** Once the board is fully claimed no move captures anything, so players fall back on legal moves. */
  lemma ClaimedBoardHasNoPotentialMoves(s: Snapshot, p: Player)
    requires WellFormed(s) && AllClaimed(s)
    ensures PotentialMoves(s, p) == []
  {
    forall t ensures !OfferedBefore(s, p, t, s.nrows, 0) {
      forall a, b | InBounds(s, a, b) ensures !OffersColour(s, a, b, t) {
      }
    }
    assert FrontierColours(s, p) == {};
  }
}
