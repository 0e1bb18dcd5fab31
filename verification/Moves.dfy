/**
 * The move rule of the board, on values. `AfterMove` follows the code's double loop literally:
 * cells are visited in row-major order; a visited cell held by the mover is repainted with the
 * move colour and then claims each of its four neighbours (above, below, left, right) that is
 * unowned and already shows the move colour. A cell claimed below or to the right of the
 * visited cell is visited later in the same sweep, so it may claim further cells; the lemmas
 * below show that this never happens while no two adjacent unowned cells share a colour, an
 * invariant that freshly dealt boards have and that every move keeps.
 */
module Moves {
  import opened Tiles
  import opened BoardState

  /** Repaint cell (a, b). */
  function Paint(s: Snapshot, a: int, b: int, t: Tile): (r: Snapshot)
    requires WellFormed(s) && InBounds(s, a, b)
    ensures SameShape(s, r) && r.owners == s.owners
    ensures forall x, y {:trigger r.tiles[x][y]} :: InBounds(s, x, y) ==> r.tiles[x][y] == if x == a && y == b then t else s.tiles[x][y]
  {
    s.(tiles := s.tiles[a := s.tiles[a][b := t]])
  }

  /** Claim cell (a, b) for `p` when it is on the board, unowned and of colour `move`. */
  function Usurp(s: Snapshot, a: int, b: int, move: Tile, p: Player): (r: Snapshot)
    requires WellFormed(s)
    ensures SameShape(s, r) && r.tiles == s.tiles
    ensures forall x, y {:trigger r.owners[x][y]} :: InBounds(s, x, y) ==>
              r.owners[x][y] == if x == a && y == b && s.owners[x][y] == Unowned && s.tiles[x][y] == move then Owned(p) else s.owners[x][y]
  {
    if InBounds(s, a, b) && s.owners[a][b] == Unowned && s.tiles[a][b] == move then
      s.(owners := s.owners[a := s.owners[a][b := Owned(p)]])
    else
      s
  }

  /**
   * The body of the inner loop for cell (i, j). Its effect does not depend on the order of the
   * four claims: the cell is repainted when `p` holds it, and exactly its unowned neighbours of
   * the move colour are claimed.
   */
  function Visit(s: Snapshot, i: int, j: int, move: Tile, p: Player): (r: Snapshot)
    requires WellFormed(s) && InBounds(s, i, j)
    ensures SameShape(s, r)
    ensures forall a, b {:trigger r.tiles[a][b]} :: InBounds(s, a, b) ==>
              r.tiles[a][b] == if s.owners[i][j] == Owned(p) && a == i && b == j then move else s.tiles[a][b]
    ensures forall a, b {:trigger r.owners[a][b]} :: InBounds(s, a, b) ==>
              r.owners[a][b] == if s.owners[i][j] == Owned(p) && Adjacent(a, b, i, j) && s.owners[a][b] == Unowned && s.tiles[a][b] == move
                                then Owned(p) else s.owners[a][b]
  {
    if s.owners[i][j] != Owned(p) then s
    else
      VisitClaimsNeighbours(s, i, j, move, p);
      var painted := Paint(s, i, j, move);
      var above := Usurp(painted, i - 1, j, move, p);
      var below := Usurp(above, i + 1, j, move, p);
      var left := Usurp(below, i, j - 1, move, p);
      Usurp(left, i, j + 1, move, p)
  }

  /**
   * The four claims made after repainting a held cell (i, j), taken together: exactly the
   * unowned neighbours of the move colour are claimed.
   */
  lemma VisitClaimsNeighbours(s: Snapshot, i: int, j: int, move: Tile, p: Player)
    requires WellFormed(s) && InBounds(s, i, j) && s.owners[i][j] == Owned(p)
    ensures var painted := Paint(s, i, j, move);
            var r := Usurp(Usurp(Usurp(Usurp(painted, i - 1, j, move, p), i + 1, j, move, p), i, j - 1, move, p), i, j + 1, move, p);
            forall a, b {:trigger r.owners[a][b]} :: InBounds(s, a, b) ==>
              r.owners[a][b] == if Adjacent(a, b, i, j) && s.owners[a][b] == Unowned && s.tiles[a][b] == move then Owned(p) else s.owners[a][b]
  {
    var painted := Paint(s, i, j, move);
    var above := Usurp(painted, i - 1, j, move, p);
    var below := Usurp(above, i + 1, j, move, p);
    var left := Usurp(below, i, j - 1, move, p);
    var r := Usurp(left, i, j + 1, move, p);
    forall a, b | InBounds(s, a, b)
      ensures r.owners[a][b] == if Adjacent(a, b, i, j) && s.owners[a][b] == Unowned && s.tiles[a][b] == move then Owned(p) else s.owners[a][b]
    {
      assert painted.owners[a][b] == s.owners[a][b];
      assert s.owners[a][b] == Unowned ==> painted.tiles[a][b] == s.tiles[a][b];
      if a == i - 1 {
        assert r.owners[a][b] == above.owners[a][b];
      } else if a == i + 1 {
        assert r.owners[a][b] == below.owners[a][b] && above.owners[a][b] == s.owners[a][b];
      } else {
        assert below.owners[a][b] == s.owners[a][b];
      }
    }
  }

  /** Row `i` after its first `j` cells have been visited. */
  function SweepRow(s: Snapshot, i: int, j: int, move: Tile, p: Player): (r: Snapshot)
    requires WellFormed(s) && 0 <= i < s.nrows && 0 <= j <= s.ncols
    ensures SameShape(s, r)
    decreases j
  {
    if j == 0 then s else Visit(SweepRow(s, i, j - 1, move, p), i, j - 1, move, p)
  }

  /** The board after its first `i` rows have been visited. */
  function SweepRows(s: Snapshot, i: int, move: Tile, p: Player): (r: Snapshot)
    requires WellFormed(s) && 0 <= i <= s.nrows
    ensures SameShape(s, r)
    decreases i
  {
    if i == 0 then s else SweepRow(SweepRows(s, i - 1, move, p), i - 1, s.ncols, move, p)
  }

  /** The board after player `p` plays colour `move`. */
  function AfterMove(s: Snapshot, move: Tile, p: Player): (r: Snapshot)
    requires WellFormed(s)
    ensures SameShape(s, r)
  {
    SweepRows(s, s.nrows, move, p)
  }

  // ---------------------------------------------------------------------------------------
  // What a sweep has done so far

  /** Cell (x, y) is held by `p` and comes before (i, j). */
  ghost predicate HeldBefore(s: Snapshot, x: int, y: int, p: Player, i: int, j: int)
    requires WellFormed(s)
  {
    InBounds(s, x, y) && s.owners[x][y] == Owned(p) && Before(x, y, i, j)
  }

  /** Cell (a, b) has a neighbour held by `p` that comes before (i, j). */
  ghost predicate TouchesBefore(s: Snapshot, a: int, b: int, p: Player, i: int, j: int)
    requires WellFormed(s)
  {
    HeldBefore(s, a - 1, b, p, i, j) || HeldBefore(s, a + 1, b, p, i, j) ||
    HeldBefore(s, a, b - 1, p, i, j) || HeldBefore(s, a, b + 1, p, i, j)
  }

  /** Cell (a, b) has a neighbour held by `p`. */
  ghost predicate TouchesTerritory(s: Snapshot, a: int, b: int, p: Player)
    requires WellFormed(s)
  {
    TouchesBefore(s, a, b, p, s.nrows, 0)
  }

  /** Owners only appear, on cells that were unowned and showed the move colour, and go to `p`. */
  ghost predicate OwnersGrow(s0: Snapshot, s: Snapshot, move: Tile, p: Player)
    requires WellFormed(s0) && SameShape(s0, s)
  {
    (forall a, b {:trigger s.owners[a][b]} :: InBounds(s0, a, b) && s0.owners[a][b] != Unowned ==> s.owners[a][b] == s0.owners[a][b]) &&
    (forall a, b {:trigger s.owners[a][b]} :: InBounds(s0, a, b) && s0.owners[a][b] == Unowned && s.owners[a][b] != Unowned ==>
       s.owners[a][b] == Owned(p) && s0.tiles[a][b] == move)
  }

  /** The cells of `p` before (i, j) show the move colour and no other cell is repainted. */
  ghost predicate RepaintedBefore(s0: Snapshot, s: Snapshot, i: int, j: int, move: Tile, p: Player)
    requires WellFormed(s0) && SameShape(s0, s)
  {
    forall a, b {:trigger s.tiles[a][b]} :: InBounds(s0, a, b) ==>
      s.tiles[a][b] == if s0.owners[a][b] == Owned(p) && Before(a, b, i, j) then move else s0.tiles[a][b]
  }

  /** Every unowned cell of the move colour next to a cell of `p` before (i, j) has been claimed. */
  ghost predicate ClaimedBefore(s0: Snapshot, s: Snapshot, i: int, j: int, move: Tile, p: Player)
    requires WellFormed(s0) && SameShape(s0, s)
  {
    forall a, b {:trigger s.owners[a][b]} ::
      InBounds(s0, a, b) && s0.owners[a][b] == Unowned && s0.tiles[a][b] == move && TouchesBefore(s0, a, b, p, i, j) ==>
      s.owners[a][b] == Owned(p)
  }

  /**
   * `s` is what the sweep of move `move` by `p` has made of `s0` once every cell before (i, j)
   * has been visited.
   */
  ghost predicate Progress(s0: Snapshot, s: Snapshot, i: int, j: int, move: Tile, p: Player)
    requires WellFormed(s0)
  {
    SameShape(s0, s) && OwnersGrow(s0, s, move, p) && RepaintedBefore(s0, s, i, j, move, p) && ClaimedBefore(s0, s, i, j, move, p)
  }

  /** Every cell claimed so far touches the territory `p` held before the move. */
  ghost predicate ClaimsTouch(s0: Snapshot, s: Snapshot, p: Player)
    requires WellFormed(s0) && SameShape(s0, s)
  {
    forall a, b {:trigger s.owners[a][b]} ::
      InBounds(s0, a, b) && s0.owners[a][b] == Unowned && s.owners[a][b] == Owned(p) ==> TouchesTerritory(s0, a, b, p)
  }

  /** No two adjacent unowned cells share a colour. */
  ghost predicate UnclaimedDistinct(s: Snapshot)
    requires WellFormed(s)
  {
    forall a, b, x, y {:trigger Adjacent(a, b, x, y)} ::
      InBounds(s, a, b) && InBounds(s, x, y) && Adjacent(a, b, x, y) && s.owners[a][b] == Unowned && s.owners[x][y] == Unowned
      ==> s.tiles[a][b] != s.tiles[x][y]
  }

  lemma ProgressStart(s0: Snapshot, move: Tile, p: Player)
    requires WellFormed(s0)
    ensures Progress(s0, s0, 0, 0, move, p) && ClaimsTouch(s0, s0, p)
  {
  }

  lemma VisitOwnersGrow(s0: Snapshot, s: Snapshot, i: int, j: int, move: Tile, p: Player)
    requires WellFormed(s0) && InBounds(s0, i, j) && SameShape(s0, s)
    requires OwnersGrow(s0, s, move, p) && RepaintedBefore(s0, s, i, j, move, p)
    ensures OwnersGrow(s0, Visit(s, i, j, move, p), move, p)
  {
    var r := Visit(s, i, j, move, p);
    forall a, b | InBounds(s0, a, b) && s0.owners[a][b] == Unowned && r.owners[a][b] != Unowned
      ensures r.owners[a][b] == Owned(p) && s0.tiles[a][b] == move
    {
      if s.owners[a][b] == Unowned {
        assert s.tiles[a][b] == s0.tiles[a][b];
      }
    }
  }

  lemma VisitRepainted(s0: Snapshot, s: Snapshot, i: int, j: int, move: Tile, p: Player)
    requires WellFormed(s0) && InBounds(s0, i, j) && SameShape(s0, s)
    requires OwnersGrow(s0, s, move, p) && RepaintedBefore(s0, s, i, j, move, p)
    ensures RepaintedBefore(s0, Visit(s, i, j, move, p), i, j + 1, move, p)
  {
    var r := Visit(s, i, j, move, p);
    var held := s.owners[i][j] == Owned(p);
    forall a, b | InBounds(s0, a, b)
      ensures r.tiles[a][b] == if s0.owners[a][b] == Owned(p) && Before(a, b, i, j + 1) then move else s0.tiles[a][b]
    {
      if a == i && b == j {
        // A visited cell that p holds only because this sweep claimed it already shows the move colour.
        assert s0.owners[i][j] == Owned(p) ==> held;
        assert s0.owners[i][j] != Owned(p) && held ==> s0.owners[i][j] == Unowned && s0.tiles[i][j] == move;
      }
    }
  }

  lemma VisitClaimed(s0: Snapshot, s: Snapshot, i: int, j: int, move: Tile, p: Player)
    requires WellFormed(s0) && InBounds(s0, i, j) && SameShape(s0, s)
    requires OwnersGrow(s0, s, move, p) && RepaintedBefore(s0, s, i, j, move, p) && ClaimedBefore(s0, s, i, j, move, p)
    ensures ClaimedBefore(s0, Visit(s, i, j, move, p), i, j + 1, move, p)
  {
    var r := Visit(s, i, j, move, p);
    forall a, b | InBounds(s0, a, b) && s0.owners[a][b] == Unowned && s0.tiles[a][b] == move && TouchesBefore(s0, a, b, p, i, j + 1)
      ensures r.owners[a][b] == Owned(p)
    {
      if !TouchesBefore(s0, a, b, p, i, j) {
        assert Adjacent(a, b, i, j) && s0.owners[i][j] == Owned(p);
        assert s.owners[i][j] == Owned(p);
        if s.owners[a][b] == Unowned {
          assert s.tiles[a][b] == s0.tiles[a][b];
        }
      }
    }
  }

  lemma VisitClaimsTouch(s0: Snapshot, s: Snapshot, i: int, j: int, move: Tile, p: Player)
    requires WellFormed(s0) && InBounds(s0, i, j) && SameShape(s0, s)
    requires OwnersGrow(s0, s, move, p) && RepaintedBefore(s0, s, i, j, move, p)
    requires UnclaimedDistinct(s0) && ClaimsTouch(s0, s, p)
    ensures ClaimsTouch(s0, Visit(s, i, j, move, p), p)
  {
    var r := Visit(s, i, j, move, p);
    var held := s.owners[i][j] == Owned(p);
    forall a, b | InBounds(s0, a, b) && s0.owners[a][b] == Unowned && r.owners[a][b] == Owned(p)
      ensures TouchesTerritory(s0, a, b, p)
    {
      if s.owners[a][b] != Owned(p) {
        // (a, b) is claimed by this visit, so (i, j) is a neighbour that p held before the move.
        assert held && Adjacent(a, b, i, j) && s.owners[a][b] == Unowned && s.tiles[a][b] == move;
        assert s.tiles[a][b] == s0.tiles[a][b];
        // Otherwise (i, j) would be an unowned neighbour of (a, b) of the same colour.
        assert s0.owners[i][j] == Owned(p);
        assert HeldBefore(s0, i, j, p, s0.nrows, 0);
      }
    }
  }

  /** Visiting cell (i, j) extends the progress to the next cell, and keeps claims one layer deep. */
  lemma VisitProgress(s0: Snapshot, s: Snapshot, i: int, j: int, move: Tile, p: Player)
    requires WellFormed(s0) && InBounds(s0, i, j) && Progress(s0, s, i, j, move, p)
    ensures Progress(s0, Visit(s, i, j, move, p), i, j + 1, move, p)
    ensures UnclaimedDistinct(s0) && ClaimsTouch(s0, s, p) ==> ClaimsTouch(s0, Visit(s, i, j, move, p), p)
  {
    VisitOwnersGrow(s0, s, i, j, move, p);
    VisitRepainted(s0, s, i, j, move, p);
    VisitClaimed(s0, s, i, j, move, p);
    if UnclaimedDistinct(s0) && ClaimsTouch(s0, s, p) {
      VisitClaimsTouch(s0, s, i, j, move, p);
    }
  }

  /** Visiting every cell of row `i` carries the progress to the end of the row. */
  lemma {:induction false} SweepRowProgress(s0: Snapshot, s: Snapshot, i: int, j: int, move: Tile, p: Player)
    requires WellFormed(s0) && 0 <= i < s0.nrows && 0 <= j <= s0.ncols && Progress(s0, s, i, 0, move, p)
    ensures Progress(s0, SweepRow(s, i, j, move, p), i, j, move, p)
    ensures UnclaimedDistinct(s0) && ClaimsTouch(s0, s, p) ==> ClaimsTouch(s0, SweepRow(s, i, j, move, p), p)
    decreases j
  {
    if j > 0 {
      var k := j - 1;
      var prev := SweepRow(s, i, k, move, p);
      SweepRowProgress(s0, s, i, k, move, p);
      VisitProgress(s0, prev, i, k, move, p);
      assert k + 1 == j && SweepRow(s, i, j, move, p) == Visit(prev, i, k, move, p);
    }
  }

  /** The end of one row is the start of the next. */
  lemma ProgressNextRow(s0: Snapshot, s: Snapshot, i: int, move: Tile, p: Player)
    requires WellFormed(s0) && Progress(s0, s, i, s0.ncols, move, p)
    ensures Progress(s0, s, i + 1, 0, move, p)
  {
    forall a, b | InBounds(s0, a, b) && s0.owners[a][b] == Unowned && s0.tiles[a][b] == move && TouchesBefore(s0, a, b, p, i + 1, 0)
      ensures s.owners[a][b] == Owned(p)
    {
      assert TouchesBefore(s0, a, b, p, i, s0.ncols);
    }
  }

  lemma {:induction false} SweepRowsProgress(s0: Snapshot, i: int, move: Tile, p: Player)
    requires WellFormed(s0) && 0 <= i <= s0.nrows
    ensures Progress(s0, SweepRows(s0, i, move, p), i, 0, move, p)
    ensures UnclaimedDistinct(s0) ==> ClaimsTouch(s0, SweepRows(s0, i, move, p), p)
    decreases i
  {
    if i == 0 {
      ProgressStart(s0, move, p);
    } else {
      var s := SweepRows(s0, i - 1, move, p);
      var r := SweepRow(s, i - 1, s0.ncols, move, p);
      assert SweepRows(s0, i, move, p) == r;
      SweepRowsProgress(s0, i - 1, move, p);
      SweepRowProgress(s0, s, i - 1, s0.ncols, move, p);
      ProgressNextRow(s0, r, i - 1, move, p);
    }
  }

  /** The completed sweep: every cell has been visited. */
  lemma AfterMoveProgress(s: Snapshot, move: Tile, p: Player)
    requires WellFormed(s)
    ensures Progress(s, AfterMove(s, move, p), s.nrows, 0, move, p)
    ensures UnclaimedDistinct(s) ==> ClaimsTouch(s, AfterMove(s, move, p), p)
  {
    SweepRowsProgress(s, s.nrows, move, p);
  }

  // ---------------------------------------------------------------------------------------
  // What a move does

  /**
   * Ownership only grows: a held cell keeps its owner, and a cell that changes hands goes from
   * unowned to the mover. In particular the opponent's territory is untouched.
   */
  lemma AfterMoveKeepsOwners(s: Snapshot, move: Tile, p: Player)
    requires WellFormed(s)
    ensures forall a, b :: InBounds(s, a, b) && s.owners[a][b] != Unowned ==> AfterMove(s, move, p).owners[a][b] == s.owners[a][b]
    ensures forall a, b :: InBounds(s, a, b) && AfterMove(s, move, p).owners[a][b] != s.owners[a][b] ==>
              s.owners[a][b] == Unowned && AfterMove(s, move, p).owners[a][b] == Owned(p)
  {
    AfterMoveProgress(s, move, p);
  }

  /**
   * Every cell the mover held is repainted with the move colour, every other cell keeps its
   * colour, and afterwards the mover's whole territory shows the move colour.
   */
  lemma AfterMoveRepaints(s: Snapshot, move: Tile, p: Player)
    requires WellFormed(s)
    ensures forall a, b :: InBounds(s, a, b) ==>
              AfterMove(s, move, p).tiles[a][b] == if s.owners[a][b] == Owned(p) then move else s.tiles[a][b]
    ensures forall a, b :: InBounds(s, a, b) && AfterMove(s, move, p).owners[a][b] == Owned(p) ==>
              AfterMove(s, move, p).tiles[a][b] == move
  {
    AfterMoveProgress(s, move, p);
  }

  /** Every unowned neighbour of the mover's territory that shows the move colour is captured. */
  lemma AfterMoveCaptures(s: Snapshot, move: Tile, p: Player)
    requires WellFormed(s)
    ensures forall a, b :: InBounds(s, a, b) && s.owners[a][b] == Unowned && s.tiles[a][b] == move && TouchesTerritory(s, a, b, p) ==>
              AfterMove(s, move, p).owners[a][b] == Owned(p)
  {
    AfterMoveProgress(s, move, p);
  }

  /**
   * Capture is one layer deep when no two adjacent unowned cells share a colour: a captured
   * cell touches the territory the mover held before the move.
   */
  lemma AfterMoveSingleLayer(s: Snapshot, move: Tile, p: Player)
    requires WellFormed(s) && UnclaimedDistinct(s)
    ensures forall a, b :: InBounds(s, a, b) && s.owners[a][b] == Unowned && AfterMove(s, move, p).owners[a][b] == Owned(p) ==>
              s.tiles[a][b] == move && TouchesTerritory(s, a, b, p)
  {
    AfterMoveProgress(s, move, p);
  }

  /**
   * The effect of a move stated without any visiting order: the mover's cells take the move
   * colour, and the unowned cells of that colour next to the mover's territory become the mover's.
   */
  ghost function OneLayer(s: Snapshot, move: Tile, p: Player): (r: Snapshot)
    requires WellFormed(s)
    ensures SameShape(s, r)
  {
    Snapshot(s.nrows, s.ncols,
      seq(s.nrows, a requires 0 <= a < s.nrows =>
        seq(s.ncols, b requires 0 <= b < s.ncols =>
          if s.owners[a][b] == Owned(p) then move else s.tiles[a][b])),
      seq(s.nrows, a requires 0 <= a < s.nrows =>
        seq(s.ncols, b requires 0 <= b < s.ncols =>
          if s.owners[a][b] == Unowned && s.tiles[a][b] == move && TouchesTerritory(s, a, b, p) then Owned(p) else s.owners[a][b])))
  }

  /** On boards where adjacent unowned cells differ in colour, the row-major sweep is the one-layer rule. */
  lemma AfterMoveIsOneLayer(s: Snapshot, move: Tile, p: Player)
    requires WellFormed(s) && UnclaimedDistinct(s)
    ensures AfterMove(s, move, p) == OneLayer(s, move, p)
  {
    var r := AfterMove(s, move, p);
    var o := OneLayer(s, move, p);
    AfterMoveProgress(s, move, p);
    forall a, b | InBounds(s, a, b) ensures r.tiles[a][b] == o.tiles[a][b] && r.owners[a][b] == o.owners[a][b] {
      assert r.tiles[a][b] == if s.owners[a][b] == Owned(p) && Before(a, b, s.nrows, 0) then move else s.tiles[a][b];
      assert TouchesTerritory(s, a, b, p) == TouchesBefore(s, a, b, p, s.nrows, 0);
    }
    SnapshotsEqual(o, r);
  }

  /** A move never lowers the mover's count and never changes the opponent's. */
  lemma AfterMoveCounts(s: Snapshot, move: Tile, p: Player)
    requires WellFormed(s)
    ensures CountOwned(AfterMove(s, move, p).owners, p) >= CountOwned(s.owners, p)
    ensures CountOwned(AfterMove(s, move, p).owners, Opponent(p)) == CountOwned(s.owners, Opponent(p))
    ensures BoardValue(AfterMove(s, move, p), p) >= BoardValue(s, p)
  {
    var r := AfterMove(s, move, p);
    AfterMoveKeepsOwners(s, move, p);
    CountOwnedCompare(s.owners, r.owners, p, -1, -1);
    CountOwnedSame(s.owners, r.owners, Opponent(p));
  }

  /** A frontier colour shows on an unowned cell next to the player's territory. */
  lemma FrontierWitness(s: Snapshot, move: Tile, p: Player) returns (x: int, y: int)
    requires WellFormed(s) && OfferedBefore(s, p, move, s.nrows, 0)
    ensures InBounds(s, x, y) && s.owners[x][y] == Unowned && s.tiles[x][y] == move && TouchesTerritory(s, x, y, p)
  {
    var a, b :| InBounds(s, a, b) && Before(a, b, s.nrows, 0) && s.owners[a][b] == Owned(p) && OffersColour(s, a, b, move);
    assert HeldBefore(s, a, b, p, s.nrows, 0);
    if a > 0 && s.owners[a - 1][b] == Unowned && s.tiles[a - 1][b] == move {
      x, y := a - 1, b;
      assert HeldBefore(s, x + 1, y, p, s.nrows, 0);
    } else if a + 1 < s.nrows && s.owners[a + 1][b] == Unowned && s.tiles[a + 1][b] == move {
      x, y := a + 1, b;
      assert HeldBefore(s, x - 1, y, p, s.nrows, 0);
    } else if b > 0 && s.owners[a][b - 1] == Unowned && s.tiles[a][b - 1] == move {
      x, y := a, b - 1;
      assert HeldBefore(s, x, y + 1, p, s.nrows, 0);
    } else {
      x, y := a, b + 1;
      assert HeldBefore(s, x, y - 1, p, s.nrows, 0);
    }
  }

  /** A potential move captures at least one cell, so it strictly raises the mover's count and value. */
  lemma PotentialMoveGains(s: Snapshot, move: Tile, p: Player)
    requires WellFormed(s) && move in PotentialMoves(s, p)
    ensures CountOwned(AfterMove(s, move, p).owners, p) > CountOwned(s.owners, p)
    ensures BoardValue(AfterMove(s, move, p), p) > BoardValue(s, p)
  {
    var r := AfterMove(s, move, p);
    assert move in FrontierColours(s, p);
    var x, y := FrontierWitness(s, move, p);
    AfterMoveCaptures(s, move, p);
    assert r.owners[x][y] == Owned(p);
    AfterMoveKeepsOwners(s, move, p);
    CountOwnedCompare(s.owners, r.owners, p, x, y);
    AfterMoveCounts(s, move, p);
  }

  // ---------------------------------------------------------------------------------------
  // Boards reachable in play

  /**
   * A board as dealt: neighbouring cells differ in colour (each cell differs from the one above
   * and the one to its left), the top-right corner belongs to player 1, the bottom-left corner to
   * player 0 unless the two corners coincide, and every other cell is unowned.
   */
  ghost predicate Dealt(s: Snapshot)
  {
    WellFormed(s) &&
    (forall a, b :: InBounds(s, a, b) && a > 0 ==> s.tiles[a][b] != s.tiles[a - 1][b]) &&
    (forall a, b :: InBounds(s, a, b) && b > 0 ==> s.tiles[a][b] != s.tiles[a][b - 1]) &&
    s.owners[0][s.ncols - 1] == Owned(1) &&
    forall a, b :: InBounds(s, a, b) && !(a == 0 && b == s.ncols - 1) ==>
      s.owners[a][b] == if a == s.nrows - 1 && b == 0 then Owned(0) else Unowned
  }

  /** A dealt board with two distinct corners has exactly two owned cells, one for each player. */
  lemma DealtOwnsTwoCells(s: Snapshot)
    requires Dealt(s) && (s.nrows > 1 || s.ncols > 1)
    ensures CountOwned(s.owners, 0) == 1 && CountOwned(s.owners, 1) == 1
    ensures BoardValue(s, 0) == 0
  {
    CountOwnedAt(s.owners, 0, s.nrows - 1, 0);
    CountOwnedAt(s.owners, 1, 0, s.ncols - 1);
  }

  /** A board in play: player 0 holds the bottom-left corner, player 1 the top-right one, and adjacent unowned cells differ. */
  ghost predicate Playable(s: Snapshot)
  {
    WellFormed(s) &&
    (s.nrows > 1 || s.ncols > 1) &&
    s.owners[s.nrows - 1][0] == Owned(0) &&
    s.owners[0][s.ncols - 1] == Owned(1) &&
    UnclaimedDistinct(s)
  }

  /** A dealt board with two distinct corners is in play. */
  lemma DealtIsPlayable(s: Snapshot)
    requires Dealt(s) && (s.nrows > 1 || s.ncols > 1)
    ensures Playable(s)
  {
    forall a, b, x, y | InBounds(s, a, b) && InBounds(s, x, y) && Adjacent(a, b, x, y)
      ensures s.tiles[a][b] != s.tiles[x][y]
    {
      if a == x + 1 { assert s.tiles[a][b] != s.tiles[a - 1][b]; }
      else if x == a + 1 { assert s.tiles[x][y] != s.tiles[x - 1][y]; }
      else if b == y + 1 { assert s.tiles[a][b] != s.tiles[a][b - 1]; }
      else { assert s.tiles[x][y] != s.tiles[x][y - 1]; }
    }
  }

  /** Every move keeps a board in play. */
  lemma AfterMoveKeepsPlayable(s: Snapshot, move: Tile, p: Player)
    requires Playable(s)
    ensures Playable(AfterMove(s, move, p))
  {
    var r := AfterMove(s, move, p);
    AfterMoveKeepsOwners(s, move, p);
    AfterMoveRepaints(s, move, p);
    forall a, b, x, y | InBounds(r, a, b) && InBounds(r, x, y) && Adjacent(a, b, x, y) && r.owners[a][b] == Unowned && r.owners[x][y] == Unowned
      ensures r.tiles[a][b] != r.tiles[x][y]
    {
      assert s.owners[a][b] == Unowned && s.owners[x][y] == Unowned;
    }
  }

  /** On a board in play the corner colours come back in player order, so the code's second branch is never taken. */
  lemma PlayerTilesInPlay(s: Snapshot)
    requires Playable(s)
    ensures PlayerTiles(s) == (s.tiles[s.nrows - 1][0], s.tiles[0][s.ncols - 1])
  {
  }
}
