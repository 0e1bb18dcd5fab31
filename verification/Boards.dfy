/**
 * The board object: a colour grid and an ownership grid, each a two-dimensional array, with the
 * board's dimensions. Its methods deal a random board, make a move on a copy, list the moves
 * that capture something, and test whether the game is over. Each one is proved against the
 * value-level definitions of `BoardState` and `Moves` through `Snap`, which reads the arrays.
 */
module Boards {
  import opened Tiles
  import opened BoardState
  import opened Moves

  /** The rows of a two-dimensional array, as a sequence of sequences. */
  function Grid<T>(g: array2<T>): (r: seq<seq<T>>)
    reads g
    ensures |r| == g.Length0
    ensures forall a :: 0 <= a < |r| ==> |r[a]| == g.Length1
    ensures forall a, b :: 0 <= a < g.Length0 && 0 <= b < g.Length1 ==> r[a][b] == g[a, b]
  {
    seq(g.Length0, a reads g requires 0 <= a < g.Length0 =>
      seq(g.Length1, b reads g requires 0 <= b < g.Length1 => g[a, b]))
  }

  /** Two arrays of the same dimensions, with at least one cell. */
  predicate Matching(tiles: array2<Tile>, owners: array2<Owner>)
  {
    tiles.Length0 >= 1 && tiles.Length1 >= 1 && owners.Length0 == tiles.Length0 && owners.Length1 == tiles.Length1
  }

  /** The board held by a colour array and an ownership array. */
  function View(tiles: array2<Tile>, owners: array2<Owner>): (s: Snapshot)
    reads tiles, owners
    ensures s.nrows == tiles.Length0 && s.ncols == tiles.Length1
    ensures s.tiles == Grid(tiles) && s.owners == Grid(owners)
    ensures Matching(tiles, owners) ==> WellFormed(s)
  {
    Snapshot(tiles.Length0, tiles.Length1, Grid(tiles), Grid(owners))
  }

  /** Repaint cell (i, j) of the colour array. */
  method Repaint(tiles: array2<Tile>, owners: array2<Owner>, i: int, j: int, move: Tile)
    requires Matching(tiles, owners) && 0 <= i < tiles.Length0 && 0 <= j < tiles.Length1
    modifies tiles
    ensures View(tiles, owners) == Paint(old(View(tiles, owners)), i, j, move)
  {
    ghost var s := View(tiles, owners);
    tiles[i, j] := move;
    SnapshotsEqual(Paint(s, i, j, move), View(tiles, owners));
  }

  /** Give cell (a, b) to `player` when it lies on the board, is unowned and shows the move colour. */
  method Claim(tiles: array2<Tile>, owners: array2<Owner>, a: int, b: int, move: Tile, player: Player)
    requires Matching(tiles, owners)
    modifies owners
    ensures View(tiles, owners) == Usurp(old(View(tiles, owners)), a, b, move, player)
  {
    ghost var s := View(tiles, owners);
    if 0 <= a < tiles.Length0 && 0 <= b < tiles.Length1 && owners[a, b] == Unowned && tiles[a, b] == move {
      owners[a, b] := Owned(player);
    }
    SnapshotsEqual(Usurp(s, a, b, move, player), View(tiles, owners));
  }

  /**
   * The body of the inner loop of the move for cell (i, j), on the arrays: when `player` holds
   * the cell, repaint it and usurp the neighbours above, below, to the left and to the right.
   */
  method VisitCell(tiles: array2<Tile>, owners: array2<Owner>, i: int, j: int, move: Tile, player: Player)
    requires Matching(tiles, owners) && 0 <= i < tiles.Length0 && 0 <= j < tiles.Length1
    modifies tiles, owners
    ensures View(tiles, owners) == Visit(old(View(tiles, owners)), i, j, move, player)
  {
    if owners[i, j] == Owned(player) {
      Repaint(tiles, owners, i, j, move);
      ClaimNeighbours(tiles, owners, i, j, move, player);
    }
  }

  /** Usurp the neighbours of (i, j) above, below, to the left and to the right, in that order. */
  method ClaimNeighbours(tiles: array2<Tile>, owners: array2<Owner>, i: int, j: int, move: Tile, player: Player)
    requires Matching(tiles, owners)
    modifies owners
    ensures var s := old(View(tiles, owners));
            View(tiles, owners) ==
              Usurp(Usurp(Usurp(Usurp(s, i - 1, j, move, player), i + 1, j, move, player), i, j - 1, move, player), i, j + 1, move, player)
  {
    Claim(tiles, owners, i - 1, j, move, player);
    Claim(tiles, owners, i + 1, j, move, player);
    Claim(tiles, owners, i, j - 1, move, player);
    Claim(tiles, owners, i, j + 1, move, player);
  }

  /** Visit the cells of row `i` from left to right. */
  method SweepRowCells(tiles: array2<Tile>, owners: array2<Owner>, i: int, move: Tile, player: Player)
    requires Matching(tiles, owners) && 0 <= i < tiles.Length0
    modifies tiles, owners
    ensures View(tiles, owners) == SweepRow(old(View(tiles, owners)), i, tiles.Length1, move, player)
  {
    ghost var start := View(tiles, owners);
    for j := 0 to tiles.Length1
      invariant View(tiles, owners) == SweepRow(start, i, j, move, player)
    {
      ghost var prev := View(tiles, owners);
      VisitCell(tiles, owners, i, j, move, player);
      assert SweepRow(start, i, j + 1, move, player) == Visit(prev, i, j, move, player);
    }
  }

  /** The double loop of the move: visit every cell in row-major order. */
  method SweepArrays(tiles: array2<Tile>, owners: array2<Owner>, move: Tile, player: Player)
    requires Matching(tiles, owners)
    modifies tiles, owners
    ensures View(tiles, owners) == AfterMove(old(View(tiles, owners)), move, player)
  {
    ghost var s0 := View(tiles, owners);
    assert s0.nrows == tiles.Length0 && s0.ncols == tiles.Length1;
    for i := 0 to tiles.Length0
      invariant View(tiles, owners) == SweepRows(s0, i, move, player)
    {
      ghost var prev := View(tiles, owners);
      SweepRowCells(tiles, owners, i, move, player);
      assert SweepRows(s0, i + 1, move, player) == SweepRow(prev, i, s0.ncols, move, player);
    }
    assert AfterMove(s0, move, player) == SweepRows(s0, s0.nrows, move, player);
  }

  /** Each cell differs in colour from the cell above it and from the cell to its left. */
  ghost predicate NeighboursDiffer(tiles: array2<Tile>)
    reads tiles
  {
    (forall a, b :: 0 < a < tiles.Length0 && 0 <= b < tiles.Length1 ==> tiles[a, b] != tiles[a - 1, b]) &&
    (forall a, b :: 0 <= a < tiles.Length0 && 0 < b < tiles.Length1 ==> tiles[a, b] != tiles[a, b - 1])
  }

  /** Some colour other than those of the cell above and the cell to the left, where present. */
  method PickColour(above: set<Tile>, left: set<Tile>) returns (t: Tile)
    requires |above| <= 1 && |left| <= 1
    ensures t !in above && t !in left
  {
    var forbidden := above + left;
    assert |forbidden| <= |above| + |left|;
    FewForbidden(forbidden);
    var eligible := AllTiles - forbidden;
    t :| t in eligible;
  }

  /**
   * The colour grid of a new board, filled row by row: each cell gets a colour (chosen at random
   * in the program) other than the colours of the cell above and the cell to the left.
   */
  method DealColours(nrows: nat, ncols: nat) returns (tiles: array2<Tile>)
    ensures fresh(tiles) && tiles.Length0 == nrows && tiles.Length1 == ncols
    ensures NeighboursDiffer(tiles)
  {
    tiles := new Tile[nrows, ncols];
    for i := 0 to nrows
      invariant forall a, b :: 0 < a < i && 0 <= b < ncols ==> tiles[a, b] != tiles[a - 1, b]
      invariant forall a, b :: 0 <= a < i && 0 < b < ncols ==> tiles[a, b] != tiles[a, b - 1]
    {
      for j := 0 to ncols
        invariant forall a, b :: 0 < a < i && 0 <= b < ncols ==> tiles[a, b] != tiles[a - 1, b]
        invariant forall a, b :: 0 <= a < i && 0 < b < ncols ==> tiles[a, b] != tiles[a, b - 1]
        invariant forall b :: 0 <= b < j && i > 0 ==> tiles[i, b] != tiles[i - 1, b]
        invariant forall b :: 0 < b < j ==> tiles[i, b] != tiles[i, b - 1]
      {
        var above: set<Tile> := if i > 0 then {tiles[i - 1, j]} else {};
        var left: set<Tile> := if j > 0 then {tiles[i, j - 1]} else {};
        var t := PickColour(above, left);
        tiles[i, j] := t;
      }
    }
  }

  /** Colours that differ between neighbours and the two corners handed out make a dealt board. */
  lemma DealtView(tiles: array2<Tile>, owners: array2<Owner>)
    requires Matching(tiles, owners) && NeighboursDiffer(tiles)
    requires owners[0, owners.Length1 - 1] == Owned(1)
    requires forall a, b :: 0 <= a < owners.Length0 && 0 <= b < owners.Length1 && !(a == 0 && b == owners.Length1 - 1) ==>
               owners[a, b] == if a == owners.Length0 - 1 && b == 0 then Owned(0) else Unowned
    ensures Dealt(View(tiles, owners))
  {
  }

  class Board {
    const ncols: nat
    const nrows: nat
    /** The colour of each cell; empty until a board is dealt. */
    var board: array2<Tile>
    /** Who holds each cell. */
    var playerBoard: array2<Owner>

    /** The arrays have the board's dimensions, and the board has at least one cell. */
    ghost predicate Valid()
      reads this
    {
      nrows >= 1 && ncols >= 1 &&
      board.Length0 == nrows && board.Length1 == ncols &&
      playerBoard.Length0 == nrows && playerBoard.Length1 == ncols
    }

    /** The board as a value. */
    function Snap(): (s: Snapshot)
      reads this, board, playerBoard
      requires Valid()
      ensures WellFormed(s) && s.nrows == nrows && s.ncols == ncols
      ensures forall a, b :: 0 <= a < nrows && 0 <= b < ncols ==> s.tiles[a][b] == board[a, b] && s.owners[a][b] == playerBoard[a, b]
    {
      View(board, playerBoard)
    }

    /** A board of the given dimensions with no cells yet; 8 columns and 7 rows by default. */
    constructor (ncols: nat := 8, nrows: nat := 7)
      ensures this.ncols == ncols && this.nrows == nrows
      ensures board.Length0 == 0 && playerBoard.Length0 == 0
    {
      this.ncols := ncols;
      this.nrows := nrows;
      board := new Tile[0, 0];
      playerBoard := new Owner[0, 0];
    }

    /**
     * Deal a board: fill the cells row by row, each with a colour (chosen at random in the
     * program) different from the cell above and the cell to the left; then give the bottom-left
     * corner to player 0 and the top-right corner to player 1.
     */
    method CreateRandom()
      requires nrows >= 1 && ncols >= 1
      modifies this
      ensures Valid() && fresh(board) && fresh(playerBoard)
      ensures Dealt(Snap())
    {
      var tiles := DealColours(nrows, ncols);
      var owners := new Owner[nrows, ncols]((_, _) => Unowned);
      owners[nrows - 1, 0] := Owned(0);
      owners[0, ncols - 1] := Owned(1);
      DealtView(tiles, owners);
      board, playerBoard := tiles, owners;
    }

    /**
     * The board after `player` plays `move`: the arrays are copied and the copy is swept in
     * row-major order. The receiver is left unchanged.
     */
    method AddMove(move: Tile, player: Player) returns (nb: Board)
      requires Valid()
      ensures fresh(nb) && fresh(nb.board) && fresh(nb.playerBoard)
      ensures nb.Valid() && nb.nrows == nrows && nb.ncols == ncols
      ensures nb.Snap() == AfterMove(Snap(), move, player)
    {
      var tiles, owners := Copy();
      SweepArrays(tiles, owners, move, player);
      nb := new Board(ncols, nrows);
      nb.board, nb.playerBoard := tiles, owners;
    }

    /**
     * `AddMove` as the program writes it: the copy is swept as above, but it is placed in a board
     * built with the default dimensions, so the result describes its own arrays only when the
     * receiver is 8 columns by 7 rows.
     */
    method AddMoveAsWritten(move: Tile, player: Player) returns (nb: Board)
      requires Valid()
      ensures fresh(nb) && fresh(nb.board) && fresh(nb.playerBoard)
      ensures nb.ncols == 8 && nb.nrows == 7
      ensures Matching(nb.board, nb.playerBoard) && View(nb.board, nb.playerBoard) == AfterMove(Snap(), move, player)
      ensures nb.Valid() <==> ncols == 8 && nrows == 7
    {
      var tiles, owners := Copy();
      SweepArrays(tiles, owners, move, player);
      nb := new Board();
      nb.board, nb.playerBoard := tiles, owners;
    }

    /** Fresh copies of the two arrays. */
    method Copy() returns (tiles: array2<Tile>, owners: array2<Owner>)
      requires Valid()
      ensures fresh(tiles) && fresh(owners) && Matching(tiles, owners)
      ensures View(tiles, owners) == Snap()
    {
      tiles := new Tile[nrows, ncols]((a, b) reads this, board requires 0 <= a < board.Length0 && 0 <= b < board.Length1 => board[a, b]);
      owners := new Owner[nrows, ncols]((a, b) reads this, playerBoard requires 0 <= a < playerBoard.Length0 && 0 <= b < playerBoard.Length1 => playerBoard[a, b]);
      SnapshotsEqual(Snap(), View(tiles, owners));
    }

    /**
     * The colours a move by `player` would capture something with: the colours of the unowned
     * neighbours of the player's cells, less the two corner colours, in palette order.
     */
    method GetPotentialMoves(player: Player) returns (moves: seq<Tile>)
      requires Valid()
      ensures moves == PotentialMoves(Snap(), player)
    {
      ghost var s := Snap();
      var potential: set<Tile> := {};
      for i := 0 to nrows
        invariant forall t :: t in potential <==> OfferedBefore(s, player, t, i, 0)
      {
        for j := 0 to ncols
          invariant forall t :: t in potential <==> OfferedBefore(s, player, t, i, j)
        {
          potential := AddOffers(i, j, player, potential);
          forall t ensures OfferedBefore(s, player, t, i, j + 1) <==>
                             OfferedBefore(s, player, t, i, j) || (s.owners[i][j] == Owned(player) && OffersColour(s, i, j, t)) {
            OfferedStep(s, player, t, i, j);
          }
        }
        forall t ensures OfferedBefore(s, player, t, i, ncols) <==> OfferedBefore(s, player, t, i + 1, 0) {
          OfferedNextRow(s, player, t, i);
        }
      }
      EveryTile();
      assert potential == FrontierColours(s, player);
      var (t0, t1) := PlayerTiles(Snap());
      moves := InPaletteOrder(potential - {t0, t1});
    }

    /**
     * The four neighbour tests of `GetPotentialMoves` for cell (i, j): when `player` holds the
     * cell, the colours of its unowned neighbours join `potential`.
     */
    method AddOffers(i: int, j: int, player: Player, potential: set<Tile>) returns (more: set<Tile>)
      requires Valid() && 0 <= i < nrows && 0 <= j < ncols
      ensures forall t :: t in more <==> t in potential || (Snap().owners[i][j] == Owned(player) && OffersColour(Snap(), i, j, t))
    {
      more := potential;
      if playerBoard[i, j] == Owned(player) {
        if i > 0 && playerBoard[i - 1, j] == Unowned {
          more := more + {board[i - 1, j]};
        }
        if i + 1 < nrows && playerBoard[i + 1, j] == Unowned {
          more := more + {board[i + 1, j]};
        }
        if j > 0 && playerBoard[i, j - 1] == Unowned {
          more := more + {board[i, j - 1]};
        }
        if j + 1 < ncols && playerBoard[i, j + 1] == Unowned {
          more := more + {board[i, j + 1]};
        }
      }
    }

    /**
     * Whether `player` holds a cell with an unowned neighbour whose colour is neither of the two
     * given colours. The scan stops at the first such neighbour.
     */
    method MovesRemaining(player: Player, player0Tile: Tile, player1Tile: Tile) returns (remaining: bool)
      requires Valid()
      ensures remaining <==> FrontierColours(Snap(), player) - {player0Tile, player1Tile} != {}
    {
      ghost var s := Snap();
      var playerTiles := {player0Tile, player1Tile};
      for i := 0 to nrows
        invariant forall t :: t !in playerTiles ==> !OfferedBefore(s, player, t, i, 0)
      {
        for j := 0 to ncols
          invariant forall t :: t !in playerTiles ==> !OfferedBefore(s, player, t, i, j)
        {
          var found, t := OffersOutside(i, j, player, playerTiles);
          if found {
            Offered(s, player, t, i, j);
            return true;
          }
          forall t | t !in playerTiles ensures !OfferedBefore(s, player, t, i, j + 1) {
            OfferedStep(s, player, t, i, j);
          }
        }
        forall t | t !in playerTiles ensures !OfferedBefore(s, player, t, i + 1, 0) {
          OfferedNextRow(s, player, t, i);
        }
      }
      EveryTile();
      return false;
    }

    /**
     * The four neighbour tests of `MovesRemaining` for cell (i, j): whether `player` holds the
     * cell and one of its unowned neighbours shows a colour outside `playerTiles` (that colour is `t`).
     */
    method OffersOutside(i: int, j: int, player: Player, playerTiles: set<Tile>) returns (found: bool, ghost t: Tile)
      requires Valid() && 0 <= i < nrows && 0 <= j < ncols
      ensures found ==> t !in playerTiles && Snap().owners[i][j] == Owned(player) && OffersColour(Snap(), i, j, t)
      ensures !found ==> forall c :: c !in playerTiles ==> !(Snap().owners[i][j] == Owned(player) && OffersColour(Snap(), i, j, c))
    {
      t := Red;
      if playerBoard[i, j] == Owned(player) {
        if i > 0 && playerBoard[i - 1, j] == Unowned && board[i - 1, j] !in playerTiles {
          return true, board[i - 1, j];
        }
        if i + 1 < nrows && playerBoard[i + 1, j] == Unowned && board[i + 1, j] !in playerTiles {
          return true, board[i + 1, j];
        }
        if j > 0 && playerBoard[i, j - 1] == Unowned && board[i, j - 1] !in playerTiles {
          return true, board[i, j - 1];
        }
        if j + 1 < ncols && playerBoard[i, j + 1] == Unowned && board[i, j + 1] !in playerTiles {
          return true, board[i, j + 1];
        }
      }
      return false, t;
    }

    /** Whether every cell is held by a player. The scan stops at the first unowned cell. */
    method GameOver() returns (over: bool)
      requires Valid()
      ensures over <==> AllClaimed(Snap())
    {
      for i := 0 to nrows
        invariant forall a, b :: 0 <= a < i && 0 <= b < ncols ==> playerBoard[a, b] != Unowned
      {
        for j := 0 to ncols
          invariant forall a, b :: 0 <= a < i && 0 <= b < ncols ==> playerBoard[a, b] != Unowned
          invariant forall b :: 0 <= b < j ==> playerBoard[i, b] != Unowned
        {
          if playerBoard[i, j] == Unowned {
            return false;
          }
        }
      }
      return true;
    }
  }

  /** A colour offered by cell (i, j) of `p` is a frontier colour. */
  lemma Offered(s: Snapshot, p: Player, t: Tile, i: int, j: int)
    requires WellFormed(s) && InBounds(s, i, j) && s.owners[i][j] == Owned(p) && OffersColour(s, i, j, t)
    ensures t in FrontierColours(s, p)
  {
    EveryTile();
    assert Before(i, j, s.nrows, 0);
  }

  /** The early-exit test agrees with the list of potential moves when it is given the corner colours. */
  lemma MovesRemainingMeansPotentialMoves(s: Snapshot, p: Player)
    requires WellFormed(s)
    ensures FrontierColours(s, p) - {PlayerTiles(s).0, PlayerTiles(s).1} != {} <==> PotentialMoves(s, p) != []
  {
    var rest := FrontierColours(s, p) - CornerColours(s);
    if rest != {} {
      var t :| t in rest;
      assert t in PotentialMoves(s, p);
    }
  }
}
