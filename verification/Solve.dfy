/**
 * The computer player: a solver for one player with a fixed look-ahead depth. `ChooseMove`
 * scores every candidate move, recursing through a fresh solver for the opponent until the
 * depth limit, and keeps the first candidate of highest score. It is proved to compute
 * `Negamax.Search` with leaves scored as the code scores them.
 */
module Solve {
  import opened Tiles
  import opened BoardState
  import opened Boards
  import opened Negamax

  datatype Option<T> = None | Some(value: T)

  /**
   * After the candidates whose scores are `vals`, the accumulators hold the first candidate of
   * highest score among them and that score; both are empty before any candidate is seen.
   */
  ghost predicate BestSoFar(bestMove: Option<Tile>, bestValue: Option<int>, cands: seq<Tile>, vals: seq<int>)
    requires |vals| <= |cands|
  {
    if vals == [] then bestMove == None && bestValue == None
    else bestMove == Some(cands[ArgBest(vals)]) && bestValue == Some(vals[ArgBest(vals)])
  }

  /** The accumulator update of the solver's loops keeps `BestSoFar`. */
  lemma BestStep(bestMove: Option<Tile>, bestValue: Option<int>, cands: seq<Tile>, vals: seq<int>, moveValue: int)
    requires |vals| < |cands| && BestSoFar(bestMove, bestValue, cands, vals)
    ensures var better := bestValue == None || moveValue > bestValue.value;
            BestSoFar(if better then Some(cands[|vals|]) else bestMove, if better then Some(moveValue) else bestValue, cands, vals + [moveValue])
  {
    assert (vals + [moveValue])[..|vals|] == vals;
  }

  /** The scoring of `p`'s candidates on `s`, as a function of the candidate. */
  ghost function Scorer(s: Snapshot, p: Player, maxdepth: int, depth: int, leaf: LeafScore): Tile -> int
    requires WellFormed(s)
  {
    c => Score(s, p, maxdepth, depth, leaf, c)
  }

  /** `vals` are the scores, under `score`, of the first `|vals|` moves of `cands`, in order. */
  ghost predicate ScoredPrefix(score: Tile -> int, cands: seq<Tile>, vals: seq<int>)
  {
    |vals| <= |cands| && forall m :: 0 <= m < |vals| ==> vals[m] == score(cands[m])
  }

  /** Appending the score of the next candidate keeps `ScoredPrefix`. */
  lemma ScoredStep(score: Tile -> int, cands: seq<Tile>, vals: seq<int>, moveValue: int)
    requires ScoredPrefix(score, cands, vals) && |vals| < |cands| && moveValue == score(cands[|vals|])
    ensures ScoredPrefix(score, cands, vals + [moveValue])
  {
    var more := vals + [moveValue];
    forall m | 0 <= m < |more| ensures more[m] == score(cands[m]) {
      if m < |vals| {
        assert more[m] == vals[m];
      }
    }
  }

  /** Once every candidate is scored, the first best of the scores is the search's result. */
  lemma SearchFromScores(s: Snapshot, p: Player, maxdepth: int, depth: int, leaf: LeafScore, vals: seq<int>)
    requires WellFormed(s) && ScoredPrefix(Scorer(s, p, maxdepth, depth, leaf), Candidates(s, p), vals)
    requires |vals| == |Candidates(s, p)|
    ensures Search(s, p, maxdepth, depth, leaf) == (Candidates(s, p)[ArgBest(vals)], vals[ArgBest(vals)])
  {
    assert vals == Scores(s, p, maxdepth, depth, leaf);
  }

  class Solver {
    const player: Player
    const maxdepth: int

    constructor (player: Player, maxdepth: int)
      ensures this.player == player && this.maxdepth == maxdepth
    {
      this.player := player;
      this.maxdepth := maxdepth;
    }

    /**
     * The move this solver makes on `board` at search depth `depth`, with its value. The board is
     * not changed: every candidate is tried on a copy.
     */
    method ChooseMove(board: Board, depth: int) returns (move: Tile, value: int)
      requires board.Valid()
      ensures (move, value) == Search(board.Snap(), player, maxdepth, depth, BoardBefore)
      decreases Levels(maxdepth, depth), 2
    {
      var potentialMoves := CandidateMoves(board);
      if depth < maxdepth {
        move, value := LookAhead(board, depth, potentialMoves);
      } else {
        move, value := AtLimit(board, depth, potentialMoves);
      }
    }

    /** The loop above the depth limit: each candidate is scored by the opponent's reply. */
    method LookAhead(board: Board, depth: int, potentialMoves: seq<Tile>) returns (move: Tile, value: int)
      requires board.Valid() && depth < maxdepth && potentialMoves == Candidates(board.Snap(), player)
      ensures (move, value) == Search(board.Snap(), player, maxdepth, depth, BoardBefore)
      decreases Levels(maxdepth, depth), 1
    {
      ghost var s := board.Snap();
      ghost var vals: seq<int> := [];
      ghost var score := Scorer(s, player, maxdepth, depth, BoardBefore);
      var bestValue: Option<int> := None;
      var bestMove: Option<Tile> := None;
      for k := 0 to |potentialMoves|
        invariant board.Snap() == s
        invariant |vals| == k && ScoredPrefix(score, potentialMoves, vals)
        invariant BestSoFar(bestMove, bestValue, potentialMoves, vals)
      {
        var moveValue := Reply(board, depth, potentialMoves[k]);
        ScoredStep(score, potentialMoves, vals, moveValue);
        BestStep(bestMove, bestValue, potentialMoves, vals, moveValue);
        if bestValue == None || moveValue > bestValue.value {
          bestMove, bestValue := Some(potentialMoves[k]), Some(moveValue);
        }
        vals := vals + [moveValue];
      }
      SearchFromScores(s, player, maxdepth, depth, BoardBefore, vals);
      move, value := bestMove.value, bestValue.value;
    }

    /**
     * The loop at the depth limit: each candidate is played on a copy, and scored by the value
     * of the board it was played on.
     */
    method AtLimit(board: Board, depth: int, potentialMoves: seq<Tile>) returns (move: Tile, value: int)
      requires board.Valid() && depth >= maxdepth && potentialMoves == Candidates(board.Snap(), player)
      ensures (move, value) == Search(board.Snap(), player, maxdepth, depth, BoardBefore)
    {
      ghost var s := board.Snap();
      ghost var vals: seq<int> := [];
      ghost var score := Scorer(s, player, maxdepth, depth, BoardBefore);
      var bestValue: Option<int> := None;
      var bestMove: Option<Tile> := None;
      for k := 0 to |potentialMoves|
        invariant board.Snap() == s
        invariant |vals| == k && ScoredPrefix(score, potentialMoves, vals)
        invariant BestSoFar(bestMove, bestValue, potentialMoves, vals)
      {
        var moveValue := Leaf(board, depth, potentialMoves[k]);
        ScoredStep(score, potentialMoves, vals, moveValue);
        BestStep(bestMove, bestValue, potentialMoves, vals, moveValue);
        if bestValue == None || moveValue > bestValue.value {
          bestMove, bestValue := Some(potentialMoves[k]), Some(moveValue);
        }
        vals := vals + [moveValue];
      }
      SearchFromScores(s, player, maxdepth, depth, BoardBefore, vals);
      move, value := bestMove.value, bestValue.value;
    }

    /** The potential moves of this solver's player, or else the first legal move alone. */
    method CandidateMoves(board: Board) returns (potentialMoves: seq<Tile>)
      requires board.Valid()
      ensures potentialMoves == Candidates(board.Snap(), player)
    {
      potentialMoves := board.GetPotentialMoves(player);
      if potentialMoves == [] {
        potentialMoves := LegalMoves(board.Snap())[..1];
      }
    }

    /**
     * The score of `move` above the depth limit: make the move on a copy of the board, let a
     * fresh solver for the opponent choose its reply one level deeper, and negate its value.
     */
    method Reply(board: Board, depth: int, move: Tile) returns (moveValue: int)
      requires board.Valid() && depth < maxdepth
      ensures moveValue == Score(board.Snap(), player, maxdepth, depth, BoardBefore, move)
      decreases Levels(maxdepth, depth), 0
    {
      var boardAfterMove := board.AddMove(move, player);
      var opponent := new Solver(Opponent(player), maxdepth);
      var opponentMove, opponentValue := opponent.ChooseMove(boardAfterMove, depth + 1);
      moveValue := -opponentValue;
      ScoreAboveLimit(board.Snap(), player, maxdepth, depth, BoardBefore, move);
    }

    /**
     * The score of `move` at the depth limit: the move is played on a copy, but the value
     * taken is that of the board it was played on.
     */
    method Leaf(board: Board, depth: int, move: Tile) returns (moveValue: int)
      requires board.Valid() && depth >= maxdepth
      ensures moveValue == Score(board.Snap(), player, maxdepth, depth, BoardBefore, move)
    {
      var boardAfterMove := board.AddMove(move, player);
      moveValue := BoardValue(board.Snap(), player);
    }
  }
}
