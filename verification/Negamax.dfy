/**
 * The value-level specification of the solver's look-ahead: a negamax search without pruning
 * over the candidate moves of each position, keeping the first candidate of highest score.
 * `Search` is parameterised by how a leaf is scored: `BoardBefore` is what the solver does (the
 * board the move is made on, whatever the move), `BoardAfter` is the board the move produces.
 */
module Negamax {
  import opened Tiles
  import opened BoardState
  import opened Moves

  /** How a candidate is scored once the search depth is used up. */
  datatype LeafScore = BoardBefore | BoardAfter

  /**
   * The moves the solver tries: the potential moves when there are any, otherwise the first
   * legal move alone.
   */
  ghost function Candidates(s: Snapshot, p: Player): (r: seq<Tile>)
    requires WellFormed(s)
    ensures |r| >= 1
    ensures forall t :: t in r ==> t !in CornerColours(s)
  {
    if PotentialMoves(s, p) != [] then PotentialMoves(s, p) else LegalMoves(s)[..1]
  }

  /**
   * The index the solver settles on when it scans `scores` from the left and replaces its best
   * only by a strictly greater score: the first index of a maximum.
   */
  function ArgBest(scores: seq<int>): (k: nat)
    requires |scores| >= 1
    ensures k < |scores|
    ensures forall m :: 0 <= m < |scores| ==> scores[m] <= scores[k]
    ensures forall m :: 0 <= m < k ==> scores[m] < scores[k]
    decreases |scores|
  {
    if |scores| == 1 then 0
    else
      var k := ArgBest(scores[..|scores| - 1]);
      if scores[|scores| - 1] > scores[k] then |scores| - 1 else k
  }

  /** How many more levels the search may descend from `depth`. */
  function Levels(maxdepth: int, depth: int): nat
  {
    if depth < maxdepth then maxdepth - depth else 0
  }

  /**
   * The move `p` chooses on `s` at `depth`, and its value: every candidate is scored, and the
   * first one of highest score is kept.
   */
  ghost function Search(s: Snapshot, p: Player, maxdepth: int, depth: int, leaf: LeafScore): (r: (Tile, int))
    requires WellFormed(s)
    ensures r.0 in Candidates(s, p)
    decreases Levels(maxdepth, depth), 2
  {
    var cands := Candidates(s, p);
    var scores := Scores(s, p, maxdepth, depth, leaf);
    var k := ArgBest(scores);
    (cands[k], scores[k])
  }

  /** The scores of the candidates, in candidate order. */
  ghost function Scores(s: Snapshot, p: Player, maxdepth: int, depth: int, leaf: LeafScore): (r: seq<int>)
    requires WellFormed(s)
    ensures |r| == |Candidates(s, p)|
    ensures forall m :: 0 <= m < |r| ==> r[m] == Score(s, p, maxdepth, depth, leaf, Candidates(s, p)[m])
    decreases Levels(maxdepth, depth), 1
  {
    var cands := Candidates(s, p);
    seq(|cands|, m requires 0 <= m < |cands| => Score(s, p, maxdepth, depth, leaf, cands[m]))
  }

  /**
   * The score of candidate `c`: above the depth limit, minus the value the opponent obtains
   * after `c` is played; at the limit, the value of the board before or after the move.
   */
  ghost function Score(s: Snapshot, p: Player, maxdepth: int, depth: int, leaf: LeafScore, c: Tile): int
    requires WellFormed(s)
    decreases Levels(maxdepth, depth), 0
  {
    if depth < maxdepth then
      -Search(AfterMove(s, c, p), Opponent(p), maxdepth, depth + 1, leaf).1
    else if leaf == BoardBefore then
      BoardValue(s, p)
    else
      BoardValue(AfterMove(s, c, p), p)
  }

  /**
   * The chosen move is a candidate of highest score, the first such candidate, and its score is
   * the value returned.
   */
  lemma SearchIsFirstBest(s: Snapshot, p: Player, maxdepth: int, depth: int, leaf: LeafScore)
    requires WellFormed(s)
    ensures var r := Search(s, p, maxdepth, depth, leaf);
            var cands := Candidates(s, p);
            (forall c :: c in cands ==> Score(s, p, maxdepth, depth, leaf, c) <= r.1) &&
            exists k :: 0 <= k < |cands| && cands[k] == r.0 && Score(s, p, maxdepth, depth, leaf, r.0) == r.1 &&
              forall m :: 0 <= m < k ==> Score(s, p, maxdepth, depth, leaf, cands[m]) < r.1
  {
    var cands := Candidates(s, p);
    var scores := Scores(s, p, maxdepth, depth, leaf);
    var k := ArgBest(scores);
    var r := Search(s, p, maxdepth, depth, leaf);
    assert r == (cands[k], scores[k]);
    forall c | c in cands ensures Score(s, p, maxdepth, depth, leaf, c) <= r.1 {
      var m :| 0 <= m < |cands| && cands[m] == c;
      assert scores[m] == Score(s, p, maxdepth, depth, leaf, c);
    }
    forall m | 0 <= m < k ensures Score(s, p, maxdepth, depth, leaf, cands[m]) < r.1 {
      assert scores[m] == Score(s, p, maxdepth, depth, leaf, cands[m]);
    }
    assert 0 <= k < |cands| && cands[k] == r.0 && Score(s, p, maxdepth, depth, leaf, r.0) == r.1;
  }

  /**
   * The chosen move is a potential move when there is one, and otherwise the first legal move;
   * either way it is neither corner colour.
   */
  lemma SearchMoveIsLegal(s: Snapshot, p: Player, maxdepth: int, depth: int, leaf: LeafScore)
    requires WellFormed(s)
    ensures PotentialMoves(s, p) != [] ==> Search(s, p, maxdepth, depth, leaf).0 in PotentialMoves(s, p)
    ensures PotentialMoves(s, p) == [] ==> Search(s, p, maxdepth, depth, leaf).0 == LegalMoves(s)[0]
    ensures Search(s, p, maxdepth, depth, leaf).0 !in CornerColours(s)
    ensures Search(s, p, maxdepth, depth, leaf).0 in LegalMoves(s)
  {
    var r := Search(s, p, maxdepth, depth, leaf);
    if PotentialMoves(s, p) == [] {
      assert Candidates(s, p) == [LegalMoves(s)[0]];
    }
  }

  /** The first index of the maximum of a constant sequence is 0. */
  lemma {:induction false} ArgBestConstant(scores: seq<int>, v: int)
    requires |scores| >= 1 && forall m :: 0 <= m < |scores| ==> scores[m] == v
    ensures ArgBest(scores) == 0
    decreases |scores|
  {
    if |scores| > 1 {
      ArgBestConstant(scores[..|scores| - 1], v);
    }
  }

  /**
   * At the depth limit the solver scores every candidate by the board it was given, so all
   * candidates tie: it returns the first candidate and the value of that board.
   */
  lemma LeafIgnoresMove(s: Snapshot, p: Player, maxdepth: int, depth: int)
    requires WellFormed(s) && depth >= maxdepth
    ensures Search(s, p, maxdepth, depth, BoardBefore) == (Candidates(s, p)[0], BoardValue(s, p))
  {
    ArgBestConstant(Scores(s, p, maxdepth, depth, BoardBefore), BoardValue(s, p));
  }

  /**
   * Scoring the leaves by the board after the move makes the last level count: when a move can
   * capture something, the value at the depth limit exceeds the value of the board as it stands.
   */
  lemma LeafAfterMoveRewardsCapture(s: Snapshot, p: Player, maxdepth: int, depth: int)
    requires WellFormed(s) && depth >= maxdepth && PotentialMoves(s, p) != []
    ensures Search(s, p, maxdepth, depth, BoardAfter).1 > BoardValue(s, p)
  {
    var c := PotentialMoves(s, p)[0];
    SearchIsFirstBest(s, p, maxdepth, depth, BoardAfter);
    PotentialMoveGains(s, c, p);
    assert c in Candidates(s, p);
  }

  /**
   * One level above the limit, the solver's score for a candidate is the value of the board
   * the candidate produces: the opponent's leaf value is the negation of the mover's.
   */
  lemma LastLevelScoresNextBoard(s: Snapshot, p: Player, depth: int, c: Tile)
    requires WellFormed(s)
    ensures Score(s, p, depth + 1, depth, BoardBefore, c) == BoardValue(AfterMove(s, c, p), p)
  {
    var after := AfterMove(s, c, p);
    LeafIgnoresMove(after, Opponent(p), depth + 1, depth + 1);
    BoardValueAntisymmetric(after, p);
  }

  /**
   * Because a leaf ignores the move, the solver's search to `maxdepth` is the search that scores
   * leaves after the move, one level shallower.
   */
  lemma {:induction false} SearchIsOneLevelShallower(s: Snapshot, p: Player, maxdepth: int, depth: int)
    requires WellFormed(s) && depth < maxdepth
    ensures Search(s, p, maxdepth, depth, BoardBefore) == Search(s, p, maxdepth - 1, depth, BoardAfter)
    decreases maxdepth - depth, 2
  {
    var cands := Candidates(s, p);
    var written := Scores(s, p, maxdepth, depth, BoardBefore);
    var shallower := Scores(s, p, maxdepth - 1, depth, BoardAfter);
    forall m | 0 <= m < |cands| ensures written[m] == shallower[m] {
      ScoreIsOneLevelShallower(s, p, maxdepth, depth, cands[m]);
    }
    assert written == shallower;
  }

  /** The candidate-by-candidate form of `SearchIsOneLevelShallower`. */
  lemma {:induction false} ScoreIsOneLevelShallower(s: Snapshot, p: Player, maxdepth: int, depth: int, c: Tile)
    requires WellFormed(s) && depth < maxdepth
    ensures Score(s, p, maxdepth, depth, BoardBefore, c) == Score(s, p, maxdepth - 1, depth, BoardAfter, c)
    decreases maxdepth - depth, 1
  {
    if depth + 1 < maxdepth {
      InnerScoreIsOneLevelShallower(s, p, maxdepth, depth, c);
    } else {
      LastScoreIsOneLevelShallower(s, p, depth, c);
    }
  }

  /** Above the last level, both scores negate the opponent's values, which agree by induction. */
  lemma {:induction false} InnerScoreIsOneLevelShallower(s: Snapshot, p: Player, maxdepth: int, depth: int, c: Tile)
    requires WellFormed(s) && depth + 1 < maxdepth
    ensures Score(s, p, maxdepth, depth, BoardBefore, c) == Score(s, p, maxdepth - 1, depth, BoardAfter, c)
    decreases maxdepth - depth, 0
  {
    var after := AfterMove(s, c, p);
    SearchIsOneLevelShallower(after, Opponent(p), maxdepth, depth + 1);
    ScoreAboveLimit(s, p, maxdepth, depth, BoardBefore, c);
    ScoreAboveLimit(s, p, maxdepth - 1, depth, BoardAfter, c);
  }

  /** On the last level both scores are the value of the board the move produces. */
  lemma LastScoreIsOneLevelShallower(s: Snapshot, p: Player, depth: int, c: Tile)
    requires WellFormed(s)
    ensures Score(s, p, depth + 1, depth, BoardBefore, c) == Score(s, p, depth, depth, BoardAfter, c)
  {
    LastLevelScoresNextBoard(s, p, depth, c);
    ScoreAtLimit(s, p, depth, depth, c);
  }

  /** Unfolding helper: above the depth limit a score is minus the opponent's value after the move. */
  lemma ScoreAboveLimit(s: Snapshot, p: Player, maxdepth: int, depth: int, leaf: LeafScore, c: Tile)
    requires WellFormed(s) && depth < maxdepth
    ensures Score(s, p, maxdepth, depth, leaf, c) == -Search(AfterMove(s, c, p), Opponent(p), maxdepth, depth + 1, leaf).1
  {
  }

  /** Unfolding helper: at the depth limit, scoring after the move is the value of the board the move produces. */
  lemma ScoreAtLimit(s: Snapshot, p: Player, maxdepth: int, depth: int, c: Tile)
    requires WellFormed(s) && depth >= maxdepth
    ensures Score(s, p, maxdepth, depth, BoardAfter, c) == BoardValue(AfterMove(s, c, p), p)
  {
  }

  /**
   * One level above the limit the solver is greedy: it returns the first candidate whose
   * resulting board is worth most to it, and that board's value.
   */
  lemma OneLevelIsGreedy(s: Snapshot, p: Player, depth: int)
    requires WellFormed(s)
    ensures var r := Search(s, p, depth + 1, depth, BoardBefore);
            (forall c :: c in Candidates(s, p) ==> BoardValue(AfterMove(s, c, p), p) <= r.1) &&
            BoardValue(AfterMove(s, r.0, p), p) == r.1 &&
            exists k :: 0 <= k < |Candidates(s, p)| && Candidates(s, p)[k] == r.0 &&
              forall m :: 0 <= m < k ==> BoardValue(AfterMove(s, Candidates(s, p)[m], p), p) < r.1
  {
    SearchIsFirstBest(s, p, depth + 1, depth, BoardBefore);
    var r := Search(s, p, depth + 1, depth, BoardBefore);
    forall c | c in Candidates(s, p) ensures BoardValue(AfterMove(s, c, p), p) <= r.1 {
      LastLevelScoresNextBoard(s, p, depth, c);
    }
    LastLevelScoresNextBoard(s, p, depth, r.0);
    var k := FirstBestIndex(s, p, depth + 1, depth, BoardBefore);
    NextBoardsBelow(s, p, depth, k, r.1);
  }

  /** The position of the chosen move among the candidates: every earlier candidate scores less. */
  lemma FirstBestIndex(s: Snapshot, p: Player, maxdepth: int, depth: int, leaf: LeafScore) returns (k: nat)
    requires WellFormed(s)
    ensures k < |Candidates(s, p)| && Candidates(s, p)[k] == Search(s, p, maxdepth, depth, leaf).0
    ensures forall m :: 0 <= m < k ==> Score(s, p, maxdepth, depth, leaf, Candidates(s, p)[m]) < Search(s, p, maxdepth, depth, leaf).1
  {
    var scores := Scores(s, p, maxdepth, depth, leaf);
    k := ArgBest(scores);
  }

  /** Candidates scored below `v` one level above the limit produce boards worth less than `v`. */
  lemma NextBoardsBelow(s: Snapshot, p: Player, depth: int, k: int, v: int)
    requires WellFormed(s) && 0 <= k < |Candidates(s, p)|
    requires forall m :: 0 <= m < k ==> Score(s, p, depth + 1, depth, BoardBefore, Candidates(s, p)[m]) < v
    ensures forall m :: 0 <= m < k ==> BoardValue(AfterMove(s, Candidates(s, p)[m], p), p) < v
  {
    forall m | 0 <= m < k ensures BoardValue(AfterMove(s, Candidates(s, p)[m], p), p) < v {
      LastLevelScoresNextBoard(s, p, depth, Candidates(s, p)[m]);
    }
  }
}
