/** The game-tree search: plain minimax as the reference value, alpha-beta with
    depth-adjusted terminal scores as the search the engine runs, and the engine
    object that counts the nodes it evaluates. */
module Search {

  import opened Wrappers
  import opened Players
  import opened Rules
  import opened Boards
  import opened Strategy

  /** The sentinels `i32::MIN` and `i32::MAX` that open the search window. */
  const I32Min: int := -0x8000_0000
  const I32Max: int := 0x7fff_ffff

  function Max(a: int, b: int): int
  {
    if a >= b then a else b
  }

  function Min(a: int, b: int): int
  {
    if a <= b then a else b
  }

  /** The score the side to move prefers of two: the larger for the AI, the smaller
      for the human. */
  function Better(maximizing: bool, a: int, b: int): int
  {
    if maximizing then Max(a, b) else Min(a, b)
  }

  /** Score of a decided board reached `depth` plies below the root's children:
      a win counts more the sooner it comes, a loss counts less the later it comes. */
  function TerminalScore(state: GameState, depth: nat): (r: int)
    ensures depth <= 10 ==> -11 <= r <= 11
    ensures depth <= 10 ==> (r > 0 <==> state == Win(AI)) && (r < 0 <==> state == Win(Human))
  {
    var base := EvaluateTerminalState(state);
    if base > 0 then base + (10 - depth)
    else if base < 0 then base - (10 - depth)
    else base
  }

  /** A sooner win scores strictly more and a sooner loss strictly less; draws score 0. */
  lemma TerminalScoreByDepth(d1: nat, d2: nat)
    requires d1 < d2
    ensures TerminalScore(Win(AI), d1) > TerminalScore(Win(AI), d2)
    ensures TerminalScore(Win(Human), d1) < TerminalScore(Win(Human), d2)
    ensures TerminalScore(Draw, d1) == 0
  {
  }

  /** The depth guard never fires on a board reached by legal play from the root's
      children: `depth` plus the empty cells stays at most 9, so a board still in
      progress sits at depth 8 or less, and every child keeps the bound. */
  lemma DepthGuardUnreachable(g: Grid, depth: nat, player: Player)
    requires depth + |AvailableMoves(g)| <= 9
    ensures GameStateOf(g) == InProgress ==> depth <= 8
    ensures forall p: Pos :: IsValidMove(g, p) ==> depth + 1 + |AvailableMoves(Place(g, p, player))| <= 9
  {
    if GameStateOf(g) == InProgress {
      InProgressHasMoves(g);
    }
    forall p: Pos | IsValidMove(g, p)
      ensures depth + 1 + |AvailableMoves(Place(g, p, player))| <= 9
    {
      PlaceShrinksMoves(g, p, player);
    }
  }

  /** The root's children, searched at depth 0, start within that bound: at most 8 empty cells. */
  lemma RootChildrenWithinBound(g: Grid, position: Pos)
    requires IsValidMove(g, position)
    ensures |AvailableMoves(Place(g, position, AI))| <= 8
  {
    PlaceShrinksMoves(g, position, AI);
  }

  predicate AllValid(g: Grid, moves: seq<nat>)
  {
    forall j :: 0 <= j < |moves| ==> IsValidMove(g, moves[j])
  }

  /** The legal moves in the order the search tries them. */
  function OrderedMoves(g: Grid): (r: seq<nat>)
    ensures AllValid(g, r)
    ensures |r| == |AvailableMoves(g)|
  {
    var s := AvailableMoves(g);
    ByPriorityIsPermutation(s);
    var r := ByPriority(s);
    assert forall j :: 0 <= j < |r| ==> r[j] in multiset(s);
    r
  }

  function Mover(maximizing: bool): Player
  {
    if maximizing then AI else Human
  }

  /** Plain minimax, no pruning: the value of `g` for the side to move, over the same
      ordered moves, terminal scores and depth guard as the search. */
  function Value(g: Grid, depth: nat, maximizing: bool): int
    decreases |AvailableMoves(g)|, 1
  {
    var state := GameStateOf(g);
    if state != InProgress then TerminalScore(state, depth)
    else if depth > 9 then HeuristicEvaluation(g)
    else ValueOver(g, OrderedMoves(g), 0, depth, maximizing)
  }

  /** The best, for the side to move, of the children reached by `moves[k..]`; the
      sentinel when there is none. */
  function ValueOver(g: Grid, moves: seq<nat>, k: nat, depth: nat, maximizing: bool): (r: int)
    requires k <= |moves| && AllValid(g, moves)
    ensures maximizing ==> r >= I32Min
    ensures !maximizing ==> r <= I32Max
    decreases |AvailableMoves(g)|, 0, |moves| - k
  {
    if k == |moves| then (if maximizing then I32Min else I32Max)
    else
      PlaceShrinksMoves(g, moves[k], Mover(maximizing));
      var v := Value(Place(g, moves[k], Mover(maximizing)), depth + 1, !maximizing);
      var rest := ValueOver(g, moves, k + 1, depth, maximizing);
      Better(maximizing, v, rest)
  }

  /** What one search call returns, and how many search calls it made, itself included. */
  datatype Eval = Eval(score: int, nodes: nat)

  /** Alpha-beta search as the engine runs it. */
  function AlphaBeta(g: Grid, depth: nat, maximizing: bool, alpha: int, beta: int): (e: Eval)
    ensures e.nodes >= 1
    decreases |AvailableMoves(g)|, 1
  {
    var state := GameStateOf(g);
    if state != InProgress then Eval(TerminalScore(state, depth), 1)
    else if depth > 9 then Eval(HeuristicEvaluation(g), 1)
    else
      var e := Loop(g, OrderedMoves(g), 0, depth, maximizing, alpha, beta,
                    if maximizing then I32Min else I32Max);
      Eval(e.score, e.nodes + 1)
  }

  /** The move loop of an alpha-beta node from move `k` on, with the running window
      and the best score so far; it stops as soon as `beta <= alpha`. */
  function Loop(g: Grid, moves: seq<nat>, k: nat, depth: nat, maximizing: bool,
                alpha: int, beta: int, best: int): Eval
    requires k <= |moves| && AllValid(g, moves)
    decreases |AvailableMoves(g)|, 0, |moves| - k
  {
    if k == |moves| then Eval(best, 0)
    else
      PlaceShrinksMoves(g, moves[k], Mover(maximizing));
      var e := AlphaBeta(Place(g, moves[k], Mover(maximizing)), depth + 1, !maximizing, alpha, beta);
      var best' := Better(maximizing, best, e.score);
      var alpha' := if maximizing then Max(alpha, e.score) else alpha;
      var beta' := if maximizing then beta else Min(beta, e.score);
      if beta' <= alpha' then Eval(best', e.nodes)
      else
        var rest := Loop(g, moves, k + 1, depth, maximizing, alpha', beta', best');
        Eval(rest.score, e.nodes + rest.nodes)
  }

  /** Number of search calls without any pruning. */
  function TreeSize(g: Grid, depth: nat, maximizing: bool): nat
    decreases |AvailableMoves(g)|, 1
  {
    if GameStateOf(g) != InProgress || depth > 9 then 1
    else 1 + SizeOver(g, OrderedMoves(g), 0, depth, maximizing)
  }

  function SizeOver(g: Grid, moves: seq<nat>, k: nat, depth: nat, maximizing: bool): nat
    requires k <= |moves| && AllValid(g, moves)
    decreases |AvailableMoves(g)|, 0, |moves| - k
  {
    if k == |moves| then 0
    else
      PlaceShrinksMoves(g, moves[k], Mover(maximizing));
      TreeSize(Place(g, moves[k], Mover(maximizing)), depth + 1, !maximizing) +
      SizeOver(g, moves, k + 1, depth, maximizing)
  }

  /** Fail-soft alpha-beta contract: exact inside the window, an upper bound on a
      value at or below `alpha`, a lower bound on a value at or above `beta`. */
  predicate Bounded(r: int, v: int, alpha: int, beta: int)
  {
    (v <= alpha ==> v <= r <= alpha) &&
    (alpha < v < beta ==> r == v) &&
    (beta <= v ==> beta <= r <= v)
  }

  /** Every minimax value within ten plies lies in [-11, 11]. */
  lemma {:induction false} ValueBounds(g: Grid, depth: nat, maximizing: bool)
    requires depth <= 10
    ensures -11 <= Value(g, depth, maximizing) <= 11
    decreases |AvailableMoves(g)|, 1
  {
    if GameStateOf(g) == InProgress && depth <= 9 {
      InProgressHasMoves(g);
      ValueOverBounds(g, OrderedMoves(g), 0, depth, maximizing);
    }
  }

  lemma {:induction false} ValueOverBounds(g: Grid, moves: seq<nat>, k: nat, depth: nat, maximizing: bool)
    requires k < |moves| && AllValid(g, moves) && depth <= 9
    ensures -11 <= ValueOver(g, moves, k, depth, maximizing) <= 11
    decreases |AvailableMoves(g)|, 0, |moves| - k
  {
    PlaceShrinksMoves(g, moves[k], Mover(maximizing));
    ValueBounds(Place(g, moves[k], Mover(maximizing)), depth + 1, !maximizing);
    if k + 1 < |moves| {
      ValueOverBounds(g, moves, k + 1, depth, maximizing);
    }
  }

  /** Within ten plies the search returns a score in [-11, 11], whatever the window. */
  lemma {:induction false} AlphaBetaBounds(g: Grid, depth: nat, maximizing: bool, alpha: int, beta: int)
    requires depth <= 10
    ensures -11 <= AlphaBeta(g, depth, maximizing, alpha, beta).score <= 11
    decreases |AvailableMoves(g)|, 1
  {
    if GameStateOf(g) == InProgress && depth <= 9 {
      InProgressHasMoves(g);
      LoopBounds(g, OrderedMoves(g), 0, depth, maximizing, alpha, beta,
                 if maximizing then I32Min else I32Max);
    }
  }

  lemma {:induction false} LoopBounds(g: Grid, moves: seq<nat>, k: nat, depth: nat, maximizing: bool,
                                      alpha: int, beta: int, best: int)
    requires k <= |moves| && AllValid(g, moves) && depth <= 9
    requires -11 <= best <= 11 || (k < |moves| && best == if maximizing then I32Min else I32Max)
    ensures -11 <= Loop(g, moves, k, depth, maximizing, alpha, beta, best).score <= 11
    decreases |AvailableMoves(g)|, 0, |moves| - k
  {
    if k < |moves| {
      PlaceShrinksMoves(g, moves[k], Mover(maximizing));
      var e := AlphaBeta(Place(g, moves[k], Mover(maximizing)), depth + 1, !maximizing, alpha, beta);
      AlphaBetaBounds(Place(g, moves[k], Mover(maximizing)), depth + 1, !maximizing, alpha, beta);
      var best' := Better(maximizing, best, e.score);
      var alpha' := if maximizing then Max(alpha, e.score) else alpha;
      var beta' := if maximizing then beta else Min(beta, e.score);
      if beta' > alpha' {
        LoopBounds(g, moves, k + 1, depth, maximizing, alpha', beta', best');
      }
    }
  }

  /** Alpha-beta is sound: for any window inside the i32 range its score stands in the
      fail-soft relation to the plain minimax value. */
  lemma {:induction false} AlphaBetaSound(g: Grid, depth: nat, maximizing: bool, alpha: int, beta: int)
    requires depth <= 10
    requires I32Min <= alpha < beta <= I32Max
    ensures Bounded(AlphaBeta(g, depth, maximizing, alpha, beta).score, Value(g, depth, maximizing), alpha, beta)
    decreases |AvailableMoves(g)|, 1
  {
    if GameStateOf(g) == InProgress && depth <= 9 {
      var moves := OrderedMoves(g);
      if maximizing {
        LoopSound(g, moves, 0, depth, true, alpha, beta, alpha, beta, I32Min, I32Min);
      } else {
        LoopSound(g, moves, 0, depth, false, alpha, beta, alpha, beta, I32Max, I32Max);
      }
    }
  }

  /** The loop invariant of an alpha-beta node opened with the window `(alpha0, beta0)`:
      `prefix` is the minimax value of the moves already tried, `best` the score the loop
      holds for them, and `(alpha, beta)` the window it has narrowed to. */
  predicate WindowInvariant(maximizing: bool, alpha0: int, beta0: int, alpha: int, beta: int,
                            best: int, prefix: int)
  {
    I32Min <= alpha0 < beta0 <= I32Max && alpha < beta &&
    (maximizing ==>
      beta == beta0 && alpha == Max(alpha0, best) && I32Min <= prefix < beta0 &&
      (prefix <= alpha0 ==> prefix <= best <= alpha0) && (alpha0 < prefix ==> best == prefix)) &&
    (!maximizing ==>
      alpha == alpha0 && beta == Min(beta0, best) && alpha0 < prefix <= I32Max &&
      (beta0 <= prefix ==> beta0 <= best <= prefix) && (prefix < beta0 ==> best == prefix))
  }

  /** One step of the loop on a child scored `r` whose minimax value is `v`: when the
      window closes, the score held is already fail-soft correct whatever the untried
      moves are worth (`rest`); otherwise the invariant carries over. */
  lemma WindowStep(maximizing: bool, alpha0: int, beta0: int, alpha: int, beta: int,
                   best: int, prefix: int, r: int, v: int, rest: int)
    requires WindowInvariant(maximizing, alpha0, beta0, alpha, beta, best, prefix)
    requires Bounded(r, v, alpha, beta)
    requires maximizing ==> rest >= I32Min
    requires !maximizing ==> rest <= I32Max
    ensures Better(maximizing, Better(maximizing, prefix, v), rest) ==
            Better(maximizing, prefix, Better(maximizing, v, rest))
    ensures var alpha' := if maximizing then Max(alpha, r) else alpha;
            var beta' := if maximizing then beta else Min(beta, r);
            (beta' <= alpha' ==>
              Bounded(Better(maximizing, best, r), Better(maximizing, prefix, Better(maximizing, v, rest)),
                      alpha0, beta0)) &&
            (beta' > alpha' ==>
              WindowInvariant(maximizing, alpha0, beta0, alpha', beta', Better(maximizing, best, r),
                              Better(maximizing, prefix, v)))
  {
  }

  /** When the moves run out, the score held is fail-soft correct for the value of the
      moves tried. */
  lemma WindowEnd(maximizing: bool, alpha0: int, beta0: int, alpha: int, beta: int,
                  best: int, prefix: int)
    requires WindowInvariant(maximizing, alpha0, beta0, alpha, beta, best, prefix)
    ensures Bounded(best, Better(maximizing, prefix, if maximizing then I32Min else I32Max), alpha0, beta0)
  {
  }

  /** The loop keeps the window invariant and so ends fail-soft correct. */
  lemma {:induction false} LoopSound(g: Grid, moves: seq<nat>, k: nat, depth: nat, maximizing: bool,
                                     alpha0: int, beta0: int, alpha: int, beta: int, best: int, prefix: int)
    requires k <= |moves| && AllValid(g, moves) && depth <= 9
    requires WindowInvariant(maximizing, alpha0, beta0, alpha, beta, best, prefix)
    ensures Bounded(Loop(g, moves, k, depth, maximizing, alpha, beta, best).score,
                    Better(maximizing, prefix, ValueOver(g, moves, k, depth, maximizing)), alpha0, beta0)
    decreases |AvailableMoves(g)|, 0, |moves| - k, 1
  {
    if k == |moves| {
      WindowEnd(maximizing, alpha0, beta0, alpha, beta, best, prefix);
    } else {
      LoopStepSound(g, moves, k, depth, maximizing, alpha0, beta0, alpha, beta, best, prefix);
    }
  }

  /** The step of `LoopSound` on move `k`: the child's search is sound for the current
      window, and either the window closes or the invariant carries to move `k + 1`. */
  lemma {:induction false} LoopStepSound(g: Grid, moves: seq<nat>, k: nat, depth: nat, maximizing: bool,
                                         alpha0: int, beta0: int, alpha: int, beta: int, best: int, prefix: int)
    requires k < |moves| && AllValid(g, moves) && depth <= 9
    requires WindowInvariant(maximizing, alpha0, beta0, alpha, beta, best, prefix)
    ensures Bounded(Loop(g, moves, k, depth, maximizing, alpha, beta, best).score,
                    Better(maximizing, prefix, ValueOver(g, moves, k, depth, maximizing)), alpha0, beta0)
    decreases |AvailableMoves(g)|, 0, |moves| - k, 0
  {
    var child := Place(g, moves[k], Mover(maximizing));
    PlaceShrinksMoves(g, moves[k], Mover(maximizing));
    AlphaBetaSound(child, depth + 1, !maximizing, alpha, beta);
    var r := AlphaBeta(child, depth + 1, !maximizing, alpha, beta).score;
    var v := Value(child, depth + 1, !maximizing);
    var rest := ValueOver(g, moves, k + 1, depth, maximizing);
    WindowStep(maximizing, alpha0, beta0, alpha, beta, best, prefix, r, v, rest);
    assert ValueOver(g, moves, k, depth, maximizing) == Better(maximizing, v, rest);
    var alpha' := if maximizing then Max(alpha, r) else alpha;
    var beta' := if maximizing then beta else Min(beta, r);
    if beta' > alpha' {
      LoopSound(g, moves, k + 1, depth, maximizing, alpha0, beta0, alpha', beta',
                Better(maximizing, best, r), Better(maximizing, prefix, v));
      assert Loop(g, moves, k, depth, maximizing, alpha, beta, best).score ==
             Loop(g, moves, k + 1, depth, maximizing, alpha', beta', Better(maximizing, best, r)).score;
    } else {
      assert Loop(g, moves, k, depth, maximizing, alpha, beta, best).score == Better(maximizing, best, r);
    }
  }

  /** With the full window `(i32::MIN, i32::MAX)` pruning does not change the result:
      alpha-beta returns exactly the plain minimax value. */
  lemma FullWindow(g: Grid, depth: nat, maximizing: bool)
    requires depth <= 10
    ensures AlphaBeta(g, depth, maximizing, I32Min, I32Max).score == Value(g, depth, maximizing)
  {
    AlphaBetaSound(g, depth, maximizing, I32Min, I32Max);
    ValueBounds(g, depth, maximizing);
  }

  /** Pruning only ever saves work: alpha-beta makes no more calls than plain minimax. */
  lemma {:induction false} PruningVisitsNoMore(g: Grid, depth: nat, maximizing: bool, alpha: int, beta: int)
    ensures AlphaBeta(g, depth, maximizing, alpha, beta).nodes <= TreeSize(g, depth, maximizing)
    decreases |AvailableMoves(g)|, 1
  {
    if GameStateOf(g) == InProgress && depth <= 9 {
      LoopVisitsNoMore(g, OrderedMoves(g), 0, depth, maximizing, alpha, beta,
                       if maximizing then I32Min else I32Max);
    }
  }

  lemma {:induction false} LoopVisitsNoMore(g: Grid, moves: seq<nat>, k: nat, depth: nat, maximizing: bool,
                                            alpha: int, beta: int, best: int)
    requires k <= |moves| && AllValid(g, moves)
    ensures Loop(g, moves, k, depth, maximizing, alpha, beta, best).nodes <= SizeOver(g, moves, k, depth, maximizing)
    decreases |AvailableMoves(g)|, 0, |moves| - k
  {
    if k < |moves| {
      PlaceShrinksMoves(g, moves[k], Mover(maximizing));
      var e := AlphaBeta(Place(g, moves[k], Mover(maximizing)), depth + 1, !maximizing, alpha, beta);
      PruningVisitsNoMore(Place(g, moves[k], Mover(maximizing)), depth + 1, !maximizing, alpha, beta);
      var best' := Better(maximizing, best, e.score);
      var alpha' := if maximizing then Max(alpha, e.score) else alpha;
      var beta' := if maximizing then beta else Min(beta, e.score);
      if beta' > alpha' {
        LoopVisitsNoMore(g, moves, k + 1, depth, maximizing, alpha', beta', best');
      }
    }
  }

  /** Score of the AI taking `position`, as the root loop sees it. */
  function RootScore(g: Grid, position: Pos): int
  {
    Value(Place(g, position, AI), 0, false)
  }

  /** `move` is the first of `ordered` whose root score is the highest. */
  predicate FirstBest(g: Grid, ordered: seq<nat>, move: nat)
    requires AllValid(g, ordered)
  {
    exists k :: 0 <= k < |ordered| && ordered[k] == move &&
      (forall j :: 0 <= j < |ordered| ==> RootScore(g, ordered[j]) <= RootScore(g, ordered[k])) &&
      (forall j :: 0 <= j < k ==> RootScore(g, ordered[j]) < RootScore(g, ordered[k]))
  }

  /** The index the root loop settles on, scanning `scores` from `k` while holding
      index `best` with score `bestScore`; only a strictly higher score replaces it. */
  function FirstMaxFrom(scores: seq<int>, k: nat, best: nat, bestScore: int): nat
    requires k <= |scores|
    decreases |scores| - k
  {
    if k == |scores| then best
    else if scores[k] > bestScore then FirstMaxFrom(scores, k + 1, k, scores[k])
    else FirstMaxFrom(scores, k + 1, best, bestScore)
  }

  /** Scanning from a sentinel below every score ends on the first highest score. */
  lemma {:induction false} FirstMaxFromIsFirstMax(scores: seq<int>, k: nat, best: nat, bestScore: int)
    requires k <= |scores| && |scores| > 0
    requires k == 0 ==> forall j :: 0 <= j < |scores| ==> scores[j] > bestScore
    requires k > 0 ==>
               best < k && bestScore == scores[best] &&
               (forall j :: 0 <= j < k ==> scores[j] <= bestScore) &&
               (forall j :: 0 <= j < best ==> scores[j] < bestScore)
    ensures FirstMaxFrom(scores, k, best, bestScore) < |scores|
    ensures forall j :: 0 <= j < |scores| ==>
              scores[j] <= scores[FirstMaxFrom(scores, k, best, bestScore)]
    ensures forall j :: 0 <= j < FirstMaxFrom(scores, k, best, bestScore) ==>
              scores[j] < scores[FirstMaxFrom(scores, k, best, bestScore)]
    decreases |scores| - k
  {
    if k < |scores| {
      if scores[k] > bestScore {
        FirstMaxFromIsFirstMax(scores, k + 1, k, scores[k]);
      } else {
        FirstMaxFromIsFirstMax(scores, k + 1, best, bestScore);
      }
    }
  }

  /** What the root loop ends with: the move it keeps and the search calls it made. */
  datatype Choice = Choice(move: nat, nodes: nat)

  /** The root loop from move `k` on, holding `bestMove` with `bestScore`: every move is
      searched with the full window, and only a strictly higher score replaces the move held. */
  function SearchRootFrom(g: Grid, ordered: seq<nat>, k: nat, bestMove: nat, bestScore: int): Choice
    requires k <= |ordered| && AllValid(g, ordered)
    decreases |ordered| - k
  {
    if k == |ordered| then Choice(bestMove, 0)
    else
      var e := AlphaBeta(Place(g, ordered[k], AI), 0, false, I32Min, I32Max);
      var rest := if e.score > bestScore then SearchRootFrom(g, ordered, k + 1, ordered[k], e.score)
                  else SearchRootFrom(g, ordered, k + 1, bestMove, bestScore);
      Choice(rest.move, e.nodes + rest.nodes)
  }

  /** Calls made by the full-window searches of the root moves `ordered[k..]`. */
  function RootNodesFrom(g: Grid, ordered: seq<nat>, k: nat): nat
    requires k <= |ordered| && AllValid(g, ordered)
    decreases |ordered| - k
  {
    if k == |ordered| then 0
    else AlphaBeta(Place(g, ordered[k], AI), 0, false, I32Min, I32Max).nodes + RootNodesFrom(g, ordered, k + 1)
  }

  /** The root never prunes: its node count does not depend on the move held. */
  lemma {:induction false} SearchRootFromNodes(g: Grid, ordered: seq<nat>, k: nat, bestMove: nat, bestScore: int)
    requires k <= |ordered| && AllValid(g, ordered)
    ensures SearchRootFrom(g, ordered, k, bestMove, bestScore).nodes == RootNodesFrom(g, ordered, k)
    decreases |ordered| - k
  {
    if k < |ordered| {
      var e := AlphaBeta(Place(g, ordered[k], AI), 0, false, I32Min, I32Max);
      SearchRootFromNodes(g, ordered, k + 1, ordered[k], e.score);
      SearchRootFromNodes(g, ordered, k + 1, bestMove, bestScore);
    }
  }

  /** The move the root loop keeps, given the scores of the root moves. */
  function PickFrom(ordered: seq<nat>, scores: seq<int>, k: nat, bestMove: nat, bestScore: int): nat
    requires k <= |ordered| == |scores|
    decreases |ordered| - k
  {
    if k == |ordered| then bestMove
    else if scores[k] > bestScore then PickFrom(ordered, scores, k + 1, ordered[k], scores[k])
    else PickFrom(ordered, scores, k + 1, bestMove, bestScore)
  }

  /** `scores` lists the full-window search scores of the root moves `ordered[k..]`. */
  predicate RootScoresFrom(g: Grid, ordered: seq<nat>, scores: seq<int>, k: nat)
    requires AllValid(g, ordered)
  {
    |scores| == |ordered| &&
    forall j :: k <= j < |ordered| ==>
      scores[j] == AlphaBeta(Place(g, ordered[j], AI), 0, false, I32Min, I32Max).score
  }

  /** The root loop keeps the move `PickFrom` names from the full-window scores. */
  lemma {:induction false} SearchRootFromPick(g: Grid, ordered: seq<nat>, scores: seq<int>, k: nat,
                                              bestMove: nat, bestScore: int)
    requires k <= |ordered| && AllValid(g, ordered) && RootScoresFrom(g, ordered, scores, k)
    ensures SearchRootFrom(g, ordered, k, bestMove, bestScore).move ==
            PickFrom(ordered, scores, k, bestMove, bestScore)
    decreases |ordered| - k
  {
    if k < |ordered| {
      assert scores[k] == AlphaBeta(Place(g, ordered[k], AI), 0, false, I32Min, I32Max).score;
      if scores[k] > bestScore {
        SearchRootFromPick(g, ordered, scores, k + 1, ordered[k], scores[k]);
      } else {
        SearchRootFromPick(g, ordered, scores, k + 1, bestMove, bestScore);
      }
    }
  }

  /** `PickFrom` names the entry of `ordered` at the index `FirstMaxFrom` finds. */
  lemma {:induction false} PickFromIsFirstMax(ordered: seq<nat>, scores: seq<int>, k: nat,
                                              bestMove: nat, bestIndex: nat, bestScore: int)
    requires k <= |ordered| == |scores| && |ordered| > 0
    requires k == 0 ==> forall j :: 0 <= j < |scores| ==> scores[j] > bestScore
    requires k > 0 ==> bestIndex < k && ordered[bestIndex] == bestMove
    ensures FirstMaxFrom(scores, k, bestIndex, bestScore) < |ordered|
    ensures PickFrom(ordered, scores, k, bestMove, bestScore) == ordered[FirstMaxFrom(scores, k, bestIndex, bestScore)]
    decreases |ordered| - k
  {
    if k < |ordered| {
      if scores[k] > bestScore {
        PickFromIsFirstMax(ordered, scores, k + 1, ordered[k], k, scores[k]);
      } else {
        PickFromIsFirstMax(ordered, scores, k + 1, bestMove, bestIndex, bestScore);
      }
    }
  }

  /** The root loop, started below every score, keeps a first best move. */
  lemma RootChoiceIsFirstBest(g: Grid, ordered: seq<nat>, initialMove: nat)
    requires AllValid(g, ordered) && |ordered| > 0
    ensures FirstBest(g, ordered, SearchRootFrom(g, ordered, 0, initialMove, I32Min).move)
  {
    var scores := seq(|ordered|, j requires 0 <= j < |ordered| =>
                        AlphaBeta(Place(g, ordered[j], AI), 0, false, I32Min, I32Max).score);
    forall j | 0 <= j < |ordered|
      ensures scores[j] == RootScore(g, ordered[j]) && scores[j] > I32Min
    {
      FullWindow(Place(g, ordered[j], AI), 0, false);
      ValueBounds(Place(g, ordered[j], AI), 0, false);
    }
    SearchRootFromPick(g, ordered, scores, 0, initialMove, I32Min);
    PickFromIsFirstMax(ordered, scores, 0, initialMove, 0, I32Min);
    FirstMaxFromIsFirstMax(scores, 0, 0, I32Min);
    var k := FirstMaxFrom(scores, 0, 0, I32Min);
    assert ordered[k] == SearchRootFrom(g, ordered, 0, initialMove, I32Min).move;
  }

  class MiniMax {
    const debug: bool
    var nodesEvaluated: nat

    constructor(debug: bool)
      ensures this.debug == debug && nodesEvaluated == 0
    {
      this.debug := debug;
      nodesEvaluated := 0;
    }

    /** The AI's move: the center on an empty board, the only legal move when there is
        one, otherwise the first move in priority order with the best full-window score. */
    method GetBestMove(board: Board) returns (move: nat)
      requires board.Valid()
      requires AvailableMoves(board.Cells()) != []
      modifies this
      ensures IsValidMove(board.Cells(), move)
      ensures IsEmpty(board.Cells()) ==> move == 4 && nodesEvaluated == 0
      ensures !IsEmpty(board.Cells()) && |AvailableMoves(board.Cells())| == 1 ==>
                move == AvailableMoves(board.Cells())[0] && nodesEvaluated == 0
      ensures !IsEmpty(board.Cells()) && |AvailableMoves(board.Cells())| > 1 ==>
                FirstBest(board.Cells(), OrderedMoves(board.Cells()), move) &&
                nodesEvaluated == RootNodesFrom(board.Cells(), OrderedMoves(board.Cells()), 0)
    {
      nodesEvaluated := 0;
      ghost var g := board.Cells();
      if IsEmpty(board.Cells()) {
        return 4;
      }
      var availableMoves := AvailableMoves(board.Cells());
      if |availableMoves| == 1 {
        return availableMoves[0];
      }
      var ordered := OrderMoves(availableMoves);
      assert ordered == OrderedMoves(g);
      move := SearchRoot(board, ordered, availableMoves[0]);
      RootChoiceIsFirstBest(g, ordered, availableMoves[0]);
      SearchRootFromNodes(g, ordered, 0, availableMoves[0], I32Min);
    }

    /** The root loop: each of `ordered` is scored by a full-window search on a clone,
        and only a strictly higher score replaces the move held so far, which starts
        as `initialMove` below every score. */
    method SearchRoot(board: Board, ordered: seq<nat>, initialMove: nat) returns (bestMove: nat)
      requires board.Valid() && AllValid(board.Cells(), ordered)
      requires IsValidMove(board.Cells(), initialMove)
      modifies this
      ensures IsValidMove(board.Cells(), bestMove)
      ensures bestMove == SearchRootFrom(board.Cells(), ordered, 0, initialMove, I32Min).move
      ensures nodesEvaluated == old(nodesEvaluated) + SearchRootFrom(board.Cells(), ordered, 0, initialMove, I32Min).nodes
    {
      ghost var g := board.Cells();
      ghost var start := nodesEvaluated;
      bestMove := initialMove;
      var bestScore := I32Min;
      var i := 0;
      while i < |ordered|
        invariant 0 <= i <= |ordered| && start <= nodesEvaluated
        invariant board.Cells() == g
        invariant IsValidMove(g, bestMove)
        invariant SearchRootFrom(g, ordered, 0, initialMove, I32Min).move ==
                  SearchRootFrom(g, ordered, i, bestMove, bestScore).move
        invariant SearchRootFrom(g, ordered, 0, initialMove, I32Min).nodes ==
                  nodesEvaluated - start + SearchRootFrom(g, ordered, i, bestMove, bestScore).nodes
      {
        var score := ScoreRootMove(board, ordered[i]);
        if score > bestScore {
          bestScore := score;
          bestMove := ordered[i];
        }
        i := i + 1;
      }
    }

    /** The full-window search of the AI taking `position`, on a clone of `board`. */
    method ScoreRootMove(board: Board, position: nat) returns (score: int)
      requires board.Valid() && IsValidMove(board.Cells(), position)
      modifies this
      ensures score == AlphaBeta(Place(board.Cells(), position, AI), 0, false, I32Min, I32Max).score
      ensures nodesEvaluated == old(nodesEvaluated) +
                AlphaBeta(Place(board.Cells(), position, AI), 0, false, I32Min, I32Max).nodes
    {
      var copy := SimulateOnClone(board, position, AI);
      score := Minimax(copy, 0, false, I32Min, I32Max);
    }

    /** One alpha-beta search call: bumps the node counter, scores a decided board,
        falls back to the heuristic past depth 9, and otherwise searches the ordered
        moves on clones until the window closes. */
    method Minimax(board: Board, depth: nat, maximizing: bool, alpha0: int, beta0: int) returns (score: int)
      requires board.Valid()
      modifies this
      ensures score == AlphaBeta(board.Cells(), depth, maximizing, alpha0, beta0).score
      ensures nodesEvaluated == old(nodesEvaluated) + AlphaBeta(board.Cells(), depth, maximizing, alpha0, beta0).nodes
      decreases |AvailableMoves(board.Cells())|, 1
    {
      nodesEvaluated := nodesEvaluated + 1;
      ghost var g := board.Cells();
      ghost var start := nodesEvaluated;
      var state := board.GameState();
      if state != InProgress {
        return TerminalScore(state, depth);
      }
      if depth > 9 {
        return HeuristicEvaluation(board.Cells());
      }
      var availableMoves := AvailableMoves(board.Cells());
      var ordered := OrderMoves(availableMoves);
      assert ordered == OrderedMoves(g);
      if maximizing {
        score := MaximizingLoop(board, ordered, depth, alpha0, beta0);
      } else {
        score := MinimizingLoop(board, ordered, depth, alpha0, beta0);
      }
    }

    /** The AI's moves, tried on clones in order; `alpha` rises to the best score so far
        and the loop stops once `beta <= alpha`. */
    method MaximizingLoop(board: Board, ordered: seq<nat>, depth: nat, alpha0: int, beta0: int)
      returns (maxScore: int)
      requires board.Valid() && AllValid(board.Cells(), ordered)
      modifies this
      ensures maxScore == Loop(board.Cells(), ordered, 0, depth, true, alpha0, beta0, I32Min).score
      ensures nodesEvaluated == old(nodesEvaluated) + Loop(board.Cells(), ordered, 0, depth, true, alpha0, beta0, I32Min).nodes
      decreases |AvailableMoves(board.Cells())|, 0
    {
      ghost var g := board.Cells();
      ghost var start := nodesEvaluated;
      var alpha, beta := alpha0, beta0;
      maxScore := I32Min;
      var i := 0;
      while i < |ordered|
        invariant 0 <= i <= |ordered| && start <= nodesEvaluated
        invariant board.Cells() == g
        invariant Loop(g, ordered, 0, depth, true, alpha0, beta0, I32Min).score ==
                  Loop(g, ordered, i, depth, true, alpha, beta, maxScore).score
        invariant Loop(g, ordered, 0, depth, true, alpha0, beta0, I32Min).nodes ==
                  nodesEvaluated - start + Loop(g, ordered, i, depth, true, alpha, beta, maxScore).nodes
      {
        var copy := SimulateOnClone(board, ordered[i], AI);
        PlaceShrinksMoves(g, ordered[i], AI);
        var s := Minimax(copy, depth + 1, false, alpha, beta);
        maxScore := Max(maxScore, s);
        alpha := Max(alpha, s);
        if beta <= alpha {
          break;
        }
        i := i + 1;
      }
    }

    /** The human's replies, tried on clones in order; `beta` falls to the lowest score
        so far and the loop stops once `beta <= alpha`. */
    method MinimizingLoop(board: Board, ordered: seq<nat>, depth: nat, alpha0: int, beta0: int)
      returns (minScore: int)
      requires board.Valid() && AllValid(board.Cells(), ordered)
      modifies this
      ensures minScore == Loop(board.Cells(), ordered, 0, depth, false, alpha0, beta0, I32Max).score
      ensures nodesEvaluated == old(nodesEvaluated) + Loop(board.Cells(), ordered, 0, depth, false, alpha0, beta0, I32Max).nodes
      decreases |AvailableMoves(board.Cells())|, 0
    {
      ghost var g := board.Cells();
      ghost var start := nodesEvaluated;
      var alpha, beta := alpha0, beta0;
      minScore := I32Max;
      var i := 0;
      while i < |ordered|
        invariant 0 <= i <= |ordered| && start <= nodesEvaluated
        invariant board.Cells() == g
        invariant Loop(g, ordered, 0, depth, false, alpha0, beta0, I32Max).score ==
                  Loop(g, ordered, i, depth, false, alpha, beta, minScore).score
        invariant Loop(g, ordered, 0, depth, false, alpha0, beta0, I32Max).nodes ==
                  nodesEvaluated - start + Loop(g, ordered, i, depth, false, alpha, beta, minScore).nodes
      {
        var copy := SimulateOnClone(board, ordered[i], Human);
        PlaceShrinksMoves(g, ordered[i], Human);
        var s := Minimax(copy, depth + 1, true, alpha, beta);
        minScore := Min(minScore, s);
        beta := Min(beta, s);
        if beta <= alpha {
          break;
        }
        i := i + 1;
      }
    }
  }
}
