/**
 * The computer player's search: depth-limited minimax with alpha-beta
 * pruning, and the root loop that picks the move to play.
 *
 * `Value` is the reference: the plain minimax value of a node, examining every
 * child, with the sentinels of the Java program (a max node starts from -INF, a min node
 * from +INF, a node without moves is worth -INF or +INF). The pruned search
 * is proved to be fail-soft with respect to it: inside the window it returns
 * the exact value, and outside the window it returns a bound on the correct
 * side. The root then picks a move that is optimal up to the sentinels.
 */
module AISearch {
  import opened Pieces
  import opened MoveRuleValidator
  import opened AILogic

  /** The side to move at a node: the computer at a max node, the other colour at a min node. */
  function Turn(aiColor: string, isMax: bool): string {
    if isMax then aiColor else Opponent(aiColor)
  }

  /** The moves the node examines, in the order it examines them. */
  function Children(s: Search, b: Board, isMax: bool, path: Path): seq<GameMove> {
    OrderMoves(LegalMoves(s, b, Turn(s.aiColor, isMax), path))
  }

  /** The unpruned minimax value of the node reached by `path`. */
  function Value(s: Search, b: Board, depth: nat, isMax: bool, path: Path): int
    decreases depth, 1, 0
  {
    if depth == 0 || GameOver(b) then Evaluate(b, s.aiColor, s.jitter(path))
    else
      var moves := Children(s, b, isMax, path);
      if |moves| == 0 then (if isMax then -INF else INF)
      else Fold(s, b, depth, isMax, path, moves, |moves|)
  }

  /** The best of the first k children for the side to move, starting from that side's sentinel. */
  function Fold(s: Search, b: Board, depth: nat, isMax: bool, path: Path, moves: seq<GameMove>, k: nat): int
    requires depth >= 1 && k <= |moves|
    decreases depth, 0, k
  {
    if k == 0 then (if isMax then -INF else INF)
    else
      var v := Child(s, b, depth, isMax, path, moves, k - 1);
      if isMax then Max(Fold(s, b, depth, isMax, path, moves, k - 1), v)
      else Min(Fold(s, b, depth, isMax, path, moves, k - 1), v)
  }

  /** The value of the node reached by playing child i. */
  function Child(s: Search, b: Board, depth: nat, isMax: bool, path: Path, moves: seq<GameMove>, i: nat): int
    requires depth >= 1 && i < |moves|
    decreases depth, 0, i
  {
    Value(s, Simulate(b, moves[i]), depth - 1, !isMax, path + [i])
  }

  /** Examining more children never makes the result worse for the side to move. */
  lemma {:induction false} FoldMonotone(s: Search, b: Board, depth: nat, isMax: bool, path: Path, moves: seq<GameMove>, j: nat, k: nat)
    requires depth >= 1 && j <= k <= |moves|
    ensures isMax ==> Fold(s, b, depth, isMax, path, moves, j) <= Fold(s, b, depth, isMax, path, moves, k)
    ensures !isMax ==> Fold(s, b, depth, isMax, path, moves, j) >= Fold(s, b, depth, isMax, path, moves, k)
    decreases k - j
  {
    if j < k {
      FoldMonotone(s, b, depth, isMax, path, moves, j, k - 1);
      FoldStep(s, b, depth, isMax, path, moves, k);
    }
  }

  /** One more child moves the fold only in the side's favour. */
  lemma FoldStep(s: Search, b: Board, depth: nat, isMax: bool, path: Path, moves: seq<GameMove>, k: nat)
    requires depth >= 1 && 0 < k <= |moves|
    ensures isMax ==> Fold(s, b, depth, isMax, path, moves, k - 1) <= Fold(s, b, depth, isMax, path, moves, k)
    ensures !isMax ==> Fold(s, b, depth, isMax, path, moves, k - 1) >= Fold(s, b, depth, isMax, path, moves, k)
  {
  }

  /**
   * The fail-soft relation between a pruned result r and the true value v for
   * the window (alpha, beta): a result at or below alpha bounds v from above,
   * one at or above beta bounds it from below, one inside is exact.
   */
  predicate FailSoft(r: int, v: int, alpha: int, beta: int) {
    (r <= alpha ==> v <= r) && (r >= beta ==> v >= r) && (alpha < r < beta ==> r == v)
  }

  /** One step of the max loop: the loop's facts about (a, maxEval) against the fold survive one more child. */
  lemma MaxStep(alpha: int, beta: int, a: int, maxEval: int, f: int, score: int, v: int)
    requires alpha < beta && alpha <= a <= Max(alpha, maxEval) && maxEval >= -INF
    requires a < beta && f <= maxEval && (maxEval > alpha ==> f == maxEval)
    requires FailSoft(score, v, a, beta)
    ensures alpha <= Max(a, score) <= Max(alpha, Max(maxEval, score))
    ensures Max(a, score) < beta ==>
      Max(f, v) <= Max(maxEval, score) && (Max(maxEval, score) > alpha ==> Max(f, v) == Max(maxEval, score))
    ensures Max(a, score) >= beta ==> Max(maxEval, score) >= beta && Max(f, v) >= Max(maxEval, score)
  {
  }

  /** One step of the min loop, the mirror image of MaxStep. */
  lemma MinStep(alpha: int, beta: int, b: int, minEval: int, f: int, score: int, v: int)
    requires alpha < beta && Min(beta, minEval) <= b <= beta && minEval <= INF
    requires alpha < b && f >= minEval && (minEval < beta ==> f == minEval)
    requires FailSoft(score, v, alpha, b)
    ensures Min(beta, Min(minEval, score)) <= Min(b, score) <= beta
    ensures alpha < Min(b, score) ==>
      Min(f, v) >= Min(minEval, score) && (Min(minEval, score) < beta ==> Min(f, v) == Min(minEval, score))
    ensures Min(b, score) <= alpha ==> Min(minEval, score) <= alpha && Min(f, v) <= Min(minEval, score)
  {
  }

  method Minimax(s: Search, board: Board, depth: nat, isMaximizing: bool, alpha: int, beta: int, path: Path)
    returns (score: int)
    ensures alpha < beta ==> FailSoft(score, Value(s, board, depth, isMaximizing, path), alpha, beta)
    ensures isMaximizing && score < -INF ==> score == Value(s, board, depth, isMaximizing, path)
    ensures !isMaximizing && score > INF ==> score == Value(s, board, depth, isMaximizing, path)
    decreases depth, 2
  {
    if depth == 0 {
      score := EvaluateBoard(board, s.aiColor, s.jitter(path));
      return;
    }
    var over := IsGameOver(board);
    if over {
      score := EvaluateBoard(board, s.aiColor, s.jitter(path));
      return;
    }

    var turn := if isMaximizing then s.aiColor else (if s.aiColor == RED then BLACK else RED);
    var generated := GenerateLegalMoves(s, board, turn, path);
    var moves := OrderMoves(generated);
    assert moves == Children(s, board, isMaximizing, path) && |moves| == |generated|;
    if |moves| == 0 {
      score := if isMaximizing then -INF else INF;
      return;
    }
    assert Value(s, board, depth, isMaximizing, path) == Fold(s, board, depth, isMaximizing, path, moves, |moves|);
    if isMaximizing {
      score := MaximizeChildren(s, board, depth, path, moves, alpha, beta);
    } else {
      score := MinimizeChildren(s, board, depth, path, moves, alpha, beta);
    }
  }

  /** The loop of a max node: the children in order, raising alpha, until the window closes. */
  method MaximizeChildren(s: Search, board: Board, depth: nat, path: Path, moves: seq<GameMove>, alpha: int, beta: int)
    returns (maxEval: int)
    requires depth >= 1
    ensures alpha < beta ==> FailSoft(maxEval, Fold(s, board, depth, true, path, moves, |moves|), alpha, beta)
    ensures maxEval >= -INF
    decreases depth, 1
  {
    maxEval := -INF;
    var a := alpha;
    var k := 0;
    while k < |moves|
      invariant MaxLoop(s, board, depth, path, moves, alpha, beta, k, a, maxEval)
    {
      var evalScore := MaximizeChild(s, board, depth, path, moves, alpha, beta, k, a, maxEval);
      maxEval := Max(maxEval, evalScore);
      a := Max(a, evalScore);
      if beta <= a {
        return;
      }
      k := k + 1;
    }
    MaxLoopDone(s, board, depth, path, moves, alpha, beta, a, maxEval);
  }

  /**
   * What the max loop knows after k children: alpha has only been raised, and,
   * while the window is open, maxEval is the fold of those children whenever
   * it is above alpha and bounds it from above otherwise.
   */
  ghost predicate MaxLoop(s: Search, board: Board, depth: nat, path: Path, moves: seq<GameMove>,
                          alpha: int, beta: int, k: nat, a: int, maxEval: int) {
    depth >= 1 && k <= |moves| &&
    alpha <= a <= Max(alpha, maxEval) && maxEval >= -INF &&
    (alpha < beta ==>
      a < beta && Fold(s, board, depth, true, path, moves, k) <= maxEval &&
      (maxEval > alpha ==> Fold(s, board, depth, true, path, moves, k) == maxEval))
  }

  lemma MaxLoopDone(s: Search, board: Board, depth: nat, path: Path, moves: seq<GameMove>,
                    alpha: int, beta: int, a: int, maxEval: int)
    requires MaxLoop(s, board, depth, path, moves, alpha, beta, |moves|, a, maxEval)
    ensures alpha < beta ==> FailSoft(maxEval, Fold(s, board, depth, true, path, moves, |moves|), alpha, beta)
    ensures maxEval >= -INF
  {
  }

  /** One pass of the max loop: search child k with window (a, beta) and account for its score. */
  method MaximizeChild(s: Search, board: Board, depth: nat, path: Path, moves: seq<GameMove>,
                       alpha: int, beta: int, k: nat, a: int, maxEval: int)
    returns (evalScore: int)
    requires k < |moves| && MaxLoop(s, board, depth, path, moves, alpha, beta, k, a, maxEval)
    ensures Max(a, evalScore) < beta ==>
      MaxLoop(s, board, depth, path, moves, alpha, beta, k + 1, Max(a, evalScore), Max(maxEval, evalScore))
    ensures Max(a, evalScore) >= beta ==>
      Max(maxEval, evalScore) >= -INF &&
      (alpha < beta ==> FailSoft(Max(maxEval, evalScore), Fold(s, board, depth, true, path, moves, |moves|), alpha, beta))
    decreases depth, 0
  {
    var nextBoard := MakeMove(board, moves[k]);
    evalScore := Minimax(s, nextBoard, depth - 1, false, a, beta, path + [k]);
    ghost var f := Fold(s, board, depth, true, path, moves, k);
    ghost var v := Value(s, nextBoard, depth - 1, false, path + [k]);
    assert Child(s, board, depth, true, path, moves, k) == v;
    assert Fold(s, board, depth, true, path, moves, k + 1) == Max(f, v);
    if alpha < beta {
      MaxStep(alpha, beta, a, maxEval, f, evalScore, v);
      FoldMonotone(s, board, depth, true, path, moves, k + 1, |moves|);
    }
  }

  /** The loop of a min node: the children in order, lowering beta, until the window closes. */
  method MinimizeChildren(s: Search, board: Board, depth: nat, path: Path, moves: seq<GameMove>, alpha: int, beta: int)
    returns (minEval: int)
    requires depth >= 1
    ensures alpha < beta ==> FailSoft(minEval, Fold(s, board, depth, false, path, moves, |moves|), alpha, beta)
    ensures minEval <= INF
    decreases depth, 1
  {
    minEval := INF;
    var b := beta;
    var k := 0;
    while k < |moves|
      invariant MinLoop(s, board, depth, path, moves, alpha, beta, k, b, minEval)
    {
      var evalScore := MinimizeChild(s, board, depth, path, moves, alpha, beta, k, b, minEval);
      minEval := Min(minEval, evalScore);
      b := Min(b, evalScore);
      if b <= alpha {
        return;
      }
      k := k + 1;
    }
    MinLoopDone(s, board, depth, path, moves, alpha, beta, b, minEval);
  }

  /** The mirror image of MaxLoop for a min node. */
  ghost predicate MinLoop(s: Search, board: Board, depth: nat, path: Path, moves: seq<GameMove>,
                          alpha: int, beta: int, k: nat, b: int, minEval: int) {
    depth >= 1 && k <= |moves| &&
    Min(beta, minEval) <= b <= beta && minEval <= INF &&
    (alpha < beta ==>
      alpha < b && Fold(s, board, depth, false, path, moves, k) >= minEval &&
      (minEval < beta ==> Fold(s, board, depth, false, path, moves, k) == minEval))
  }

  lemma MinLoopDone(s: Search, board: Board, depth: nat, path: Path, moves: seq<GameMove>,
                    alpha: int, beta: int, b: int, minEval: int)
    requires MinLoop(s, board, depth, path, moves, alpha, beta, |moves|, b, minEval)
    ensures alpha < beta ==> FailSoft(minEval, Fold(s, board, depth, false, path, moves, |moves|), alpha, beta)
    ensures minEval <= INF
  {
  }

  /** One pass of the min loop: search child k with window (alpha, b) and account for its score. */
  method MinimizeChild(s: Search, board: Board, depth: nat, path: Path, moves: seq<GameMove>,
                       alpha: int, beta: int, k: nat, b: int, minEval: int)
    returns (evalScore: int)
    requires k < |moves| && MinLoop(s, board, depth, path, moves, alpha, beta, k, b, minEval)
    ensures Min(b, evalScore) > alpha ==>
      MinLoop(s, board, depth, path, moves, alpha, beta, k + 1, Min(b, evalScore), Min(minEval, evalScore))
    ensures Min(b, evalScore) <= alpha ==>
      Min(minEval, evalScore) <= INF &&
      (alpha < beta ==> FailSoft(Min(minEval, evalScore), Fold(s, board, depth, false, path, moves, |moves|), alpha, beta))
    decreases depth, 0
  {
    var nextBoard := MakeMove(board, moves[k]);
    evalScore := Minimax(s, nextBoard, depth - 1, true, alpha, b, path + [k]);
    ghost var f := Fold(s, board, depth, false, path, moves, k);
    ghost var v := Value(s, nextBoard, depth - 1, true, path + [k]);
    assert Child(s, board, depth, false, path, moves, k) == v;
    assert Fold(s, board, depth, false, path, moves, k + 1) == Min(f, v);
    if alpha < beta {
      MinStep(alpha, beta, b, minEval, f, evalScore, v);
      FoldMonotone(s, board, depth, false, path, moves, k + 1, |moves|);
    }
  }

  /** With the full window the pruned score and the true value agree once both are clamped to the sentinels. */
  function Clamp(v: int): int {
    if v < -INF then -INF else if v > INF then INF else v
  }

  lemma FullWindowExact(r: int, v: int)
    requires FailSoft(r, v, -INF, INF)
    ensures Clamp(r) == Clamp(v)
  {
  }

  predicate CapturesGeneral(m: GameMove) {
    m.capturedPiece.Some? && (m.capturedPiece.value.kind == "帅" || m.capturedPiece.value.kind == "将")
  }

  /** The root's moves, in the order the root examines them. */
  function RootMoves(s: Search, b: Board): seq<GameMove> {
    OrderMoves(LegalMoves(s, b, s.aiColor, []))
  }

  /** The true value of the j-th of the root's moves: the reply is the other side's. */
  function RootValue(s: Search, b: Board, depth: nat, moves: seq<GameMove>, j: nat): int
    requires depth >= 1 && j < |moves|
  {
    Value(s, Simulate(b, moves[j]), depth - 1, false, [j])
  }

  /**
   * The move the computer plays. `idx` is its position among the ordered root
   * moves. No move exactly when none is generated; the first move that takes a
   * general when there is one; otherwise a move whose clamped value is the
   * greatest, and, when that value lies strictly between the sentinels, the
   * first move that reaches it.
   */
  method GetBestMoveUsingMinimax(s: Search, board: Board, depth: nat) returns (bestMove: Option<GameMove>, ghost idx: nat)
    requires depth >= 1
    ensures bestMove.None? <==> |LegalMoves(s, board, s.aiColor, [])| == 0
    ensures bestMove.Some? ==> idx < |RootMoves(s, board)| && bestMove.value == RootMoves(s, board)[idx]
    ensures bestMove.Some? && (exists j :: 0 <= j < |RootMoves(s, board)| && CapturesGeneral(RootMoves(s, board)[j])) ==>
      CapturesGeneral(bestMove.value) && forall j :: 0 <= j < idx ==> !CapturesGeneral(RootMoves(s, board)[j])
    ensures bestMove.Some? && (forall j :: 0 <= j < |RootMoves(s, board)| ==> !CapturesGeneral(RootMoves(s, board)[j])) ==>
      (forall j :: 0 <= j < |RootMoves(s, board)| ==> Clamp(RootValue(s, board, depth, RootMoves(s, board), j)) <= Clamp(RootValue(s, board, depth, RootMoves(s, board), idx)))
      && (-INF < Clamp(RootValue(s, board, depth, RootMoves(s, board), idx)) < INF ==>
            forall j :: 0 <= j < idx ==> Clamp(RootValue(s, board, depth, RootMoves(s, board), j)) < Clamp(RootValue(s, board, depth, RootMoves(s, board), idx)))
  {
    var generated := GenerateLegalMoves(s, board, s.aiColor, []);
    idx := 0;
    if |generated| == 0 {
      return None, idx;
    }
    var moves := OrderMoves(generated);
    assert moves == RootMoves(s, board) && |moves| == |generated|;
    var best, i := SearchRoot(s, board, depth, moves);
    bestMove, idx := Some(best), i;
  }

  /** The root loop over a non-empty ordered move list, with the full window at the start. */
  method SearchRoot(s: Search, board: Board, depth: nat, moves: seq<GameMove>) returns (best: GameMove, ghost idx: nat)
    requires depth >= 1 && |moves| > 0
    ensures idx < |moves| && best == moves[idx]
    ensures (exists j :: 0 <= j < |moves| && CapturesGeneral(moves[j])) ==>
      CapturesGeneral(best) && forall j :: 0 <= j < idx ==> !CapturesGeneral(moves[j])
    ensures (forall j :: 0 <= j < |moves| ==> !CapturesGeneral(moves[j])) ==>
      (forall j :: 0 <= j < |moves| ==> Clamp(RootValue(s, board, depth, moves, j)) <= Clamp(RootValue(s, board, depth, moves, idx)))
      && (-INF < Clamp(RootValue(s, board, depth, moves, idx)) < INF ==>
            forall j :: 0 <= j < idx ==> Clamp(RootValue(s, board, depth, moves, j)) < Clamp(RootValue(s, board, depth, moves, idx)))
  {
    var bestMove: Option<GameMove> := None;
    idx := 0;
    var alpha := -INF;
    ghost var vs: seq<int> := [];
    var k := 0;
    while k < |moves|
      invariant RootLoop(s, board, depth, moves, k, vs, bestMove.Some?, idx, alpha)
      invariant bestMove.Some? ==> idx < |moves| && bestMove.value == moves[idx]
    {
      var takes, evalScore, v := VisitRootMove(s, board, depth, moves, k, alpha, bestMove.Some?, vs, idx);
      if takes {
        RootLoopCapture(s, board, depth, moves, k, vs, bestMove.Some?, idx, alpha);
        return moves[k], k;
      }
      if bestMove.None? || evalScore > alpha {
        alpha := evalScore;
        bestMove := Some(moves[k]);
        idx := k;
      }
      vs := vs + [v];
      k := k + 1;
    }
    RootLoopDone(s, board, depth, moves, vs, bestMove.Some?, idx, alpha);
    best := bestMove.value;
  }

  /**
   * What the root loop knows after examining the first k moves: vs holds
   * their true values, none of them captures a general, and once a move has
   * been chosen (found) alpha and idx describe the best of them.
   */
  ghost predicate RootLoop(s: Search, board: Board, depth: nat, moves: seq<GameMove>, k: nat,
                           vs: seq<int>, found: bool, idx: nat, alpha: int) {
    depth >= 1 && k <= |moves| && |vs| == k &&
    (forall j :: 0 <= j < k ==> vs[j] == RootValue(s, board, depth, moves, j)) &&
    (forall j :: 0 <= j < k ==> !CapturesGeneral(moves[j])) &&
    (found <==> k > 0) &&
    (!found ==> alpha == -INF) &&
    (found ==> BestSoFar(vs, idx, alpha))
  }

  /** Leaving the loop early at move k: k is the first move that captures a general. */
  lemma RootLoopCapture(s: Search, board: Board, depth: nat, moves: seq<GameMove>, k: nat,
                        vs: seq<int>, found: bool, idx: nat, alpha: int)
    requires RootLoop(s, board, depth, moves, k, vs, found, idx, alpha)
    requires k < |moves| && CapturesGeneral(moves[k])
    ensures forall j :: 0 <= j < k ==> !CapturesGeneral(moves[j])
  {
  }

  /** Finishing the loop: the chosen move has the greatest clamped value. */
  lemma RootLoopDone(s: Search, board: Board, depth: nat, moves: seq<GameMove>,
                     vs: seq<int>, found: bool, idx: nat, alpha: int)
    requires |moves| > 0 && RootLoop(s, board, depth, moves, |moves|, vs, found, idx, alpha)
    ensures found && idx < |moves|
    ensures forall j :: 0 <= j < |moves| ==> !CapturesGeneral(moves[j])
    ensures forall j :: 0 <= j < |moves| ==> Clamp(RootValue(s, board, depth, moves, j)) <= Clamp(RootValue(s, board, depth, moves, idx))
    ensures -INF < Clamp(RootValue(s, board, depth, moves, idx)) < INF ==>
              forall j :: 0 <= j < idx ==> Clamp(RootValue(s, board, depth, moves, j)) < Clamp(RootValue(s, board, depth, moves, idx))
  {
  }

  /**
   * One pass of the root loop: simulate move k; if it captures a general,
   * report that; otherwise search the reply with window (alpha, INF) and
   * return the score together with the true value v of the child.
   */
  method VisitRootMove(s: Search, board: Board, depth: nat, moves: seq<GameMove>, k: nat,
                       alpha: int, hasBest: bool, ghost vs: seq<int>, ghost idx: nat)
    returns (takes: bool, score: int, ghost v: int)
    requires k < |moves| && RootLoop(s, board, depth, moves, k, vs, hasBest, idx, alpha)
    ensures takes == CapturesGeneral(moves[k])
    ensures !takes && (!hasBest || score > alpha) ==> RootLoop(s, board, depth, moves, k + 1, vs + [v], true, k, score)
    ensures !takes && !(!hasBest || score > alpha) ==> RootLoop(s, board, depth, moves, k + 1, vs + [v], true, idx, alpha)
  {
    var move := moves[k];
    var nextBoard := MakeMove(board, move);
    takes := CapturesGeneral(move);
    if takes {
      return takes, 0, 0;
    }
    score := Minimax(s, nextBoard, depth - 1, false, alpha, INF, [k]);
    v := Value(s, nextBoard, depth - 1, false, [k]);
    ChildValue(s, board, depth, moves, k, nextBoard);
    ExtendValues(s, board, depth, moves, vs, v);
    RootStep(vs, v, idx, alpha, score, !hasBest);
  }

  /** The child values recorded so far stay the root values after one more is appended. */
  lemma ExtendValues(s: Search, board: Board, depth: nat, moves: seq<GameMove>, vs: seq<int>, v: int)
    requires depth >= 1 && |vs| < |moves|
    requires forall j :: 0 <= j < |vs| ==> vs[j] == RootValue(s, board, depth, moves, j)
    requires v == RootValue(s, board, depth, moves, |vs|)
    ensures forall j :: 0 <= j < |vs| + 1 ==> (vs + [v])[j] == RootValue(s, board, depth, moves, j)
  {
  }

  lemma ChildValue(s: Search, board: Board, depth: nat, moves: seq<GameMove>, k: nat, nextBoard: Board)
    requires depth >= 1 && k < |moves| && nextBoard == Simulate(board, moves[k])
    ensures Value(s, nextBoard, depth - 1, false, [k]) == RootValue(s, board, depth, moves, k)
  {
  }

  /**
   * The root loop's view of the child values vs examined so far: alpha is,
   * clamped, the value of the move at idx, no value is greater, and, strictly
   * between the sentinels, every earlier value is smaller.
   */
  predicate BestSoFar(vs: seq<int>, idx: nat, alpha: int) {
    idx < |vs| && Clamp(alpha) == Clamp(vs[idx]) &&
    (forall j :: 0 <= j < |vs| ==> Clamp(vs[j]) <= Clamp(alpha)) &&
    (-INF < Clamp(alpha) < INF ==> forall j :: 0 <= j < idx ==> Clamp(vs[j]) < Clamp(alpha))
  }

  /** The root loop's facts survive examining one more move whose pruned score is `score` and true value v. */
  lemma RootStep(vs: seq<int>, v: int, idx: nat, alpha: int, score: int, first: bool)
    requires first ==> alpha == -INF && |vs| == 0
    requires !first ==> BestSoFar(vs, idx, alpha)
    requires score > INF ==> score == v
    requires alpha < INF ==> FailSoft(score, v, alpha, INF)
    ensures first || score > alpha ==> BestSoFar(vs + [v], |vs|, score)
    ensures !(first || score > alpha) ==> BestSoFar(vs + [v], idx, alpha)
  {
    RootUpdate(first, alpha, score, v);
  }

  /** What the root learns from one child's score, in clamped values. */
  lemma RootUpdate(first: bool, alpha: int, score: int, v: int)
    requires score > INF ==> score == v
    requires alpha < INF ==> FailSoft(score, v, alpha, INF)
    requires first ==> alpha == -INF
    ensures first || score > alpha ==> Clamp(score) == Clamp(v)
    ensures score > alpha ==> Clamp(alpha) <= Clamp(score)
    ensures score > alpha && -INF < Clamp(score) < INF ==> Clamp(alpha) < Clamp(score)
    ensures score <= alpha ==> Clamp(v) <= Clamp(alpha)
  {
  }
}
