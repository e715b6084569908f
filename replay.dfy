/**
 * The replay screen: it keeps the starting position and the recorded moves,
 * and shows the position after the first n of them, rebuilt from the start
 * each time n changes. A move is replayed from its record alone: the first
 * piece on its origin goes to its target, and when the record names a
 * captured piece every piece on the target is removed first. From any shown
 * position a new game can be started with the moves played so far.
 */
module ReplayGameController {
  import opened Pieces
  import opened MainGameController

  // ---------------------------------------------------------------- replay, on values

  /**
   * The board after replaying m. The mover is the first piece on m's origin;
   * without one nothing changes. On a capture every piece on the target is
   * removed, the mover included when origin and target coincide.
   */
  function ReplayStep(b: Board, m: GameMove): Board {
    match FirstAt(b, m.fromX, m.fromY)
    case None => b
    case Some(i) =>
      if m.capturedPiece.None? then b[i := b[i].(x := m.toX, y := m.toY)]
      else if At(b[i], m.toX, m.toY) then DropSquare(b, m.toX, m.toY)
      else DropSquare(b[..i], m.toX, m.toY) + [b[i].(x := m.toX, y := m.toY)] + DropSquare(b[i + 1..], m.toX, m.toY)
  }

  /** Replaying a move never adds a piece, and one without a capture keeps them all. */
  lemma ReplayStepLength(b: Board, m: GameMove)
    ensures |ReplayStep(b, m)| <= |b|
    ensures m.capturedPiece.None? ==> |ReplayStep(b, m)| == |b|
  {
  }

  /** The board after replaying the first n moves from `start`. */
  function Replayed(start: Board, moves: seq<GameMove>, n: nat): (r: Board)
    requires n <= |moves|
    ensures |r| <= |start|
  {
    if n == 0 then start
    else
      ReplayStepLength(Replayed(start, moves, n - 1), moves[n - 1]);
      ReplayStep(Replayed(start, moves, n - 1), moves[n - 1])
  }

  /** The side to move after n moves: the opponent of the last mover, red at the start. */
  function SideAfter(moves: seq<GameMove>, n: nat): (r: string)
    requires n <= |moves|
    ensures r == RED || r == BLACK
    ensures n == 0 ==> r == RED
    ensures n > 0 && (moves[n - 1].pieceColor == RED || moves[n - 1].pieceColor == BLACK) ==> r != moves[n - 1].pieceColor
  {
    if n == 0 then RED else if moves[n - 1].pieceColor == RED then BLACK else RED
  }

  /** The moves alternate, red first. */
  predicate Alternating(moves: seq<GameMove>) {
    forall k :: 0 <= k < |moves| ==> moves[k].pieceColor == (if k % 2 == 0 then RED else BLACK)
  }

  /** In a game whose moves alternate from red, red is to move after an even number of moves. */
  lemma SideAfterAlternating(moves: seq<GameMove>, n: nat)
    requires n <= |moves| && Alternating(moves)
    ensures SideAfter(moves, n) == if n % 2 == 0 then RED else BLACK
  {
    if n > 0 {
      assert moves[n - 1].pieceColor == (if (n - 1) % 2 == 0 then RED else BLACK);
    }
  }

  /** Replaying n moves only looks at those n: a prefix of the record replays to the same board. */
  lemma {:induction false} ReplayedPrefix(start: Board, moves: seq<GameMove>, n: nat, m: nat)
    requires n <= m <= |moves|
    ensures Replayed(start, moves[..m], n) == Replayed(start, moves, n)
    decreases n
  {
    if n > 0 {
      ReplayedPrefix(start, moves, n - 1, m);
      assert moves[..m][n - 1] == moves[n - 1];
    }
  }

  /** Replaying one more move extends the replay of the moves before it. */
  lemma ReplayedAppend(start: Board, moves: seq<GameMove>, m: GameMove)
    ensures Replayed(start, moves + [m], |moves| + 1) == ReplayStep(Replayed(start, moves, |moves|), m)
  {
    ReplayedPrefix(start, moves + [m], |moves|, |moves|);
    assert (moves + [m])[..|moves|] == moves;
  }

  /**
   * On a board without stacked pieces, replaying the record of a move made on
   * the game screen gives the board the game screen produced.
   */
  lemma ReplayAgreesWithLiveMove(b: Board, i: nat, x: int, y: int, now: int)
    requires NotOnItself(b, Selected(i), x, y) && DistinctSquares(b)
    ensures ReplayStep(b, MoveRecord(b, b[i], x, y, now)) == AfterMove(b, Selected(i), x, y)
  {
    var m := MoveRecord(b, b[i], x, y, now);
    assert FirstAt(b, m.fromX, m.fromY) == Some(i) by {
      assert forall j :: 0 <= j < i ==> !At(b[j], b[i].x, b[i].y);
    }
    var moved := b[i].(x := x, y := y);
    match FirstAt(b, x, y)
    case None =>
      assert ReplayStep(b, m) == b[i := moved];
    case Some(t) =>
      assert m.capturedPiece.Some? && !At(b[i], x, y);
      assert ReplayStep(b, m) == DropSquare(b[..i], x, y) + [moved] + DropSquare(b[i + 1..], x, y);
      assert forall j :: 0 <= j < |b| && j != t ==> !At(b[j], x, y);
      CaptureSplit(b, i, t, x, y, moved);
  }

  /** Dropping the one piece on (x, y) around index i is removing it from the array with i replaced. */
  lemma CaptureSplit(b: Board, i: nat, t: nat, x: int, y: int, p: ChessPiece)
    requires i < |b| && t < |b| && i != t && At(b[t], x, y)
    requires forall j :: 0 <= j < |b| && j != t ==> !At(b[j], x, y)
    ensures DropSquare(b[..i], x, y) + [p] + DropSquare(b[i + 1..], x, y) == RemoveAt(b[i := p], t)
  {
    var pre, post := b[..i], b[i + 1..];
    assert b[i := p] == pre + [p] + post;
    SliceAway(b, pre, 0, t, x, y);
    SliceAway(b, post, i + 1, t, x, y);
    if t < i {
      assert pre[t] == b[t];
      CaptureBefore(pre, post, t, x, y, p);
    } else {
      assert post[t - i - 1] == b[t];
      CaptureAfter(pre, post, t - i - 1, x, y, p);
    }
  }

  /** A slice s of b starting at lo keeps b's empty cells empty. */
  lemma SliceAway(b: Board, s: Board, lo: nat, t: nat, x: int, y: int)
    requires lo + |s| <= |b| && forall j :: 0 <= j < |s| ==> s[j] == b[lo + j]
    requires forall j :: 0 <= j < |b| && j != t ==> !At(b[j], x, y)
    ensures forall j :: 0 <= j < |s| && lo + j != t ==> !At(s[j], x, y)
  {
  }

  /** The captured piece lies before the mover. */
  lemma CaptureBefore(pre: Board, post: Board, t: nat, x: int, y: int, p: ChessPiece)
    requires t < |pre| && At(pre[t], x, y)
    requires forall j :: 0 <= j < |pre| && j != t ==> !At(pre[j], x, y)
    requires forall j :: 0 <= j < |post| ==> !At(post[j], x, y)
    ensures DropSquare(pre, x, y) + [p] + DropSquare(post, x, y) == RemoveAt(pre + [p] + post, t)
  {
    NoneDropped(post, x, y);
    DropSquareSingle(pre, x, y, t);
    SpliceInPrefix(pre, post, t, p);
  }

  /** The captured piece lies after the mover. */
  lemma CaptureAfter(pre: Board, post: Board, u: nat, x: int, y: int, p: ChessPiece)
    requires u < |post| && At(post[u], x, y)
    requires forall j :: 0 <= j < |pre| ==> !At(pre[j], x, y)
    requires forall j :: 0 <= j < |post| && j != u ==> !At(post[j], x, y)
    ensures DropSquare(pre, x, y) + [p] + DropSquare(post, x, y) == RemoveAt(pre + [p] + post, |pre| + 1 + u)
  {
    NoneDropped(pre, x, y);
    DropSquareSingle(post, x, y, u);
    SpliceInSuffix(pre, post, u, p);
  }

  /** Removing index t of pre + [p] + post, for t inside pre. */
  lemma SpliceInPrefix(pre: Board, post: Board, t: nat, p: ChessPiece)
    requires t < |pre|
    ensures pre[..t] + pre[t + 1..] + [p] + post == RemoveAt(pre + [p] + post, t)
  {
    var c := pre + [p] + post;
    assert c[..t] == pre[..t] && c[t + 1..] == pre[t + 1..] + [p] + post;
  }

  /** Removing index |pre| + 1 + u of pre + [p] + post, for u inside post. */
  lemma SpliceInSuffix(pre: Board, post: Board, u: nat, p: ChessPiece)
    requires u < |post|
    ensures pre + [p] + (post[..u] + post[u + 1..]) == RemoveAt(pre + [p] + post, |pre| + 1 + u)
  {
    var c := pre + [p] + post;
    var t := |pre| + 1 + u;
    assert c[..t] == pre + [p] + post[..u] && c[t + 1..] == post[u + 1..];
  }

  // ---------------------------------------------------------------- the screen

  class ReplayController {
    var initialPieces: Board
    var currentPieces: Board
    var gameMoves: seq<GameMove>
    var currentMoveIndex: int
    var currentPlayerColor: string

    /** The shown position is always the replay of the first `currentMoveIndex` moves. */
    ghost predicate Valid()
      reads this
    {
      0 <= currentMoveIndex <= |gameMoves| &&
      currentPieces == Replayed(initialPieces, gameMoves, currentMoveIndex) &&
      currentPlayerColor == SideAfter(gameMoves, currentMoveIndex)
    }

    constructor ()
      ensures Valid() && initialPieces == [] && gameMoves == [] && currentMoveIndex == 0
    {
      initialPieces := [];
      currentPieces := [];
      gameMoves := [];
      currentMoveIndex := 0;
      currentPlayerColor := RED;
    }

    /** Takes a starting position and a record and shows the start, red to move. */
    method InitializeData(initialPieces: Board, gameMoves: seq<GameMove>)
      modifies this
      ensures Valid()
      ensures this.initialPieces == initialPieces && this.gameMoves == gameMoves
      ensures currentMoveIndex == 0 && currentPieces == initialPieces && currentPlayerColor == RED
    {
      this.initialPieces := initialPieces;
      this.currentPieces := initialPieces;
      this.gameMoves := gameMoves;
      currentMoveIndex := 0;
      currentPlayerColor := RED;
    }

    /** One move back, unless at the start. */
    method HandlePrevMove()
      requires Valid()
      modifies this
      ensures Valid() && initialPieces == old(initialPieces) && gameMoves == old(gameMoves)
      ensures currentMoveIndex == if old(currentMoveIndex) > 0 then old(currentMoveIndex) - 1 else old(currentMoveIndex)
    {
      if currentMoveIndex > 0 {
        currentMoveIndex := currentMoveIndex - 1;
        ReplayToMove(currentMoveIndex);
      }
    }

    /** One move forward, unless at the end. */
    method HandleNextMove()
      requires Valid()
      modifies this
      ensures Valid() && initialPieces == old(initialPieces) && gameMoves == old(gameMoves)
      ensures currentMoveIndex == if old(currentMoveIndex) < |gameMoves| then old(currentMoveIndex) + 1 else old(currentMoveIndex)
    {
      if currentMoveIndex < |gameMoves| {
        currentMoveIndex := currentMoveIndex + 1;
        ReplayToMove(currentMoveIndex);
      }
    }

    /**
     * Rebuilds the position after the first `moveIndex` moves from the
     * starting position, toggling the side between moves and finally taking
     * the opponent of the last mover.
     */
    method ReplayToMove(moveIndex: int)
      requires 0 <= moveIndex <= |gameMoves|
      modifies this
      ensures initialPieces == old(initialPieces) && gameMoves == old(gameMoves) && currentMoveIndex == old(currentMoveIndex)
      ensures currentPieces == Replayed(initialPieces, gameMoves, moveIndex)
      ensures currentPlayerColor == SideAfter(gameMoves, moveIndex)
    {
      currentPieces := initialPieces;
      currentPlayerColor := RED;
      for i := 0 to moveIndex
        invariant initialPieces == old(initialPieces) && gameMoves == old(gameMoves) && currentMoveIndex == old(currentMoveIndex)
        invariant currentPieces == Replayed(initialPieces, gameMoves, i)
        invariant i == 0 ==> currentPlayerColor == RED
      {
        ApplyMove(gameMoves[i]);
        if i < moveIndex - 1 {
          currentPlayerColor := if currentPlayerColor == RED then BLACK else RED;
        }
      }
      if moveIndex > 0 {
        currentPlayerColor := if gameMoves[moveIndex - 1].pieceColor == RED then BLACK else RED;
      }
    }

    /** Replays one recorded move on the shown position. */
    method ApplyMove(move: GameMove)
      modifies this
      ensures currentPieces == ReplayStep(old(currentPieces), move)
      ensures initialPieces == old(initialPieces) && gameMoves == old(gameMoves)
      ensures currentMoveIndex == old(currentMoveIndex) && currentPlayerColor == old(currentPlayerColor)
    {
      currentPieces := ReplayMove(currentPieces, move);
    }

    /** The data a new game starts from: the shown position, the moves so far, and the side to move. */
    method StartFromHere() returns (pieces: Board, moves: seq<GameMove>, color: string)
      requires Valid()
      ensures pieces == currentPieces && moves == gameMoves[..currentMoveIndex] && color == currentPlayerColor
      ensures pieces == Replayed(initialPieces, moves, |moves|) && color == SideAfter(moves, |moves|)
    {
      pieces, moves, color := currentPieces, gameMoves[..currentMoveIndex], currentPlayerColor;
      ReplayedPrefix(initialPieces, gameMoves, currentMoveIndex, currentMoveIndex);
    }
  }

  /**
   * The list surgery of one replayed move: find the mover, then either
   * relocate it, or drop every piece on the target and relocate the mover
   * if it survived.
   */
  method ReplayMove(b: Board, move: GameMove) returns (r: Board)
    ensures r == ReplayStep(b, move)
  {
    r := b;
    var from := FindPiece(b, move.fromX, move.fromY);
    if from.None? {
      return;
    }
    var i := from.value;
    if move.capturedPiece.None? {
      r := b[i := b[i].(x := move.toX, y := move.toY)];
      return;
    }
    var kept, j := DropTarget(b, i, move.toX, move.toY);
    if j.Some? {
      SpliceUpdate(DropSquare(b[..i], move.toX, move.toY), b[i], DropSquare(b[i + 1..], move.toX, move.toY),
                   b[i].(x := move.toX, y := move.toY));
      kept := kept[j.value := kept[j.value].(x := move.toX, y := move.toY)];
    }
    r := kept;
  }

  /** Replacing the element just after a prefix. */
  lemma SpliceUpdate(pre: Board, p: ChessPiece, post: Board, q: ChessPiece)
    ensures (pre + [p] + post)[|pre| := q] == pre + [q] + post
  {
    assert forall k :: 0 <= k < |pre| + 1 + |post| ==> (pre + [p] + post)[|pre| := q][k] == (pre + [q] + post)[k];
  }

  /** The first piece on (x, y), searched in array order. */
  method FindPiece(b: Board, x: int, y: int) returns (r: Option<nat>)
    ensures r == FirstAt(b, x, y)
  {
    for k := 0 to |b|
      invariant forall j :: 0 <= j < k ==> !At(b[j], x, y)
    {
      if b[k].x == x && b[k].y == y {
        return Some(k);
      }
    }
    return None;
  }

  /**
   * Removes every piece on (x, y), order kept, and reports where the piece
   * that was at index i now is, or none when it was removed too.
   */
  method DropTarget(b: Board, i: nat, x: int, y: int) returns (kept: Board, j: Option<nat>)
    requires i < |b|
    ensures kept == DropSquare(b, x, y)
    ensures At(b[i], x, y) ==> j.None?
    ensures !At(b[i], x, y) ==> j == Some(|DropSquare(b[..i], x, y)|)
    ensures !At(b[i], x, y) ==> kept == DropSquare(b[..i], x, y) + [b[i]] + DropSquare(b[i + 1..], x, y)
  {
    kept, j := [], None;
    for k := 0 to |b|
      invariant kept == DropSquare(b[..k], x, y)
      invariant j == if k > i && !At(b[i], x, y) then Some(|DropSquare(b[..i], x, y)|) else None
    {
      assert b[..k + 1][..k] == b[..k];
      if !At(b[k], x, y) {
        if k == i {
          j := Some(|kept|);
        }
        kept := kept + [b[k]];
      }
    }
    assert b[..|b|] == b;
    if !At(b[i], x, y) {
      assert b == b[..i] + [b[i]] + b[i + 1..];
      DropSquareAppend(b[..i] + [b[i]], b[i + 1..], x, y);
      DropSquareAppend(b[..i], [b[i]], x, y);
      assert DropSquare([b[i]], x, y) == [b[i]] by {
        assert [b[i]][..0] == [];
      }
    }
  }
}
