/**
 * The board data shared by every component: a flat sequence of pieces on a
 * 9 x 10 grid, the move record kept in the game history, and the board
 * lookups that the rule checker, the search and the game controllers use.
 */
module Pieces {

  datatype Option<T> = None | Some(value: T)

  const COLS: int := 9
  const ROWS: int := 10

  const RED: string := "RED"
  const BLACK: string := "BLACK"

  /** One piece: its type string (the exact Chinese character), its colour string and its cell. */
  datatype ChessPiece = ChessPiece(kind: string, color: string, x: int, y: int)

  /** The flat piece array; its order matters, because every lookup takes the first match. */
  type Board = seq<ChessPiece>

  /** A history entry, with the fields the callers of the move record use. */
  datatype GameMove = GameMove(fromX: int, fromY: int, toX: int, toY: int, timestamp: int,
                               pieceName: string, pieceColor: string,
                               capturedPiece: Option<ChessPiece>)

  predicate OnBoard(x: int, y: int) {
    0 <= x < COLS && 0 <= y < ROWS
  }

  predicate At(p: ChessPiece, x: int, y: int) {
    p.x == x && p.y == y
  }

  /** The colour toggle used throughout: "RED" becomes "BLACK", every other string becomes "RED". */
  function Opponent(color: string): string {
    if color == RED then BLACK else RED
  }

  predicate IsGeneral(kind: string) {
    kind == "将" || kind == "帅"
  }

  /** Index of the first piece standing on (x, y). */
  function FirstAt(b: Board, x: int, y: int): (r: Option<nat>)
    ensures r.Some? ==> r.value < |b| && At(b[r.value], x, y)
    ensures r.Some? ==> forall j :: 0 <= j < r.value ==> !At(b[j], x, y)
    ensures r.None? <==> forall j :: 0 <= j < |b| ==> !At(b[j], x, y)
  {
    if |b| == 0 then None
    else if At(b[0], x, y) then Some(0)
    else
      match FirstAt(b[1..], x, y)
      case None => None
      case Some(k) => Some(k + 1)
  }

  /** The first piece standing on (x, y), if any. */
  function PieceAt(b: Board, x: int, y: int): (r: Option<ChessPiece>)
    ensures r.Some? ==> r.value in b && At(r.value, x, y)
    ensures r.None? <==> forall j :: 0 <= j < |b| ==> !At(b[j], x, y)
  {
    match FirstAt(b, x, y)
    case None => None
    case Some(i) => Some(b[i])
  }

  predicate Occupied(b: Board, x: int, y: int) {
    FirstAt(b, x, y).Some?
  }

  lemma OccupiedIff(b: Board, x: int, y: int)
    ensures Occupied(b, x, y) <==> exists j :: 0 <= j < |b| && At(b[j], x, y)
  {
  }

  /** Index of the first piece on (x, y) that also has the given type and colour. */
  function FirstMatch(b: Board, x: int, y: int, kind: string, color: string): (r: Option<nat>)
    ensures r.Some? ==> r.value < |b| && At(b[r.value], x, y)
    ensures r.Some? ==> b[r.value].kind == kind && b[r.value].color == color
    ensures r.Some? ==> forall j :: 0 <= j < r.value ==> !(At(b[j], x, y) && b[j].kind == kind && b[j].color == color)
    ensures r.None? <==> forall j :: 0 <= j < |b| ==> !(At(b[j], x, y) && b[j].kind == kind && b[j].color == color)
  {
    if |b| == 0 then None
    else if At(b[0], x, y) && b[0].kind == kind && b[0].color == color then Some(0)
    else
      match FirstMatch(b[1..], x, y, kind, color)
      case None => None
      case Some(k) => Some(k + 1)
  }

  /** The board without the piece at index i (removal of one object from the array). */
  function RemoveAt(b: Board, i: nat): (r: Board)
    requires i < |b|
    ensures |r| == |b| - 1
    ensures forall k :: 0 <= k < i ==> r[k] == b[k]
    ensures forall k :: i <= k < |r| ==> r[k] == b[k + 1]
    ensures multiset(r) + multiset{b[i]} == multiset(b)
  {
    assert b == b[..i] + [b[i]] + b[i + 1..];
    b[..i] + b[i + 1..]
  }

  /** The board without every piece standing on (x, y), order kept. */
  function DropSquare(b: Board, x: int, y: int): (r: Board)
    ensures |r| <= |b|
    ensures forall k :: 0 <= k < |r| ==> !At(r[k], x, y)
  {
    if |b| == 0 then []
    else DropSquare(b[..|b| - 1], x, y) + (if At(b[|b| - 1], x, y) then [] else [b[|b| - 1]])
  }

  /** Every piece left after dropping a square was on the board before. */
  lemma {:induction false} DropSquareFrom(b: Board, x: int, y: int, k: nat)
    requires k < |DropSquare(b, x, y)|
    ensures DropSquare(b, x, y)[k] in b
    decreases |b|
  {
    var init := b[..|b| - 1];
    if k < |DropSquare(init, x, y)| {
      DropSquareFrom(init, x, y, k);
      assert DropSquare(b, x, y)[k] == DropSquare(init, x, y)[k];
      assert forall q :: q in init ==> q in b;
    }
  }

  lemma {:induction false} DropSquareKeeps(b: Board, x: int, y: int, k: nat)
    requires k < |b| && !At(b[k], x, y)
    ensures b[k] in DropSquare(b, x, y)
    decreases |b|
  {
    if k < |b| - 1 {
      assert b[..|b| - 1][k] == b[k];
      DropSquareKeeps(b[..|b| - 1], x, y, k);
    }
  }

  lemma {:induction false} DropSquareAppend(a: Board, c: Board, x: int, y: int)
    ensures DropSquare(a + c, x, y) == DropSquare(a, x, y) + DropSquare(c, x, y)
    decreases |c|
  {
    if |c| == 0 {
      assert a + c == a;
    } else {
      assert (a + c)[..|a + c| - 1] == a + c[..|c| - 1];
      DropSquareAppend(a, c[..|c| - 1], x, y);
    }
  }

  /** When exactly the piece at index t stands on (x, y), dropping the square removes just that piece. */
  lemma {:induction false} DropSquareSingle(b: Board, x: int, y: int, t: nat)
    requires t < |b| && At(b[t], x, y)
    requires forall j :: 0 <= j < |b| && j != t ==> !At(b[j], x, y)
    ensures DropSquare(b, x, y) == RemoveAt(b, t)
  {
    var pre, post := b[..t], b[t + 1..];
    assert forall j :: 0 <= j < |pre| ==> !At(pre[j], x, y) by {
      assert forall j :: 0 <= j < |pre| ==> pre[j] == b[j];
    }
    assert forall j :: 0 <= j < |post| ==> !At(post[j], x, y) by {
      assert forall j :: 0 <= j < |post| ==> post[j] == b[t + 1 + j];
    }
    assert b == pre + [b[t]] + post;
    DropSquareSplit(pre, b[t], post, x, y);
  }

  lemma {:induction false} DropSquareSplit(pre: Board, p: ChessPiece, post: Board, x: int, y: int)
    requires At(p, x, y)
    requires forall j :: 0 <= j < |pre| ==> !At(pre[j], x, y)
    requires forall j :: 0 <= j < |post| ==> !At(post[j], x, y)
    ensures DropSquare(pre + [p] + post, x, y) == pre + post
  {
    NoneDropped(pre, x, y);
    NoneDropped(post, x, y);
    assert DropSquare([p], x, y) == [] by {
      assert [p][..0] == [];
    }
    DropSquareAppend(pre, [p], x, y);
    DropSquareAppend(pre + [p], post, x, y);
  }

  lemma {:induction false} NoneDropped(b: Board, x: int, y: int)
    requires forall j :: 0 <= j < |b| ==> !At(b[j], x, y)
    ensures DropSquare(b, x, y) == b
    decreases |b|
  {
    if |b| > 0 {
      NoneDropped(b[..|b| - 1], x, y);
      assert b[..|b| - 1] + [b[|b| - 1]] == b;
    }
  }

  /** No two pieces share a cell. */
  ghost predicate DistinctSquares(b: Board) {
    forall i, j :: 0 <= i < j < |b| ==> !(b[i].x == b[j].x && b[i].y == b[j].y)
  }

  /** A row of pieces on one line y followed by pieces off that line stacks nothing when each part stacks nothing. */
  lemma DistinctJoin(a: Board, y: int, c: Board)
    requires forall i :: 0 <= i < |a| ==> a[i].y == y
    requires forall j :: 0 <= j < |c| ==> c[j].y != y
    requires DistinctSquares(a) && DistinctSquares(c)
    ensures DistinctSquares(a + c)
  {
    forall i, j | 0 <= i < j < |a + c|
      ensures !((a + c)[i].x == (a + c)[j].x && (a + c)[i].y == (a + c)[j].y)
    {
      if j >= |a| && i < |a| {
        assert (a + c)[i] == a[i] && (a + c)[j] == c[j - |a|];
      }
    }
  }

  /** On a board without stacked pieces, the piece at index t is the only one on its cell. */
  lemma AloneOnSquare(b: Board, t: nat)
    requires DistinctSquares(b) && t < |b|
    ensures forall k :: 0 <= k < |b| && k != t ==> !At(b[k], b[t].x, b[t].y)
  {
    forall k | 0 <= k < |b| && k != t
      ensures !At(b[k], b[t].x, b[t].y)
    {
      if k < t {
        assert !(b[k].x == b[t].x && b[k].y == b[t].y);
      } else {
        assert !(b[t].x == b[k].x && b[t].y == b[k].y);
      }
    }
  }

  /** The entry that `lastMove` must mirror: the last element of the history, or none. */
  function LastMove(moves: seq<GameMove>): Option<GameMove> {
    if |moves| == 0 then None else Some(moves[|moves| - 1])
  }
}
