/**
 * The two-player game screen: the piece array it owns, the selected piece,
 * the side to move, the game-over flag, the grid of highlighted target cells,
 * and the move history. A click selects, reselects or deselects a piece of
 * the side to move, or tries to move the selected piece to the clicked cell;
 * a move may capture, end the game by taking a general, or leave the opponent
 * without a move (checkmate or stalemate). The last move can be undone.
 *
 * The full move check (`checkMove`) and the check test (`isKingInCheck`) of
 * the rule checker are parameters: their code is not part of this model. The
 * screen rebuilds its rule checker over the current piece array after every
 * change, so both are functions of the board.
 */
module MainGameController {
  import opened Pieces
  import opened MoveRuleValidator

  /**
   * The selected piece. The game screen holds a reference to one of the piece
   * objects; here that is its index in the piece array. After a saved game is
   * loaded the reference points to an object that is no longer on the board,
   * which is `Detached`.
   */
  datatype Selection = NoSelection | Selected(index: nat) | Detached(piece: ChessPiece)

  /** How a move ended the game, if it did; `MissingKing` is the end at which the game screen stops on a null general. */
  datatype Ending = NoEnding | Win(winner: string) | Draw | MissingKing

  /** A saved game as the loader hands it over; absent parts are `None`. */
  datatype ArchiveData = ArchiveData(pieces: Board, moves: Option<seq<GameMove>>, currentPlayerColor: Option<string>)

  type CheckMove = (Board, int, int, int, int) -> MoveValidationResult

  // ---------------------------------------------------------------- the starting position

  /** The 32 pieces in the order the screen creates them: red from its general, then black. */
  function InitialLayout(): (r: Board)
    ensures |r| == 32
  {
    RedBackRank() + RedCannons() + RedSoldiers() + BlackBackRank() + BlackCannons() + BlackSoldiers()
  }

  function RedBackRank(): Board {
    [ChessPiece("帅", RED, 4, 9), ChessPiece("仕", RED, 3, 9), ChessPiece("仕", RED, 5, 9),
     ChessPiece("相", RED, 2, 9), ChessPiece("相", RED, 6, 9), ChessPiece("车", RED, 0, 9),
     ChessPiece("车", RED, 8, 9), ChessPiece("马", RED, 1, 9), ChessPiece("马", RED, 7, 9)]
  }

  function RedCannons(): Board {
    [ChessPiece("炮", RED, 1, 7), ChessPiece("炮", RED, 7, 7)]
  }

  function RedSoldiers(): Board {
    [ChessPiece("兵", RED, 0, 6), ChessPiece("兵", RED, 2, 6), ChessPiece("兵", RED, 4, 6),
     ChessPiece("兵", RED, 6, 6), ChessPiece("兵", RED, 8, 6)]
  }

  function BlackBackRank(): Board {
    [ChessPiece("将", BLACK, 4, 0), ChessPiece("士", BLACK, 3, 0), ChessPiece("士", BLACK, 5, 0),
     ChessPiece("象", BLACK, 2, 0), ChessPiece("象", BLACK, 6, 0), ChessPiece("车", BLACK, 0, 0),
     ChessPiece("车", BLACK, 8, 0), ChessPiece("马", BLACK, 1, 0), ChessPiece("马", BLACK, 7, 0)]
  }

  function BlackCannons(): Board {
    [ChessPiece("炮", BLACK, 1, 2), ChessPiece("炮", BLACK, 7, 2)]
  }

  function BlackSoldiers(): Board {
    [ChessPiece("卒", BLACK, 0, 3), ChessPiece("卒", BLACK, 2, 3), ChessPiece("卒", BLACK, 4, 3),
     ChessPiece("卒", BLACK, 6, 3), ChessPiece("卒", BLACK, 8, 3)]
  }

  /** Sixteen pieces a side, red first, every one on the board, no two on one cell. */
  lemma InitialLayoutShape()
    ensures |InitialLayout()| == 32
    ensures DistinctSquares(InitialLayout())
    ensures forall i :: 0 <= i < 16 ==> InitialLayout()[i].color == RED
    ensures forall i :: 16 <= i < 32 ==> InitialLayout()[i].color == BLACK
    ensures forall i :: 0 <= i < 32 ==> OnBoard(InitialLayout()[i].x, InitialLayout()[i].y)
  {
    InitialLayoutDistinct();
  }

  /** No two pieces of the starting position share a cell. */
  lemma InitialLayoutDistinct()
    ensures DistinctSquares(InitialLayout())
  {
    // Row by row, from black's soldiers back to red's back rank.
    var r9, r7, r6 := RedBackRank(), RedCannons(), RedSoldiers();
    var k0, k2, k3 := BlackBackRank(), BlackCannons(), BlackSoldiers();
    RedRowsDistinct();
    BlackRowsDistinct();
    DistinctJoin(k2, 2, k3);
    DistinctJoin(k0, 0, k2 + k3);
    DistinctJoin(r6, 6, k0 + (k2 + k3));
    DistinctJoin(r7, 7, r6 + (k0 + (k2 + k3)));
    DistinctJoin(r9, 9, r7 + (r6 + (k0 + (k2 + k3))));
    assert InitialLayout() == r9 + (r7 + (r6 + (k0 + (k2 + k3))));
  }

  /** Within each red row of the starting position the pieces stand on different columns. */
  lemma RedRowsDistinct()
    ensures DistinctSquares(RedBackRank()) && DistinctSquares(RedCannons()) && DistinctSquares(RedSoldiers())
  {
  }

  /** Within each black row of the starting position the pieces stand on different columns. */
  lemma BlackRowsDistinct()
    ensures DistinctSquares(BlackBackRank()) && DistinctSquares(BlackCannons()) && DistinctSquares(BlackSoldiers())
  {
  }

  /** One general a side, at the centre of its back rank: the red one first in the array, the black one first of its side. */
  lemma InitialGenerals()
    ensures InitialLayout()[0] == ChessPiece("帅", RED, 4, 9) && InitialLayout()[16] == ChessPiece("将", BLACK, 4, 0)
    ensures forall i :: 0 <= i < |InitialLayout()| && IsGeneral(InitialLayout()[i].kind) ==> i == 0 || i == 16
  {
    var b := InitialLayout();
    forall i | 0 <= i < |b| && i != 0 && i != 16
      ensures !IsGeneral(b[i].kind)
    {
      assert b[i].kind in ["仕", "相", "车", "马", "炮", "兵", "士", "象", "卒"];
    }
  }

  /** The two red advisors use the simplified glyph, for which the rule checker has no rule. */
  lemma InitialRedAdvisorsHaveNoRule()
    ensures InitialLayout()[1].kind == "仕" && !HasRule(InitialLayout()[1].kind)
    ensures InitialLayout()[2].kind == "仕" && !HasRule(InitialLayout()[2].kind)
  {
  }

  // ---------------------------------------------------------------- move and undo, on values

  /** The cell selected by `sel` on board b, if the selection is a piece. */
  function SelectedOn(b: Board, sel: Selection): Option<ChessPiece>
    requires sel.Selected? ==> sel.index < |b|
  {
    match sel
    case NoSelection => None
    case Selected(i) => Some(b[i])
    case Detached(p) => Some(p)
  }

  /** The selected piece may go to (x, y) only if it does not stand first on that cell itself. */
  predicate NotOnItself(b: Board, sel: Selection, x: int, y: int) {
    sel.Selected? ==> sel.index < |b| && FirstAt(b, x, y) != Some(sel.index)
  }

  /**
   * The board after the selected piece goes to (x, y): the first piece on the
   * target is removed from the array and the mover takes the cell. A detached
   * piece is not in the array, so only the capture shows.
   */
  function AfterMove(b: Board, sel: Selection, x: int, y: int): (r: Board)
    requires NotOnItself(b, sel, x, y)
    ensures |r| == if Occupied(b, x, y) then |b| - 1 else |b|
    ensures sel.Selected? && FirstAt(b, x, y).None? ==> At(r[sel.index], x, y)
  {
    var moved := if sel.Selected? then b[sel.index := b[sel.index].(x := x, y := y)] else b;
    match FirstAt(b, x, y)
    case None => moved
    case Some(t) => RemoveAt(moved, t)
  }

  /** The history entry of that move: where the mover came from, what it is, and what it took. */
  function MoveRecord(b: Board, mover: ChessPiece, x: int, y: int, now: int): (r: GameMove)
    ensures r.capturedPiece.None? <==> forall j :: 0 <= j < |b| ==> !At(b[j], x, y)
    ensures r.capturedPiece.Some? ==> r.capturedPiece.value in b && At(r.capturedPiece.value, x, y)
  {
    GameMove(mover.x, mover.y, x, y, now, mover.kind, mover.color, PieceAt(b, x, y))
  }

  /** The selection after the move: the same object, whose index drops by one when a piece before it was removed. */
  function Reindexed(b: Board, sel: Selection, x: int, y: int): Selection {
    match sel
    case NoSelection => NoSelection
    case Selected(i) =>
      if FirstAt(b, x, y).Some? && FirstAt(b, x, y).value < i then Selected(i - 1) else sel
    case Detached(p) => Detached(p.(x := x, y := y))
  }

  /** The selection after a move still names a piece of the array. */
  lemma ReindexedInRange(b: Board, sel: Selection, x: int, y: int)
    requires NotOnItself(b, sel, x, y)
    ensures Reindexed(b, sel, x, y).Selected? ==> Reindexed(b, sel, x, y).index < |AfterMove(b, sel, x, y)|
  {
  }

  /**
   * The board after undoing m: the first piece on m's target with m's type and
   * colour goes back to m's origin, and the captured piece, if any, is appended.
   */
  function UndoBoard(b: Board, m: GameMove): (r: Board)
    ensures |r| == |b| + (if m.capturedPiece.Some? then 1 else 0)
    ensures m.capturedPiece.Some? ==> r[|b|] == m.capturedPiece.value
  {
    var back := match FirstMatch(b, m.toX, m.toY, m.pieceName, m.pieceColor)
                case None => b
                case Some(j) => b[j := b[j].(x := m.fromX, y := m.fromY)];
    if m.capturedPiece.Some? then back + [m.capturedPiece.value] else back
  }

  /** The mover stands on the target, the captured piece's cell is its alone, and the selection follows the mover. */
  lemma {:induction false} AfterMoveLands(b: Board, i: nat, x: int, y: int)
    requires NotOnItself(b, Selected(i), x, y) && DistinctSquares(b)
    ensures Reindexed(b, Selected(i), x, y).index < |AfterMove(b, Selected(i), x, y)|
    ensures AfterMove(b, Selected(i), x, y)[Reindexed(b, Selected(i), x, y).index] == b[i].(x := x, y := y)
    ensures FirstAt(AfterMove(b, Selected(i), x, y), x, y) == Some(Reindexed(b, Selected(i), x, y).index)
    ensures |AfterMove(b, Selected(i), x, y)| == if Occupied(b, x, y) then |b| - 1 else |b|
  {
    var moved := b[i := b[i].(x := x, y := y)];
    match FirstAt(b, x, y)
    case None =>
      assert AfterMove(b, Selected(i), x, y) == moved;
      assert forall j :: 0 <= j < i ==> !At(moved[j], x, y);
    case Some(t) =>
      assert AfterMove(b, Selected(i), x, y) == RemoveAt(moved, t);
      AloneOnSquare(b, t);
      CaptureLands(b, i, x, y, t, moved);
  }

  /** The capturing case of AfterMoveLands, with the captured index t named. */
  lemma CaptureLands(b: Board, i: nat, x: int, y: int, t: nat, moved: Board)
    requires i < |b| && t < |b| && t != i
    requires forall k :: 0 <= k < |b| && k != t ==> !At(b[k], x, y)
    requires moved == b[i := b[i].(x := x, y := y)]
    ensures var i' := if t < i then i - 1 else i;
      i' < |RemoveAt(moved, t)| && RemoveAt(moved, t)[i'] == b[i].(x := x, y := y) &&
      FirstAt(RemoveAt(moved, t), x, y) == Some(i')
  {
    var a := RemoveAt(moved, t);
    var i' := if t < i then i - 1 else i;
    assert a[i'] == moved[i];
    forall j | 0 <= j < i'
      ensures !At(a[j], x, y)
    {
      var k := if j < t then j else j + 1;
      assert a[j] == b[k] && k != t && k != i;
    }
  }

  /**
   * Undo inverts a move of a selected piece on a board without stacked pieces:
   * the board comes back exactly after a quiet move, and with the same pieces,
   * the captured one now last, after a capture.
   */
  lemma UndoRestoresBoard(b: Board, i: nat, x: int, y: int, now: int)
    requires NotOnItself(b, Selected(i), x, y) && DistinctSquares(b)
    ensures !Occupied(b, x, y) ==> UndoBoard(AfterMove(b, Selected(i), x, y), MoveRecord(b, b[i], x, y, now)) == b
    ensures multiset(UndoBoard(AfterMove(b, Selected(i), x, y), MoveRecord(b, b[i], x, y, now))) == multiset(b)
  {
    var a := AfterMove(b, Selected(i), x, y);
    var m := MoveRecord(b, b[i], x, y, now);
    var i' := Reindexed(b, Selected(i), x, y).index;
    AfterMoveLands(b, i, x, y);
    var back := a[i' := b[i]];
    UndoFindsMover(a, m, i');
    match FirstAt(b, x, y)
    case None =>
      assert m.capturedPiece.None? && back == b;
    case Some(t) =>
      assert m.capturedPiece == Some(b[t]);
      assert back == RemoveAt(b, t) by {
        UndoCaptureBack(b, i, x, y, t, a, back);
      }
  }

  /** Undo finds the mover as the first piece on the target when it is the first piece there at all. */
  lemma UndoFindsMover(a: Board, m: GameMove, i': nat)
    requires FirstAt(a, m.toX, m.toY) == Some(i')
    requires a[i'].kind == m.pieceName && a[i'].color == m.pieceColor
    ensures var back := a[i' := a[i'].(x := m.fromX, y := m.fromY)];
      UndoBoard(a, m) == if m.capturedPiece.Some? then back + [m.capturedPiece.value] else back
  {
    assert FirstMatch(a, m.toX, m.toY, m.pieceName, m.pieceColor) == Some(i') by {
      assert forall j :: 0 <= j < i' ==> !At(a[j], m.toX, m.toY);
    }
  }

  /** After a capture at index t, putting the mover back gives the board without the captured piece. */
  lemma UndoCaptureBack(b: Board, i: nat, x: int, y: int, t: nat, a: Board, back: Board)
    requires i < |b| && t < |b| && t != i
    requires a == RemoveAt(b[i := b[i].(x := x, y := y)], t)
    requires back == a[(if t < i then i - 1 else i) := b[i]]
    ensures back == RemoveAt(b, t)
  {
    assert |back| == |RemoveAt(b, t)|;
    forall j | 0 <= j < |back|
      ensures back[j] == RemoveAt(b, t)[j]
    {
      var k := if j < t then j else j + 1;
      assert RemoveAt(b, t)[j] == b[k];
    }
  }

  /** A move between distinct cells keeps every cell holding at most one piece. */
  lemma AfterMoveKeepsDistinct(b: Board, i: nat, x: int, y: int)
    requires NotOnItself(b, Selected(i), x, y) && DistinctSquares(b)
    ensures DistinctSquares(AfterMove(b, Selected(i), x, y))
  {
    var a := AfterMove(b, Selected(i), x, y);
    var moved := b[i := b[i].(x := x, y := y)];
    var i' := Reindexed(b, Selected(i), x, y).index;
    AfterMoveLands(b, i, x, y);
    forall p, q | 0 <= p < q < |a|
      ensures !(a[p].x == a[q].x && a[p].y == a[q].y)
    {
      var kp, kq := p, q;
      if FirstAt(b, x, y).Some? {
        var t := FirstAt(b, x, y).value;
        kp, kq := if p < t then p else p + 1, if q < t then q else q + 1;
        assert a[p] == moved[kp] && a[q] == moved[kq] && kp != t && kq != t && kp < kq;
      } else {
        assert a[p] == moved[kp] && a[q] == moved[kq];
      }
      if kp != i && kq != i {
        assert a[p] == b[kp] && a[q] == b[kq];
      } else if kp == i {
        assert a[q] == b[kq] && kq != i;
        assert !At(b[kq], x, y);
      } else {
        assert a[p] == b[kp] && kp != i;
        assert !At(b[kp], x, y);
      }
    }
  }

  // ---------------------------------------------------------------- lookups

  /** The type string of a side's general: "帅" for red, "将" for every other colour string. */
  function KingType(color: string): string {
    if color == RED then "帅" else "将"
  }

  /** The first piece of the given colour with its side's general type. */
  function KingOf(b: Board, color: string): (r: Option<ChessPiece>)
    ensures r.Some? ==> r.value in b && r.value.kind == KingType(color) && r.value.color == color
    ensures r.None? <==> forall k :: 0 <= k < |b| ==> !(b[k].kind == KingType(color) && b[k].color == color)
    ensures r.Some? ==> exists k :: 0 <= k < |b| && b[k] == r.value &&
                                  (forall j :: 0 <= j < k ==> !(b[j].kind == KingType(color) && b[j].color == color))
  {
    match KingIndex(b, color)
    case None => None
    case Some(i) => Some(b[i])
  }

  /** The index of the first general of that colour. */
  function KingIndex(b: Board, color: string): (r: Option<nat>)
    ensures r.Some? ==> r.value < |b| && b[r.value].kind == KingType(color) && b[r.value].color == color
    ensures r.Some? ==> forall j :: 0 <= j < r.value ==> !(b[j].kind == KingType(color) && b[j].color == color)
    ensures r.None? <==> forall k :: 0 <= k < |b| ==> !(b[k].kind == KingType(color) && b[k].color == color)
  {
    if |b| == 0 then None
    else if b[0].kind == KingType(color) && b[0].color == color then Some(0)
    else
      match KingIndex(b[1..], color)
      case None => None
      case Some(k) => Some(k + 1)
  }

  /** Whether some piece of the side has a move the full check accepts, to any cell of the board. */
  ghost predicate HasLegalMove(b: Board, color: string, checkMove: CheckMove) {
    exists k, x, y :: 0 <= k < |b| && b[k].color == color && 0 <= x < COLS && 0 <= y < ROWS &&
      checkMove(b, b[k].x, b[k].y, x, y) == MoveValidationResult.Valid
  }

  // ---------------------------------------------------------------- the screen

  class GameController {
    var pieces: Board
    var initialPieces: Board
    var selection: Selection
    var currentPlayerColor: string
    var isGameOver: bool
    /** validMoves[x, y]: whether the cell (x, y) is highlighted as a target of the selected piece. */
    const validMoves: array2<bool>
    var gameMoves: seq<GameMove>
    var lastMove: Option<GameMove>
    const checkMove: CheckMove
    const kingInCheck: (Board, string) -> bool

    /** The grid spans the board and the selection names a piece of the array. */
    ghost predicate Valid()
      reads this
    {
      validMoves.Length0 == COLS && validMoves.Length1 == ROWS &&
      (selection.Selected? ==> selection.index < |pieces|)
    }

    /** No cell is highlighted. */
    ghost predicate GridCleared()
      reads this, validMoves
      requires Valid()
    {
      forall x, y :: 0 <= x < COLS && 0 <= y < ROWS ==> !validMoves[x, y]
    }

    /** Exactly the cells the move rule lets the piece standing at (sx, sy) reach are highlighted. */
    ghost predicate GridShows(sx: int, sy: int)
      reads this, validMoves
      requires Valid()
    {
      forall x, y :: 0 <= x < COLS && 0 <= y < ROWS ==> validMoves[x, y] == IsValidMove(pieces, sx, sy, x, y)
    }

    function SelectedPiece(): Option<ChessPiece>
      reads this
      requires Valid()
    {
      SelectedOn(pieces, selection)
    }

    /** The screen as it opens: the starting position, red to move, nothing selected or highlighted. */
    constructor (checkMove: CheckMove, kingInCheck: (Board, string) -> bool)
      ensures Valid() && fresh(validMoves)
      ensures pieces == InitialLayout() && initialPieces == InitialLayout()
      ensures selection == NoSelection && currentPlayerColor == RED && !isGameOver
      ensures gameMoves == [] && lastMove == None && GridCleared()
      ensures this.checkMove == checkMove && this.kingInCheck == kingInCheck
    {
      this.checkMove := checkMove;
      this.kingInCheck := kingInCheck;
      validMoves := new bool[COLS, ROWS]((x, y) => false);
      selection := NoSelection;
      currentPlayerColor := RED;
      isGameOver := false;
      gameMoves := [];
      lastMove := None;
      new;
      InitializePieces();
    }

    /** Sets up the starting position and keeps a copy of it for replays. */
    method InitializePieces()
      modifies this
      ensures pieces == InitialLayout() && initialPieces == InitialLayout()
      ensures selection == old(selection) && currentPlayerColor == old(currentPlayerColor)
      ensures isGameOver == old(isGameOver) && gameMoves == old(gameMoves) && lastMove == old(lastMove)
    {
      pieces := InitialLayout();
      initialPieces := pieces;
    }

    /** Hands the move to the other side. */
    method SwitchTurn()
      modifies this
      ensures currentPlayerColor == Opponent(old(currentPlayerColor))
      ensures pieces == old(pieces) && initialPieces == old(initialPieces) && selection == old(selection)
      ensures isGameOver == old(isGameOver) && gameMoves == old(gameMoves) && lastMove == old(lastMove)
    {
      currentPlayerColor := if currentPlayerColor == RED then BLACK else RED;
    }

    /** Removes every highlight. */
    method ClearValidMoves()
      requires Valid()
      modifies validMoves
      ensures GridCleared()
    {
      for x := 0 to COLS
        invariant forall x', y :: 0 <= x' < x && 0 <= y < ROWS ==> !validMoves[x', y]
      {
        for y := 0 to ROWS
          invariant forall x', y' :: 0 <= x' < x && 0 <= y' < ROWS ==> !validMoves[x', y']
          invariant forall y' :: 0 <= y' < y ==> !validMoves[x, y']
        {
          validMoves[x, y] := false;
        }
      }
    }

    /** Highlights every cell the selected piece may reach under its movement rule, or none without a selection. */
    method CalculateValidMoves()
      requires Valid()
      modifies validMoves
      ensures SelectedPiece().None? ==> GridCleared()
      ensures SelectedPiece().Some? ==> GridShows(SelectedPiece().value.x, SelectedPiece().value.y)
    {
      ClearValidMoves();
      if selection == NoSelection {
        return;
      }
      var p := SelectedPiece().value;
      for x := 0 to COLS
        invariant forall x', y :: 0 <= x' < x && 0 <= y < ROWS ==> validMoves[x', y] == IsValidMove(pieces, p.x, p.y, x', y)
        invariant forall x', y :: x <= x' < COLS && 0 <= y < ROWS ==> !validMoves[x', y]
      {
        MarkColumn(p.x, p.y, x);
      }
    }

    /** Marks the cells of column x that the piece on (sx, sy) may move to; the other columns keep their marks. */
    method MarkColumn(sx: int, sy: int, x: int)
      requires Valid() && 0 <= x < COLS
      modifies validMoves
      ensures forall y :: 0 <= y < ROWS ==> validMoves[x, y] == (old(validMoves[x, y]) || IsValidMove(pieces, sx, sy, x, y))
      ensures forall x', y :: 0 <= x' < COLS && x' != x && 0 <= y < ROWS ==> validMoves[x', y] == old(validMoves[x', y])
    {
      for y := 0 to ROWS
        invariant forall x', y' :: 0 <= x' < COLS && x' != x && 0 <= y' < ROWS ==> validMoves[x', y'] == old(validMoves[x', y'])
        invariant forall y' :: 0 <= y' < y ==> validMoves[x, y'] == (old(validMoves[x, y']) || IsValidMove(pieces, sx, sy, x, y'))
        invariant forall y' :: y <= y' < ROWS ==> validMoves[x, y'] == old(validMoves[x, y'])
      {
        if IsValidMove(pieces, sx, sy, x, y) {
          validMoves[x, y] := true;
        }
      }
    }

    /**
     * Moves the selected piece to (newX, newY): takes the piece there, records
     * the move, and ends the game when the taken piece is a general.
     */
    method MakeMove(newX: int, newY: int, now: int) returns (ending: Ending)
      requires Valid() && selection != NoSelection && NotOnItself(pieces, selection, newX, newY)
      modifies this
      ensures Valid()
      ensures pieces == AfterMove(old(pieces), old(selection), newX, newY)
      ensures selection == Reindexed(old(pieces), old(selection), newX, newY)
      ensures gameMoves == old(gameMoves) + [MoveRecord(old(pieces), old(SelectedPiece()).value, newX, newY, now)]
      ensures lastMove == Some(MoveRecord(old(pieces), old(SelectedPiece()).value, newX, newY, now))
      ensures var taken := PieceAt(old(pieces), newX, newY);
        if taken.Some? && IsGeneral(taken.value.kind)
        then isGameOver && ending == Win(Opponent(taken.value.color))
        else isGameOver == old(isGameOver) && ending == NoEnding
      ensures currentPlayerColor == old(currentPlayerColor) && initialPieces == old(initialPieces)
    {
      var mover := SelectedPiece().value;
      var captured := PieceAt(pieces, newX, newY);
      var move := MoveRecord(pieces, mover, newX, newY, now);
      gameMoves := gameMoves + [move];
      lastMove := Some(move);
      ReindexedInRange(pieces, selection, newX, newY);
      pieces, selection := AfterMove(pieces, selection, newX, newY), Reindexed(pieces, selection, newX, newY);
      ending := NoEnding;
      if captured.Some? && (captured.value.kind == "帅" || captured.value.kind == "将") {
        isGameOver := true;
        ending := Win(if captured.value.color == RED then BLACK else RED);
      }
    }

    /**
     * One click on the cell (x, y), already converted from screen coordinates.
     * Ignored once the game is over or off the board. Without a selection, a
     * piece of the side to move is selected. With one, clicking the selected
     * piece deselects it, clicking another piece of its colour selects that
     * one, and any other cell is a move attempt: the full check decides, an
     * accepted move is made, and then the opponent without a move has lost
     * (in check) or drawn, or else the turn passes. After an attempt nothing
     * is selected, unless the general to be checkmated is missing, in which
     * case the game screen stops with a null reference.
     */
    method HandleCanvasClick(x: int, y: int, now: int) returns (ending: Ending)
      requires Valid()
      modifies this, validMoves
      ensures Valid() && initialPieces == old(initialPieces)
      ensures old(isGameOver) || !OnBoard(x, y) ==>
        pieces == old(pieces) && selection == old(selection) && currentPlayerColor == old(currentPlayerColor) &&
        isGameOver == old(isGameOver) && gameMoves == old(gameMoves) && lastMove == old(lastMove) &&
        unchanged(validMoves) && ending == NoEnding
      ensures !old(isGameOver) && OnBoard(x, y) && old(selection) == NoSelection ==>
        pieces == old(pieces) && currentPlayerColor == old(currentPlayerColor) && !isGameOver &&
        gameMoves == old(gameMoves) && lastMove == old(lastMove) && ending == NoEnding &&
        if old(PieceAt(pieces, x, y)).Some? && old(PieceAt(pieces, x, y)).value.color == old(currentPlayerColor)
        then selection == Selected(FirstAt(pieces, x, y).value) && GridShows(x, y)
        else selection == NoSelection && unchanged(validMoves)
      ensures !old(isGameOver) && OnBoard(x, y) && old(selection) != NoSelection && old(Reselects(x, y)) ==>
        pieces == old(pieces) && currentPlayerColor == old(currentPlayerColor) && !isGameOver &&
        gameMoves == old(gameMoves) && lastMove == old(lastMove) && ending == NoEnding &&
        if old(selection).Selected? && FirstAt(pieces, x, y) == Some(old(selection).index)
        then selection == NoSelection && GridCleared()
        else selection == Selected(FirstAt(pieces, x, y).value) && GridShows(x, y)
      ensures !old(isGameOver) && OnBoard(x, y) && old(selection) != NoSelection && !old(Reselects(x, y)) ==>
        var mover := old(SelectedPiece()).value;
        if old(checkMove(pieces, mover.x, mover.y, x, y)) != MoveValidationResult.Valid then
          pieces == old(pieces) && currentPlayerColor == old(currentPlayerColor) && !isGameOver &&
          gameMoves == old(gameMoves) && lastMove == old(lastMove) && ending == NoEnding &&
          selection == NoSelection && GridCleared()
        else
          pieces == AfterMove(old(pieces), old(selection), x, y) &&
          gameMoves == old(gameMoves) + [MoveRecord(old(pieces), mover, x, y, now)] &&
          lastMove == Some(MoveRecord(old(pieces), mover, x, y, now)) &&
          (ending == MissingKing <==> isGameOver && selection != NoSelection) &&
          (ending != MissingKing ==> selection == NoSelection && GridCleared()) &&
          (isGameOver <==> ending != NoEnding) &&
          currentPlayerColor == (if isGameOver then old(currentPlayerColor) else Opponent(old(currentPlayerColor))) &&
          AttemptEnding(old(pieces), pieces, old(currentPlayerColor), x, y, ending)
    {
      ending := NoEnding;
      if isGameOver || x < 0 || x >= COLS || y < 0 || y >= ROWS {
        return;
      }
      var clicked := FirstAt(pieces, x, y);
      if selection == NoSelection {
        if clicked.Some? && pieces[clicked.value].color == currentPlayerColor {
          selection := Selected(clicked.value);
          CalculateValidMoves();
        }
      } else if Reselects(x, y) {
        if selection.Selected? && clicked == Some(selection.index) {
          selection := NoSelection;
          ClearValidMoves();
        } else {
          selection := Selected(clicked.value);
          CalculateValidMoves();
        }
      } else {
        ending := AttemptMove(x, y, now);
        if ending == MissingKing {
          return;
        }
        selection := NoSelection;
        ClearValidMoves();
      }
    }

    /** The click lands on the selected piece itself or on another piece of its colour. */
    predicate Reselects(x: int, y: int)
      reads this
      requires Valid() && selection != NoSelection
    {
      var clicked := FirstAt(pieces, x, y);
      (selection.Selected? && clicked == Some(selection.index)) ||
      (clicked.Some? && pieces[clicked.value].color == SelectedPiece().value.color)
    }

    /** The move attempt of a click: the full check, the move, and the test of the opponent's position. */
    method AttemptMove(x: int, y: int, now: int) returns (ending: Ending)
      requires Valid() && selection != NoSelection && !isGameOver && !Reselects(x, y)
      modifies this
      ensures Valid() && initialPieces == old(initialPieces)
      ensures var mover := old(SelectedPiece()).value;
        if old(checkMove(pieces, mover.x, mover.y, x, y)) != MoveValidationResult.Valid then
          pieces == old(pieces) && selection == old(selection) && currentPlayerColor == old(currentPlayerColor) &&
          !isGameOver && gameMoves == old(gameMoves) && lastMove == old(lastMove) && ending == NoEnding
        else
          pieces == AfterMove(old(pieces), old(selection), x, y) &&
          selection == Reindexed(old(pieces), old(selection), x, y) &&
          gameMoves == old(gameMoves) + [MoveRecord(old(pieces), mover, x, y, now)] &&
          lastMove == Some(MoveRecord(old(pieces), mover, x, y, now)) &&
          (isGameOver <==> ending != NoEnding) &&
          currentPlayerColor == (if isGameOver then old(currentPlayerColor) else Opponent(old(currentPlayerColor))) &&
          AttemptEnding(old(pieces), pieces, old(currentPlayerColor), x, y, ending)
    {
      ending := NoEnding;
      var mover := SelectedPiece().value;
      if checkMove(pieces, mover.x, mover.y, x, y) != MoveValidationResult.Valid {
        return;
      }
      assert NotOnItself(pieces, selection, x, y);
      ending := MakeMove(x, y, now);
      if !isGameOver {
        var opponentColor := if currentPlayerColor == RED then BLACK else RED;
        var stuck := IsStalemate(opponentColor);
        if stuck {
          if kingInCheck(pieces, opponentColor) {
            var king := GetKing(opponentColor);
            isGameOver := true;
            if king.None? {
              ending := MissingKing;
              return;
            }
            ending := Win(if king.value.color == RED then BLACK else RED);
          } else {
            isGameOver := true;
            ending := Draw;
          }
        } else {
          SwitchTurn();
        }
      }
    }

    /**
     * How an accepted move of `side` from board b ends, in terms of the board after it:
     * taking a general wins for the taker; otherwise an opponent left without
     * a move loses when in check (or the game screen stops when that general is
     * missing) and draws when not; otherwise the game goes on.
     */
    ghost predicate AttemptEnding(b: Board, after: Board, side: string, x: int, y: int, ending: Ending) {
      var taken := PieceAt(b, x, y);
      var opponent := Opponent(side);
      if taken.Some? && IsGeneral(taken.value.kind) then ending == Win(Opponent(taken.value.color))
      else if HasLegalMove(after, opponent, checkMove) then ending == NoEnding
      else if !kingInCheck(after, opponent) then ending == Draw
      else if KingOf(after, opponent).None? then ending == MissingKing
      else ending == Win(Opponent(opponent))
    }

    /**
     * Takes back the last move: the piece of its type and colour on its target
     * goes back, a captured piece returns at the end of the array, and the turn
     * passes back. Refused once the game is over or with an empty history.
     */
    method HandleUndoMove()
      requires Valid()
      modifies this
      ensures Valid()
      ensures old(isGameOver) || old(gameMoves) == [] ==>
        pieces == old(pieces) && currentPlayerColor == old(currentPlayerColor) &&
        gameMoves == old(gameMoves) && lastMove == old(lastMove)
      ensures !old(isGameOver) && old(gameMoves) != [] ==>
        pieces == UndoBoard(old(pieces), old(gameMoves)[|old(gameMoves)| - 1]) &&
        gameMoves == old(gameMoves)[..|old(gameMoves)| - 1] && lastMove == LastMove(gameMoves) &&
        currentPlayerColor == Opponent(old(currentPlayerColor))
      ensures selection == old(selection) && isGameOver == old(isGameOver) && initialPieces == old(initialPieces)
    {
      if isGameOver || |gameMoves| == 0 {
        return;
      }
      var record := gameMoves[|gameMoves| - 1];
      gameMoves := gameMoves[..|gameMoves| - 1];
      lastMove := if |gameMoves| == 0 then None else Some(gameMoves[|gameMoves| - 1]);
      var movedPiece := FindMovedPiece(record);
      if movedPiece.Some? {
        var j := movedPiece.value;
        pieces := pieces[j := pieces[j].(x := record.fromX, y := record.fromY)];
      }
      if record.capturedPiece.Some? {
        pieces := pieces + [record.capturedPiece.value];
      }
      SwitchTurn();
    }

    /** The search of the undo for the moved piece: the first one on the move's target with its type and colour. */
    method FindMovedPiece(record: GameMove) returns (r: Option<nat>)
      ensures r == FirstMatch(pieces, record.toX, record.toY, record.pieceName, record.pieceColor)
    {
      for k := 0 to |pieces|
        invariant forall j :: 0 <= j < k ==>
          !(At(pieces[j], record.toX, record.toY) && pieces[j].kind == record.pieceName && pieces[j].color == record.pieceColor)
      {
        var piece := pieces[k];
        if piece.x == record.toX && piece.y == record.toY {
          if piece.kind == record.pieceName && piece.color == record.pieceColor {
            return Some(k);
          }
        }
      }
      return None;
    }

    /**
     * Takes over a saved game: its pieces, its history (empty when absent), the
     * last move, and its side to move (red when absent). The selection keeps
     * pointing at the old object, and the game-over flag and the highlights
     * stay as they were.
     */
    method LoadGameData(data: Option<ArchiveData>)
      requires Valid()
      modifies this
      ensures Valid()
      ensures data.None? ==>
        pieces == old(pieces) && selection == old(selection) && currentPlayerColor == old(currentPlayerColor) &&
        gameMoves == old(gameMoves) && lastMove == old(lastMove)
      ensures data.Some? ==>
        pieces == data.value.pieces &&
        gameMoves == (if data.value.moves.Some? then data.value.moves.value else []) &&
        lastMove == LastMove(gameMoves) &&
        currentPlayerColor == (if data.value.currentPlayerColor.Some? then data.value.currentPlayerColor.value else RED) &&
        selection == (if old(selection).Selected? then Detached(old(pieces)[old(selection).index]) else old(selection))
      ensures isGameOver == old(isGameOver) && initialPieces == old(initialPieces)
    {
      if data.None? {
        return;
      }
      if selection.Selected? {
        selection := Detached(pieces[selection.index]);
      }
      pieces := data.value.pieces;
      gameMoves := if data.value.moves.Some? then data.value.moves.value else [];
      lastMove := if |gameMoves| == 0 then None else Some(gameMoves[|gameMoves| - 1]);
      currentPlayerColor := if data.value.currentPlayerColor.Some? then data.value.currentPlayerColor.value else RED;
    }

    /** The first piece on (x, y), if any. */
    function GetPieceAt(x: int, y: int): (r: Option<ChessPiece>)
      reads this
      ensures r.Some? ==> r.value in pieces && At(r.value, x, y)
      ensures r.None? <==> forall j :: 0 <= j < |pieces| ==> !At(pieces[j], x, y)
    {
      PieceAt(pieces, x, y)
    }

    /** The general of the given side, if it is still on the board. */
    function GetKing(color: string): (r: Option<ChessPiece>)
      reads this
      ensures r.Some? ==> r.value in pieces && r.value.kind == KingType(color) && r.value.color == color
      ensures r.None? <==> forall k :: 0 <= k < |pieces| ==> !(pieces[k].kind == KingType(color) && pieces[k].color == color)
    {
      KingOf(pieces, color)
    }

    /** Whether the side has no move the full check accepts: each of its pieces is tried against every cell. */
    method IsStalemate(playerColor: string) returns (r: bool)
      ensures r <==> !HasLegalMove(pieces, playerColor, checkMove)
    {
      for k := 0 to |pieces|
        invariant forall k', x, y :: 0 <= k' < k && pieces[k'].color == playerColor && 0 <= x < COLS && 0 <= y < ROWS ==>
          checkMove(pieces, pieces[k'].x, pieces[k'].y, x, y) != MoveValidationResult.Valid
      {
        var piece := pieces[k];
        if piece.color == playerColor {
          var found := PieceHasMove(piece);
          if found {
            return false;
          }
        }
      }
      return true;
    }

    /** Whether the full check accepts a move of the piece to some cell of the board. */
    method PieceHasMove(piece: ChessPiece) returns (found: bool)
      ensures !found <==> forall x, y :: 0 <= x < COLS && 0 <= y < ROWS ==> checkMove(pieces, piece.x, piece.y, x, y) != MoveValidationResult.Valid
    {
      for x := 0 to COLS
        invariant forall x', y :: 0 <= x' < x && 0 <= y < ROWS ==> checkMove(pieces, piece.x, piece.y, x', y) != MoveValidationResult.Valid
      {
        for y := 0 to ROWS
          invariant forall x', y' :: 0 <= x' < x && 0 <= y' < ROWS ==> checkMove(pieces, piece.x, piece.y, x', y') != MoveValidationResult.Valid
          invariant forall y' :: 0 <= y' < y ==> checkMove(pieces, piece.x, piece.y, x, y') != MoveValidationResult.Valid
        {
          if checkMove(pieces, piece.x, piece.y, x, y) == MoveValidationResult.Valid {
            return true;
          }
        }
      }
      return false;
    }
  }
}
