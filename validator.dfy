/**
 * The move-rule checker. It reads one board, the one it was built over, and
 * answers whether a piece may go from one cell to another under the basic
 * movement rule of its type. The per-type rules are written in the order in
 * which the checker tests them; each carries, as its contract, a direct
 * geometric description of the cells it accepts.
 */
module MoveRuleValidator {
  import opened Pieces

  /** The three answers of the full check (`checkMove`), whose logic is not modelled. */
  datatype MoveValidationResult = Valid | InvalidSelfCheck | InvalidRule

  function Abs(n: int): nat {
    if n < 0 then -n else n
  }

  function Min(a: int, b: int): int {
    if a <= b then a else b
  }

  function Max(a: int, b: int): int {
    if a <= b then b else a
  }

  /** Java's `/` on int: the quotient is truncated toward zero. */
  function JavaDiv(a: int, d: int): (r: int)
    requires d > 0
    ensures a >= 0 ==> 0 <= a - d * r < d
    ensures a < 0 ==> 0 <= d * r - a < d
  {
    if a >= 0 then a / d else -((-a) / d)
  }

  /** Occupied cells (x, y) of column x with lo <= y < hi. */
  function ColumnCount(b: Board, x: int, lo: int, hi: int): nat
    decreases hi - lo
  {
    if hi <= lo then 0
    else ColumnCount(b, x, lo, hi - 1) + (if Occupied(b, x, hi - 1) then 1 else 0)
  }

  /** Occupied cells (x, y) of row y with lo <= x < hi. */
  function RowCount(b: Board, y: int, lo: int, hi: int): nat
    decreases hi - lo
  {
    if hi <= lo then 0
    else RowCount(b, y, lo, hi - 1) + (if Occupied(b, hi - 1, y) then 1 else 0)
  }

  /** Number of occupied cells strictly between two cells of one row or column; 0 otherwise. */
  function PiecesBetween(b: Board, x1: int, y1: int, x2: int, y2: int): nat {
    if x1 == x2 then ColumnCount(b, x1, Min(y1, y2) + 1, Max(y1, y2))
    else if y1 == y2 then RowCount(b, y1, Min(x1, x2) + 1, Max(x1, x2))
    else 0
  }

  /** Every cell strictly between the two endpoints (on a shared row or column) is empty. */
  predicate PathClear(b: Board, x1: int, y1: int, x2: int, y2: int) {
    if x1 == x2 then forall y :: Min(y1, y2) < y < Max(y1, y2) ==> !Occupied(b, x1, y)
    else if y1 == y2 then forall x :: Min(x1, x2) < x < Max(x1, x2) ==> !Occupied(b, x, y1)
    else true
  }

  lemma {:induction false} ColumnCountZero(b: Board, x: int, lo: int, hi: int)
    ensures ColumnCount(b, x, lo, hi) == 0 <==> forall y :: lo <= y < hi ==> !Occupied(b, x, y)
    decreases hi - lo
  {
    if hi > lo {
      ColumnCountZero(b, x, lo, hi - 1);
    }
  }

  lemma {:induction false} RowCountZero(b: Board, y: int, lo: int, hi: int)
    ensures RowCount(b, y, lo, hi) == 0 <==> forall x :: lo <= x < hi ==> !Occupied(b, x, y)
    decreases hi - lo
  {
    if hi > lo {
      RowCountZero(b, y, lo, hi - 1);
    }
  }

  /** No piece between the endpoints exactly when the count is zero. */
  lemma ClearPathIff(b: Board, x1: int, y1: int, x2: int, y2: int)
    ensures PiecesBetween(b, x1, y1, x2, y2) == 0 <==> PathClear(b, x1, y1, x2, y2)
  {
    ColumnCountZero(b, x1, Min(y1, y2) + 1, Max(y1, y2));
    RowCountZero(b, y1, Min(x1, x2) + 1, Max(x1, x2));
  }

  /** The count does not depend on which endpoint comes first, and is 0 off a shared line. */
  lemma PiecesBetweenSymmetric(b: Board, x1: int, y1: int, x2: int, y2: int)
    ensures PiecesBetween(b, x1, y1, x2, y2) == PiecesBetween(b, x2, y2, x1, y1)
    ensures x1 != x2 && y1 != y2 ==> PiecesBetween(b, x1, y1, x2, y2) == 0
  {
  }

  /** Cells strictly between are at most the distance minus one. */
  lemma {:induction false} ColumnCountBound(b: Board, x: int, lo: int, hi: int)
    ensures ColumnCount(b, x, lo, hi) <= if hi <= lo then 0 else hi - lo
    decreases hi - lo
  {
    if hi > lo {
      ColumnCountBound(b, x, lo, hi - 1);
    }
  }

  lemma {:induction false} RowCountBound(b: Board, y: int, lo: int, hi: int)
    ensures RowCount(b, y, lo, hi) <= if hi <= lo then 0 else hi - lo
    decreases hi - lo
  {
    if hi > lo {
      RowCountBound(b, y, lo, hi - 1);
    }
  }

  /** The loop of the checker: scan the open segment and count occupied cells. */
  method CountPiecesBetween(b: Board, x1: int, y1: int, x2: int, y2: int) returns (count: nat)
    ensures count == PiecesBetween(b, x1, y1, x2, y2)
    ensures count == 0 <==> PathClear(b, x1, y1, x2, y2)
  {
    count := 0;
    if x1 == x2 {
      var min, max := Min(y1, y2), Max(y1, y2);
      var y := min + 1;
      while y < max
        invariant min + 1 <= y <= Max(max, min + 1)
        invariant count == ColumnCount(b, x1, min + 1, y)
        decreases max - y
      {
        if Occupied(b, x1, y) {
          count := count + 1;
        }
        y := y + 1;
      }
    } else if y1 == y2 {
      var min, max := Min(x1, x2), Max(x1, x2);
      var x := min + 1;
      while x < max
        invariant min + 1 <= x <= Max(max, min + 1)
        invariant count == RowCount(b, y1, min + 1, x)
        decreases max - x
      {
        if Occupied(b, x, y1) {
          count := count + 1;
        }
        x := x + 1;
      }
    }
    ClearPathIff(b, x1, y1, x2, y2);
  }

  /** The nine-cell palace of a side: columns 3..5, rows 7..9 for RED and rows 0..2 for any other colour. */
  predicate InPalace(color: string, x: int, y: int) {
    3 <= x <= 5 && (if color == RED then 7 <= y <= 9 else 0 <= y <= 2)
  }

  /** General: one orthogonal step that stays in its palace. The board is not consulted. */
  predicate IsValidGeneralMove(p: ChessPiece, endX: int, endY: int)
    ensures IsValidGeneralMove(p, endX, endY) <==>
      (endX, endY) in {(p.x + 1, p.y), (p.x - 1, p.y), (p.x, p.y + 1), (p.x, p.y - 1)} && InPalace(p.color, endX, endY)
  {
    var dx, dy := Abs(endX - p.x), Abs(endY - p.y);
    if !((dx == 1 && dy == 0) || (dx == 0 && dy == 1)) then false
    else if endX < 3 || endX > 5 then false
    else if p.color == RED then 7 <= endY <= 9
    else 0 <= endY <= 2
  }

  /** Advisor: one diagonal step that stays in its palace. */
  predicate IsValidAdvisorMove(p: ChessPiece, endX: int, endY: int)
    ensures IsValidAdvisorMove(p, endX, endY) <==>
      (endX, endY) in {(p.x + 1, p.y + 1), (p.x + 1, p.y - 1), (p.x - 1, p.y + 1), (p.x - 1, p.y - 1)} && InPalace(p.color, endX, endY)
  {
    var dx, dy := Abs(endX - p.x), Abs(endY - p.y);
    if !(dx == 1 && dy == 1) then false
    else if endX < 3 || endX > 5 then false
    else if p.color == RED then 7 <= endY <= 9
    else 0 <= endY <= 2
  }

  /** Own half for the elephant: rows 5..9 for RED, rows 0..4 for any other colour. */
  predicate OwnHalf(color: string, y: int) {
    if color == RED then y >= 5 else y <= 4
  }

  /** Elephant: two cells diagonally, not across the river, with the diagonal midpoint (the eye) empty. */
  predicate IsValidElephantMove(b: Board, p: ChessPiece, endX: int, endY: int)
    ensures IsValidElephantMove(b, p, endX, endY) <==>
      exists sx: int, sy: int :: sx in {-1, 1} && sy in {-1, 1} && endX == p.x + 2 * sx && endY == p.y + 2 * sy
        && OwnHalf(p.color, endY) && !Occupied(b, p.x + sx, p.y + sy)
  {
    var dx, dy := Abs(endX - p.x), Abs(endY - p.y);
    if !(dx == 2 && dy == 2) then false
    else if p.color == RED && endY < 5 then false
    else if p.color != RED && endY > 4 then false
    else
      var sx, sy := (endX - p.x) / 2, (endY - p.y) / 2;
      assert JavaDiv(p.x + endX, 2) == p.x + sx && JavaDiv(p.y + endY, 2) == p.y + sy;
      assert sx in {-1, 1} && sy in {-1, 1} && endX == p.x + 2 * sx && endY == p.y + 2 * sy;
      !Occupied(b, JavaDiv(p.x + endX, 2), JavaDiv(p.y + endY, 2))
  }

  /** Chariot: along a shared row or column with nothing in between. */
  predicate IsValidChariotMove(b: Board, p: ChessPiece, endX: int, endY: int)
    ensures IsValidChariotMove(b, p, endX, endY) <==> (p.x == endX || p.y == endY) && PathClear(b, p.x, p.y, endX, endY)
  {
    ClearPathIff(b, p.x, p.y, endX, endY);
    if p.x != endX && p.y != endY then false
    else PiecesBetween(b, p.x, p.y, endX, endY) == 0
  }

  /** Horse: an L-shaped jump whose leg, the cell next to the source along the long side, is empty. */
  predicate IsValidHorseMove(b: Board, p: ChessPiece, endX: int, endY: int)
    ensures IsValidHorseMove(b, p, endX, endY) <==>
      (Abs(endX - p.x) == 1 && Abs(endY - p.y) == 2 && !Occupied(b, p.x, (p.y + endY) / 2))
      || (Abs(endX - p.x) == 2 && Abs(endY - p.y) == 1 && !Occupied(b, (p.x + endX) / 2, p.y))
  {
    var dx, dy := Abs(endX - p.x), Abs(endY - p.y);
    if !((dx == 1 && dy == 2) || (dx == 2 && dy == 1)) then false
    else
      var blockX := if dx == 1 then p.x else p.x + (if endX > p.x then 1 else -1);
      var blockY := if dx == 1 then p.y + (if endY > p.y then 1 else -1) else p.y;
      !Occupied(b, blockX, blockY)
  }

  /** Cannon: along a line; with zero pieces between onto an empty cell, or exactly one (the screen) onto an occupied one. */
  predicate IsValidCannonMove(b: Board, p: ChessPiece, endX: int, endY: int)
    ensures IsValidCannonMove(b, p, endX, endY) <==>
      (p.x == endX || p.y == endY)
      && (if Occupied(b, endX, endY) then PiecesBetween(b, p.x, p.y, endX, endY) == 1
          else PathClear(b, p.x, p.y, endX, endY))
  {
    ClearPathIff(b, p.x, p.y, endX, endY);
    if p.x != endX && p.y != endY then false
    else
      var piecesBetween := PiecesBetween(b, p.x, p.y, endX, endY);
      if PieceAt(b, endX, endY).Some? then piecesBetween == 1 else piecesBetween == 0
  }

  /** The row step that is "forward" for a soldier: RED moves toward row 0, any other colour toward row 9. */
  function Forward(color: string): int {
    if color == RED then -1 else 1
  }

  /** A soldier has crossed the river: RED on rows 0..4, any other colour on rows 5..9. */
  predicate CrossedRiver(p: ChessPiece) {
    if p.color == RED then p.y <= 4 else p.y >= 5
  }

  /** Soldier: one step forward, or one step sideways once its own cell is across the river. */
  predicate IsValidPawnMove(p: ChessPiece, endX: int, endY: int)
    ensures IsValidPawnMove(p, endX, endY) <==>
      (endX == p.x && endY == p.y + Forward(p.color))
      || (CrossedRiver(p) && endY == p.y && (endX == p.x + 1 || endX == p.x - 1))
  {
    var dx, dy := Abs(endX - p.x), endY - p.y;
    if p.color == RED && dy > 0 then false
    else if p.color != RED && dy < 0 then false
    else if !((dx == 1 && dy == 0) || (dx == 0 && Abs(dy) == 1)) then false
    else
      var hasCrossedRiver := if p.color == RED then p.y <= 4 else p.y >= 5;
      if !hasCrossedRiver then dx == 0
      else (dx == 1 && dy == 0) || (dx == 0 && Abs(dy) == 1)
  }

  /** The type strings that have a movement rule; every other string (the red advisor "仕" among them) has none. */
  predicate HasRule(kind: string) {
    kind in {"将", "帅", "士", "象", "相", "车", "車", "马", "馬", "炮", "砲", "兵", "卒"}
  }

  /** The switch on the piece's type string. */
  predicate Dispatch(b: Board, p: ChessPiece, endX: int, endY: int)
    ensures Dispatch(b, p, endX, endY) ==> HasRule(p.kind)
  {
    if p.kind == "将" || p.kind == "帅" then IsValidGeneralMove(p, endX, endY)
    else if p.kind == "士" then IsValidAdvisorMove(p, endX, endY)
    else if p.kind == "象" || p.kind == "相" then IsValidElephantMove(b, p, endX, endY)
    else if p.kind == "车" || p.kind == "車" then IsValidChariotMove(b, p, endX, endY)
    else if p.kind == "马" || p.kind == "馬" then IsValidHorseMove(b, p, endX, endY)
    else if p.kind == "炮" || p.kind == "砲" then IsValidCannonMove(b, p, endX, endY)
    else if p.kind == "兵" || p.kind == "卒" then IsValidPawnMove(p, endX, endY)
    else false
  }

  /** The basic-rule check from (startX, startY) to (endX, endY) on board b. */
  function IsValidMove(b: Board, startX: int, startY: int, endX: int, endY: int): (r: bool)
    ensures r ==> Occupied(b, startX, startY)
    ensures r ==> OnBoard(endX, endY)
    ensures r ==> !(startX == endX && startY == endY)
    ensures r ==> PieceAt(b, endX, endY).None? || PieceAt(b, endX, endY).value.color != PieceAt(b, startX, startY).value.color
    ensures r ==> Dispatch(b, PieceAt(b, startX, startY).value, endX, endY)
  {
    match PieceAt(b, startX, startY)
    case None => false
    case Some(movingPiece) =>
      var targetPiece := PieceAt(b, endX, endY);
      if targetPiece.Some? && targetPiece.value.color == movingPiece.color then false
      else if endX < 0 || endX >= COLS || endY < 0 || endY >= ROWS then false
      else Dispatch(b, movingPiece, endX, endY)
  }

  /** Conversely, the type's rule decides every on-board move whose target is empty or an opponent. */
  lemma IsValidMoveByRule(b: Board, startX: int, startY: int, endX: int, endY: int)
    requires Occupied(b, startX, startY) && OnBoard(endX, endY)
    requires PieceAt(b, endX, endY).None? || PieceAt(b, endX, endY).value.color != PieceAt(b, startX, startY).value.color
    ensures IsValidMove(b, startX, startY, endX, endY) == Dispatch(b, PieceAt(b, startX, startY).value, endX, endY)
  {
  }

  /** A piece whose type string has no rule never moves; this includes the red advisor "仕". */
  lemma NoRuleNoMove(b: Board, startX: int, startY: int, endX: int, endY: int)
    requires PieceAt(b, startX, startY).Some? && !HasRule(PieceAt(b, startX, startY).value.kind)
    ensures !IsValidMove(b, startX, startY, endX, endY)
  {
  }

  lemma RedAdvisorNeverMoves(b: Board, startX: int, startY: int, endX: int, endY: int)
    requires PieceAt(b, startX, startY).Some? && PieceAt(b, startX, startY).value.kind == "仕"
    ensures !IsValidMove(b, startX, startY, endX, endY)
  {
    NoRuleNoMove(b, startX, startY, endX, endY);
  }

  /** A horse on (4, 4) with a piece on (4, 5) cannot jump to (5, 6); with the leg free it can. */
  lemma HorseLegExample()
    ensures !IsValidMove([ChessPiece("马", RED, 4, 4), ChessPiece("兵", RED, 4, 5)], 4, 4, 5, 6)
    ensures IsValidMove([ChessPiece("马", RED, 4, 4), ChessPiece("兵", RED, 4, 6)], 4, 4, 5, 6)
  {
    var b := [ChessPiece("马", RED, 4, 4), ChessPiece("兵", RED, 4, 5)];
    assert PieceAt(b, 4, 4) == Some(b[0]);
    assert PieceAt(b, 5, 6) == None;
    assert Occupied(b, 4, 5);
    var c := [ChessPiece("马", RED, 4, 4), ChessPiece("兵", RED, 4, 6)];
    assert PieceAt(c, 4, 4) == Some(c[0]);
    assert PieceAt(c, 5, 6) == None;
    assert !Occupied(c, 4, 5);
  }

  /** A cannon on (1, 7) takes the piece on (1, 0) over exactly one screen, the piece on (1, 2). */
  lemma CannonScreenExample()
    ensures IsValidMove([ChessPiece("炮", RED, 1, 7), ChessPiece("炮", BLACK, 1, 2), ChessPiece("马", BLACK, 1, 0)], 1, 7, 1, 0)
  {
    var b := [ChessPiece("炮", RED, 1, 7), ChessPiece("炮", BLACK, 1, 2), ChessPiece("马", BLACK, 1, 0)];
    assert PieceAt(b, 1, 7) == Some(b[0]);
    assert PieceAt(b, 1, 0) == Some(b[2]);
    assert ColumnCount(b, 1, 1, 7) == 1 by {
      assert Occupied(b, 1, 2);
      assert !Occupied(b, 1, 1) && !Occupied(b, 1, 3) && !Occupied(b, 1, 4) && !Occupied(b, 1, 5) && !Occupied(b, 1, 6);
    }
  }

  /** The same cannon cannot move to the empty cell (1, 1) beyond the screen: one piece between needs a target. */
  lemma CannonNeedsTargetExample()
    ensures !IsValidMove([ChessPiece("炮", RED, 1, 7), ChessPiece("炮", BLACK, 1, 2), ChessPiece("马", BLACK, 1, 0)], 1, 7, 1, 1)
  {
    var b := [ChessPiece("炮", RED, 1, 7), ChessPiece("炮", BLACK, 1, 2), ChessPiece("马", BLACK, 1, 0)];
    assert PieceAt(b, 1, 7) == Some(b[0]);
    assert PieceAt(b, 1, 1) == None;
    assert ColumnCount(b, 1, 2, 7) == 1 by {
      assert Occupied(b, 1, 2);
      assert !Occupied(b, 1, 3) && !Occupied(b, 1, 4) && !Occupied(b, 1, 5) && !Occupied(b, 1, 6);
    }
  }

  /** A red soldier that has not crossed the river cannot step sideways; once across, it can. */
  lemma PawnSidewaysExample()
    ensures !IsValidMove([ChessPiece("兵", RED, 4, 6)], 4, 6, 5, 6)
    ensures IsValidMove([ChessPiece("兵", RED, 4, 4)], 4, 4, 5, 4)
    ensures !IsValidMove([ChessPiece("兵", RED, 4, 4)], 4, 4, 4, 5)
  {
  }
}
