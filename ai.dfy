/**
 * The computer player's board arithmetic: the value table, the static
 * evaluation with its protection and attack heuristics, the board copy a
 * simulated move produces, the game-over test, the legal-move generator and
 * the capture-first move ordering. The search itself is in module AISearch.
 *
 * The rule check the generator consults is a parameter: it answers for the
 * board the checker was built over, which is the board of the search root,
 * not the board being examined. The two random draws of the Java program (the
 * evaluation jitter and the 20% allowance for quiet general moves) are
 * oracles indexed by the node of the search tree at which they are drawn.
 */
module AILogic {
  import opened Pieces
  import opened MoveRuleValidator

  const KING_VALUE: int := 10000
  const ROOK_VALUE: int := 90
  const KNIGHT_VALUE: int := 40
  const CANNON_VALUE: int := 45
  const ADVISOR_VALUE: int := 20
  const BISHOP_VALUE: int := 20
  const PAWN_VALUE: int := 10
  const PROMOTED_PAWN_BONUS: int := 20

  /** The sentinel score of the search. */
  const INF: int := 999999

  /** The random term added to every static evaluation: one of -1, 0, 1. */
  type Jitter = j: int | -1 <= j <= 1

  /** A node of the search tree: the positions, in the ordered move lists, of the moves leading to it from the root. */
  type Path = seq<nat>

  /**
   * What one search call holds fixed: the side the computer plays, the full rule
   * check over the root board, and the random outcomes drawn at each node:
   * the jitter of the evaluation at a leaf, and whether the draw lets a quiet
   * general move of piece i to (x, y) through.
   */
  datatype Search = Search(aiColor: string,
                           check: (int, int, int, int) -> MoveValidationResult,
                           jitter: Path -> Jitter,
                           kingRoll: (Path, nat, int, int) -> bool)

  // ---------------------------------------------------------------- values

  /** The value table, keyed by the exact type strings. */
  const BASE_VALUES: map<string, int> :=
    map["帅" := KING_VALUE, "将" := KING_VALUE, "车" := ROOK_VALUE, "马" := KNIGHT_VALUE,
        "炮" := CANNON_VALUE, "仕" := ADVISOR_VALUE, "士" := ADVISOR_VALUE,
        "相" := BISHOP_VALUE, "象" := BISHOP_VALUE, "兵" := PAWN_VALUE, "卒" := PAWN_VALUE]

  function GetBaseValue(p: ChessPiece): (v: int)
    ensures v == if p.kind in BASE_VALUES then BASE_VALUES[p.kind] else 0
    ensures 0 <= v <= KING_VALUE
    ensures v == KING_VALUE <==> IsGeneral(p.kind)
  {
    if p.kind == "帅" || p.kind == "将" then KING_VALUE
    else if p.kind == "车" then ROOK_VALUE
    else if p.kind == "马" then KNIGHT_VALUE
    else if p.kind == "炮" then CANNON_VALUE
    else if p.kind == "仕" || p.kind == "士" then ADVISOR_VALUE
    else if p.kind == "相" || p.kind == "象" then BISHOP_VALUE
    else if p.kind == "兵" then PAWN_VALUE
    else if p.kind == "卒" then PAWN_VALUE
    else 0
  }

  /** The traditional glyphs the rule checker accepts for chariot, horse and cannon are worth nothing here. */
  lemma TraditionalGlyphsHaveNoValue(p: ChessPiece)
    requires p.kind in {"車", "馬", "砲"}
    ensures GetBaseValue(p) == 0
  {
  }

  /** A piece of `color` other than the one on (x, y), in its row or column, at most two cells away on each axis. */
  predicate Protects(q: ChessPiece, x: int, y: int, color: string) {
    q.color == color && !(q.x == x && q.y == y)
    && (q.x == x || q.y == y) && Abs(q.x - x) <= 2 && Abs(q.y - y) <= 2
  }

  /** A piece of the other side at most two cells away on each axis. */
  predicate Attacks(q: ChessPiece, x: int, y: int, myColor: string) {
    q.color == Opponent(myColor) && Abs(q.x - x) <= 2 && Abs(q.y - y) <= 2
  }

  function ProtectionCount(b: Board, x: int, y: int, color: string): nat {
    if |b| == 0 then 0
    else ProtectionCount(b[..|b| - 1], x, y, color) + (if Protects(b[|b| - 1], x, y, color) then 1 else 0)
  }

  predicate UnderAttack(b: Board, x: int, y: int, myColor: string) {
    exists j :: 0 <= j < |b| && Attacks(b[j], x, y, myColor)
  }

  /** The count is additive over a split of the board, so it counts each protecting piece once. */
  lemma {:induction false} ProtectionCountAppend(a: Board, c: Board, x: int, y: int, color: string)
    ensures ProtectionCount(a + c, x, y, color) == ProtectionCount(a, x, y, color) + ProtectionCount(c, x, y, color)
    decreases |c|
  {
    if |c| == 0 {
      assert a + c == a;
    } else {
      assert (a + c)[..|a + c| - 1] == a + c[..|c| - 1];
      ProtectionCountAppend(a, c[..|c| - 1], x, y, color);
    }
  }

  /** At most every piece protects, and a board without protectors counts zero. */
  lemma {:induction false} ProtectionCountBounds(b: Board, x: int, y: int, color: string)
    ensures ProtectionCount(b, x, y, color) <= |b|
    ensures ProtectionCount(b, x, y, color) == 0 <==> forall j :: 0 <= j < |b| ==> !Protects(b[j], x, y, color)
    decreases |b|
  {
    if |b| > 0 {
      var init := b[..|b| - 1];
      ProtectionCountBounds(init, x, y, color);
      assert forall j :: 0 <= j < |init| ==> init[j] == b[j];
    }
  }

  method CountProtection(b: Board, x: int, y: int, color: string) returns (count: nat)
    ensures count == ProtectionCount(b, x, y, color)
  {
    count := 0;
    var k := 0;
    while k < |b|
      invariant 0 <= k <= |b|
      invariant count == ProtectionCount(b[..k], x, y, color)
    {
      assert b[..k + 1][..k] == b[..k];
      var piece := b[k];
      if piece.color == color && !(piece.x == x && piece.y == y) {
        if (piece.x == x || piece.y == y) && Abs(piece.x - x) <= 2 && Abs(piece.y - y) <= 2 {
          count := count + 1;
        }
      }
      k := k + 1;
    }
    assert b[..|b|] == b;
  }

  method IsUnderAttack(b: Board, x: int, y: int, myColor: string) returns (r: bool)
    ensures r <==> UnderAttack(b, x, y, myColor)
  {
    var opponentColor := if myColor == RED then BLACK else RED;
    var k := 0;
    while k < |b|
      invariant 0 <= k <= |b|
      invariant forall j :: 0 <= j < k ==> !Attacks(b[j], x, y, myColor)
    {
      var piece := b[k];
      if piece.color == opponentColor {
        if Abs(piece.x - x) <= 2 && Abs(piece.y - y) <= 2 {
          return true;
        }
      }
      k := k + 1;
    }
    return false;
  }

  /** The worth of one piece on board b: table value, river bonus for soldiers, and the general's safety terms. */
  function PieceValue(b: Board, p: ChessPiece): int {
    GetBaseValue(p)
    + (if p.kind == "兵" && p.y <= 4 then PROMOTED_PAWN_BONUS
       else if p.kind == "卒" && p.y >= 5 then PROMOTED_PAWN_BONUS
       else 0)
    + (if p.kind == "帅" || p.kind == "将"
       then 5 * ProtectionCount(b, p.x, p.y, p.color) - (if UnderAttack(b, p.x, p.y, p.color) then 30 else 0)
       else 0)
  }

  /** A piece's worth counts for the computer when it has the computer's colour and against it otherwise. */
  function Signed(p: ChessPiece, aiColor: string, v: int): int {
    if p.color == aiColor then v else -v
  }

  /** Signed worth of the first n pieces, each valued on the whole board. */
  function Material(b: Board, aiColor: string, n: nat): int
    requires n <= |b|
  {
    if n == 0 then 0
    else Material(b, aiColor, n - 1) + Signed(b[n - 1], aiColor, PieceValue(b, b[n - 1]))
  }

  /** The static evaluation from the computer's side, with the drawn jitter. */
  function Evaluate(b: Board, aiColor: string, jitter: Jitter): int {
    Material(b, aiColor, |b|) + jitter
  }

  method EvaluateBoard(b: Board, aiColor: string, jitter: Jitter) returns (score: int)
    ensures score == Evaluate(b, aiColor, jitter)
    ensures Evaluate(b, aiColor, 0) - 1 <= score <= Evaluate(b, aiColor, 0) + 1
  {
    score := 0;
    var k := 0;
    while k < |b|
      invariant 0 <= k <= |b|
      invariant score == Material(b, aiColor, k)
    {
      var piece := b[k];
      var pieceValue := GetBaseValue(piece);
      if piece.kind == "兵" && piece.y <= 4 {
        pieceValue := pieceValue + PROMOTED_PAWN_BONUS;
      } else if piece.kind == "卒" && piece.y >= 5 {
        pieceValue := pieceValue + PROMOTED_PAWN_BONUS;
      }
      if piece.kind == "帅" || piece.kind == "将" {
        var protection := CountProtection(b, piece.x, piece.y, piece.color);
        pieceValue := pieceValue + protection * 5;
        var isAttacked := IsUnderAttack(b, piece.x, piece.y, piece.color);
        if isAttacked {
          pieceValue := pieceValue - 30;
        }
      }
      if piece.color == aiColor {
        score := score + pieceValue;
      } else {
        score := score - pieceValue;
      }
      k := k + 1;
    }
    score := score + jitter;
  }

  /** Between the two real colours the evaluation is zero-sum, up to the two jitters. */
  lemma {:induction false} MaterialZeroSum(b: Board, n: nat)
    requires n <= |b|
    requires forall k :: 0 <= k < |b| ==> b[k].color == RED || b[k].color == BLACK
    ensures Material(b, RED, n) == -Material(b, BLACK, n)
  {
    if n > 0 {
      MaterialZeroSum(b, n - 1);
    }
  }

  lemma EvaluateZeroSum(b: Board, j1: Jitter, j2: Jitter)
    requires forall k :: 0 <= k < |b| ==> b[k].color == RED || b[k].color == BLACK
    ensures Evaluate(b, RED, j1) + Evaluate(b, BLACK, j2) == j1 + j2
  {
    MaterialZeroSum(b, |b|);
  }

  // ---------------------------------------------------------------- lookups

  /** The search's own board lookup: the first piece on (x, y). */
  method GetPieceAt(b: Board, x: int, y: int) returns (r: Option<ChessPiece>)
    ensures r == PieceAt(b, x, y)
    ensures r.Some? ==> r.value in b && At(r.value, x, y)
  {
    var k := 0;
    while k < |b|
      invariant 0 <= k <= |b|
      invariant forall j :: 0 <= j < k ==> !At(b[j], x, y)
    {
      if b[k].x == x && b[k].y == y {
        return Some(b[k]);
      }
      k := k + 1;
    }
    return None;
  }

  /** The game is over when no "帅" or no "将" is left, whatever the colours. */
  predicate GameOver(b: Board) {
    !(exists j :: 0 <= j < |b| && b[j].kind == "帅") || !(exists j :: 0 <= j < |b| && b[j].kind == "将")
  }

  method IsGameOver(b: Board) returns (r: bool)
    ensures r <==> GameOver(b)
  {
    var redKingFound, blackKingFound := false, false;
    var k := 0;
    while k < |b|
      invariant 0 <= k <= |b|
      invariant redKingFound <==> exists j :: 0 <= j < k && b[j].kind == "帅"
      invariant blackKingFound <==> exists j :: 0 <= j < k && b[j].kind == "将"
    {
      if b[k].kind == "帅" {
        redKingFound := true;
      }
      if b[k].kind == "将" {
        blackKingFound := true;
      }
      k := k + 1;
    }
    r := !redKingFound || !blackKingFound;
  }

  // ---------------------------------------------------------------- simulated move

  /**
   * The board after a simulated move: the first piece on the source cell is
   * moved to the target cell, and then, when the move records a capture, every
   * piece on the captured piece's cell is dropped.
   */
  function Simulate(b: Board, m: GameMove): (r: Board)
    ensures |r| <= |b|
    ensures m.capturedPiece.None? ==> |r| == |b|
    ensures m.capturedPiece.Some? ==> forall k :: 0 <= k < |r| ==> !At(r[k], m.capturedPiece.value.x, m.capturedPiece.value.y)
  {
    var moved := match FirstAt(b, m.fromX, m.fromY)
                 case None => b
                 case Some(i) => b[i := b[i].(x := m.toX, y := m.toY)];
    match m.capturedPiece
    case None => moved
    case Some(c) => DropSquare(moved, c.x, c.y)
  }

  /** Without a capture the simulated move keeps every piece and moves just the first one on the source. */
  lemma SimulateQuiet(b: Board, m: GameMove)
    requires m.capturedPiece.None?
    ensures |Simulate(b, m)| == |b|
    ensures FirstAt(b, m.fromX, m.fromY).None? ==> Simulate(b, m) == b
    ensures FirstAt(b, m.fromX, m.fromY).Some? ==>
      var i := FirstAt(b, m.fromX, m.fromY).value;
      At(Simulate(b, m)[i], m.toX, m.toY) && Simulate(b, m)[i].kind == b[i].kind && Simulate(b, m)[i].color == b[i].color
      && forall k :: 0 <= k < |b| && k != i ==> Simulate(b, m)[k] == b[k]
  {
  }

  /**
   * With a capture, nothing is left on the captured cell: when the target is
   * that cell (as for every generated move), the moving piece is dropped along
   * with the captured one.
   */
  lemma SimulateCaptureClearsSquare(b: Board, m: GameMove, k: nat)
    requires m.capturedPiece.Some?
    requires k < |Simulate(b, m)|
    ensures !At(Simulate(b, m)[k], m.capturedPiece.value.x, m.capturedPiece.value.y)
  {
  }

  /** A simulated capture of a lone general by a lone chariot leaves an empty board. */
  lemma SimulateCaptureExample()
    ensures Simulate([ChessPiece("车", RED, 4, 5), ChessPiece("将", BLACK, 4, 0)],
                     GameMove(4, 5, 4, 0, 0, "车", RED, Some(ChessPiece("将", BLACK, 4, 0)))) == []
  {
    var b := [ChessPiece("车", RED, 4, 5), ChessPiece("将", BLACK, 4, 0)];
    assert FirstAt(b, 4, 5) == Some(0);
    var moved := [ChessPiece("车", RED, 4, 0), ChessPiece("将", BLACK, 4, 0)];
    assert b[0 := b[0].(x := 4, y := 0)] == moved;
    assert moved[..1] == [ChessPiece("车", RED, 4, 0)];
    assert DropSquare(moved[..1], 4, 0) == [] by {
      assert moved[..1][..0] == [];
    }
  }

  /** The copy-and-apply step: a fresh array, the first piece on the source relocated, the captured cell filtered out. */
  method MakeMove(pieces: seq<ChessPiece>, move: GameMove) returns (r: seq<ChessPiece>)
    ensures r == Simulate(pieces, move)
  {
    var newPieces := CopyPieces(pieces);
    var movedPiece := FindOnArray(newPieces, move.fromX, move.fromY);
    if movedPiece.Some? {
      var m := movedPiece.value;
      newPieces[m] := newPieces[m].(x := move.toX, y := move.toY);
    }
    r := newPieces[..];
    if move.capturedPiece.Some? {
      var c := move.capturedPiece.value;
      r := DropOnArray(newPieces, c.x, c.y);
    }
  }

  /** A fresh array holding copies of the pieces, in order. */
  method CopyPieces(pieces: seq<ChessPiece>) returns (a: array<ChessPiece>)
    ensures fresh(a) && a[..] == pieces
  {
    a := new ChessPiece[|pieces|];
    var i := 0;
    while i < |pieces|
      invariant 0 <= i <= |pieces|
      invariant a[..i] == pieces[..i]
    {
      a[i] := pieces[i];
      i := i + 1;
    }
    assert a[..] == a[..|pieces|];
  }

  /** The first element of the array on (x, y), scanning in order and stopping at the first hit. */
  method FindOnArray(a: array<ChessPiece>, x: int, y: int) returns (r: Option<nat>)
    ensures r == FirstAt(a[..], x, y)
  {
    var k := 0;
    while k < a.Length
      invariant 0 <= k <= a.Length
      invariant forall j :: 0 <= j < k ==> !At(a[j], x, y)
    {
      if a[k].x == x && a[k].y == y {
        return Some(k);
      }
      k := k + 1;
    }
    return None;
  }

  /** The array's pieces except those on (x, y), in order. */
  method DropOnArray(a: array<ChessPiece>, x: int, y: int) returns (pieceList: seq<ChessPiece>)
    ensures pieceList == DropSquare(a[..], x, y)
  {
    pieceList := [];
    var j := 0;
    while j < a.Length
      invariant 0 <= j <= a.Length
      invariant pieceList == DropSquare(a[..j], x, y)
    {
      assert a[..j + 1][..j] == a[..j];
      if a[j].x == x && a[j].y == y {
        j := j + 1;
        continue;
      }
      pieceList := pieceList + [a[j]];
      j := j + 1;
    }
    assert a[..a.Length] == a[..];
  }

  // ---------------------------------------------------------------- move generation

  /** Some piece of the other side has a VALID full check onto the general's cell. */
  predicate KingAttacked(s: Search, b: Board, king: ChessPiece, playerColor: string) {
    exists j :: 0 <= j < |b| && b[j].color == Opponent(playerColor) && s.check(b[j].x, b[j].y, king.x, king.y) == Valid
  }

  method IsKingInCheck(s: Search, b: Board, king: ChessPiece, playerColor: string) returns (r: bool)
    ensures r <==> KingAttacked(s, b, king, playerColor)
  {
    var opponentColor := if playerColor == RED then BLACK else RED;
    var k := 0;
    while k < |b|
      invariant 0 <= k <= |b|
      invariant forall j :: 0 <= j < k ==> !(b[j].color == Opponent(playerColor) && s.check(b[j].x, b[j].y, king.x, king.y) == Valid)
    {
      if b[k].color == opponentColor {
        if s.check(b[k].x, b[k].y, king.x, king.y) == Valid {
          return true;
        }
      }
      k := k + 1;
    }
    return false;
  }

  /** A general's move goes through when it captures, when the general is attacked, or when the random draw allows it. */
  method IsNecessaryKingMove(s: Search, b: Board, king: ChessPiece, toX: int, toY: int, playerColor: string, roll: bool)
    returns (r: bool)
    ensures r <==> Occupied(b, toX, toY) || KingAttacked(s, b, king, playerColor) || roll
  {
    var target := GetPieceAt(b, toX, toY);
    if target.Some? {
      return true;
    }
    var isCurrentlyInCheck := IsKingInCheck(s, b, king, playerColor);
    if isCurrentlyInCheck {
      return true;
    }
    return roll;
  }

  /** Whether piece i's move to (x, y) is generated at node `path`. */
  predicate Admit(s: Search, b: Board, color: string, path: Path, i: nat, x: int, y: int)
    requires i < |b|
  {
    s.check(b[i].x, b[i].y, x, y) == Valid
    && (IsGeneral(b[i].kind) ==> Occupied(b, x, y) || KingAttacked(s, b, b[i], color) || s.kingRoll(path, i, x, y))
  }

  /** The record of piece i's move to (x, y): timestamp 0 and the first piece on the target as the captured piece. */
  function MoveFor(b: Board, i: nat, x: int, y: int): GameMove
    requires i < |b|
  {
    GameMove(b[i].x, b[i].y, x, y, 0, b[i].kind, b[i].color, PieceAt(b, x, y))
  }

  /** Piece i's generated moves in column x for rows 0..n-1. */
  function ColumnMoves(s: Search, b: Board, color: string, path: Path, i: nat, x: int, n: nat): seq<GameMove>
    requires i < |b| && n <= ROWS
  {
    if n == 0 then []
    else ColumnMoves(s, b, color, path, i, x, n - 1)
         + (if Admit(s, b, color, path, i, x, n - 1) then [MoveFor(b, i, x, n - 1)] else [])
  }

  /** Piece i's generated moves in columns 0..n-1. */
  function PieceMoves(s: Search, b: Board, color: string, path: Path, i: nat, n: nat): seq<GameMove>
    requires i < |b| && n <= COLS
  {
    if n == 0 then []
    else PieceMoves(s, b, color, path, i, n - 1) + ColumnMoves(s, b, color, path, i, n - 1, ROWS)
  }

  /** The generated moves of pieces 0..n-1, in array order. */
  function PiecesMoves(s: Search, b: Board, color: string, path: Path, n: nat): seq<GameMove>
    requires n <= |b|
  {
    if n == 0 then []
    else PiecesMoves(s, b, color, path, n - 1)
         + (if b[n - 1].color == color then PieceMoves(s, b, color, path, n - 1, COLS) else [])
  }

  function LegalMoves(s: Search, b: Board, color: string, path: Path): seq<GameMove> {
    PiecesMoves(s, b, color, path, |b|)
  }

  method GenerateLegalMoves(s: Search, pieces: Board, playerColor: string, path: Path) returns (legalMoves: seq<GameMove>)
    ensures legalMoves == LegalMoves(s, pieces, playerColor, path)
  {
    legalMoves := [];
    var i := 0;
    while i < |pieces|
      invariant 0 <= i <= |pieces|
      invariant legalMoves == PiecesMoves(s, pieces, playerColor, path, i)
    {
      var piece := pieces[i];
      if piece.color == playerColor {
        var own := PieceScan(s, pieces, playerColor, path, i);
        legalMoves := legalMoves + own;
      }
      i := i + 1;
    }
  }

  /** The moves of piece i, column by column. */
  method PieceScan(s: Search, pieces: Board, playerColor: string, path: Path, i: nat) returns (moves: seq<GameMove>)
    requires i < |pieces|
    ensures moves == PieceMoves(s, pieces, playerColor, path, i, COLS)
  {
    moves := [];
    var x := 0;
    while x < COLS
      invariant 0 <= x <= COLS
      invariant moves == PieceMoves(s, pieces, playerColor, path, i, x)
    {
      var column := ColumnScan(s, pieces, playerColor, path, i, x);
      moves := moves + column;
      x := x + 1;
    }
  }

  /** The moves of piece i into column x, row by row: full check, then the general's filter, then the record. */
  method ColumnScan(s: Search, pieces: Board, playerColor: string, path: Path, i: nat, x: int) returns (moves: seq<GameMove>)
    requires i < |pieces|
    ensures moves == ColumnMoves(s, pieces, playerColor, path, i, x, ROWS)
  {
    var piece := pieces[i];
    moves := [];
    var y := 0;
    while y < ROWS
      invariant 0 <= y <= ROWS
      invariant moves == ColumnMoves(s, pieces, playerColor, path, i, x, y)
    {
      if s.check(piece.x, piece.y, x, y) == Valid {
        var admit := true;
        if piece.kind == "将" || piece.kind == "帅" {
          admit := IsNecessaryKingMove(s, pieces, piece, x, y, playerColor, s.kingRoll(path, i, x, y));
        }
        if admit {
          var target := GetPieceAt(pieces, x, y);
          moves := moves + [GameMove(piece.x, piece.y, x, y, 0, piece.kind, piece.color, target)];
        }
      }
      y := y + 1;
    }
  }

  lemma {:induction false} ColumnMovesMembership(s: Search, b: Board, color: string, path: Path, i: nat, x: int, n: nat, m: GameMove)
    requires i < |b| && n <= ROWS
    ensures m in ColumnMoves(s, b, color, path, i, x, n) <==>
      exists y :: 0 <= y < n && Admit(s, b, color, path, i, x, y) && m == MoveFor(b, i, x, y)
  {
    if n > 0 {
      ColumnMovesMembership(s, b, color, path, i, x, n - 1, m);
    }
  }

  /** Every move of piece i's list comes from an admitted cell in columns 0..n-1. */
  lemma {:induction false} PieceMovesSound(s: Search, b: Board, color: string, path: Path, i: nat, n: nat, m: GameMove)
    requires i < |b| && n <= COLS && m in PieceMoves(s, b, color, path, i, n)
    ensures exists x, y :: 0 <= x < n && 0 <= y < ROWS && Admit(s, b, color, path, i, x, y) && m == MoveFor(b, i, x, y)
  {
    if m in PieceMoves(s, b, color, path, i, n - 1) {
      PieceMovesSound(s, b, color, path, i, n - 1, m);
    } else {
      ColumnMovesMembership(s, b, color, path, i, n - 1, ROWS, m);
      var y :| 0 <= y < ROWS && Admit(s, b, color, path, i, n - 1, y) && m == MoveFor(b, i, n - 1, y);
      assert 0 <= n - 1 < n;
    }
  }

  /** Every admitted cell in columns 0..n-1 contributes its move to piece i's list. */
  lemma {:induction false} PieceMovesComplete(s: Search, b: Board, color: string, path: Path, i: nat, n: nat, x: int, y: int)
    requires i < |b| && n <= COLS && 0 <= x < n && 0 <= y < ROWS && Admit(s, b, color, path, i, x, y)
    ensures MoveFor(b, i, x, y) in PieceMoves(s, b, color, path, i, n)
  {
    if x == n - 1 {
      ColumnMovesMembership(s, b, color, path, i, n - 1, ROWS, MoveFor(b, i, x, y));
    } else {
      PieceMovesComplete(s, b, color, path, i, n - 1, x, y);
    }
  }

  /** Every move generated for pieces 0..n-1 comes from one of them, of the side to move, and an admitted cell. */
  lemma {:induction false} PiecesMovesSound(s: Search, b: Board, color: string, path: Path, n: nat, m: GameMove)
    requires n <= |b| && m in PiecesMoves(s, b, color, path, n)
    ensures exists i, x, y :: 0 <= i < n && b[i].color == color && 0 <= x < COLS && 0 <= y < ROWS
                              && Admit(s, b, color, path, i, x, y) && m == MoveFor(b, i, x, y)
  {
    if m in PiecesMoves(s, b, color, path, n - 1) {
      PiecesMovesSound(s, b, color, path, n - 1, m);
    } else {
      OwnMoves(s, b, color, path, n, m);
      LastPieceSound(s, b, color, path, n, m);
    }
  }

  /** A move of piece n - 1, of the side to move, is one of the moves the n pieces may generate. */
  lemma LastPieceSound(s: Search, b: Board, color: string, path: Path, n: nat, m: GameMove)
    requires 0 < n <= |b| && b[n - 1].color == color && m in PieceMoves(s, b, color, path, n - 1, COLS)
    ensures exists i, x, y :: 0 <= i < n && b[i].color == color && 0 <= x < COLS && 0 <= y < ROWS
                              && Admit(s, b, color, path, i, x, y) && m == MoveFor(b, i, x, y)
  {
    PieceMovesSound(s, b, color, path, n - 1, COLS, m);
    var x, y :| 0 <= x < COLS && 0 <= y < ROWS && Admit(s, b, color, path, n - 1, x, y) && m == MoveFor(b, n - 1, x, y);
    assert 0 <= n - 1 < n;
  }

  /** A generated move not among the first n - 1 pieces' is one of piece n - 1's, which is of the side to move. */
  lemma OwnMoves(s: Search, b: Board, color: string, path: Path, n: nat, m: GameMove)
    requires 0 < n <= |b| && m in PiecesMoves(s, b, color, path, n) && m !in PiecesMoves(s, b, color, path, n - 1)
    ensures b[n - 1].color == color && m in PieceMoves(s, b, color, path, n - 1, COLS)
  {
  }

  /** Every admitted move of a piece of the side to move among 0..n-1 is generated. */
  lemma {:induction false} PiecesMovesComplete(s: Search, b: Board, color: string, path: Path, n: nat, i: nat, x: int, y: int)
    requires n <= |b| && i < n && b[i].color == color && 0 <= x < COLS && 0 <= y < ROWS && Admit(s, b, color, path, i, x, y)
    ensures MoveFor(b, i, x, y) in PiecesMoves(s, b, color, path, n)
  {
    if i == n - 1 {
      PieceMovesComplete(s, b, color, path, i, COLS, x, y);
    } else {
      PiecesMovesComplete(s, b, color, path, n - 1, i, x, y);
    }
  }

  /**
   * A move is generated exactly when it is the record of a move of a piece of the
   * side to move onto a board cell that the full check calls VALID and, for a
   * general, that captures, escapes an attack, or wins the random draw.
   */
  lemma LegalMovesMembership(s: Search, b: Board, color: string, path: Path, m: GameMove)
    ensures m in LegalMoves(s, b, color, path) <==>
      exists i, x, y :: 0 <= i < |b| && b[i].color == color && 0 <= x < COLS && 0 <= y < ROWS
                        && Admit(s, b, color, path, i, x, y) && m == MoveFor(b, i, x, y)
  {
    if m in LegalMoves(s, b, color, path) {
      PiecesMovesSound(s, b, color, path, |b|, m);
    }
    if exists i, x, y :: 0 <= i < |b| && b[i].color == color && 0 <= x < COLS && 0 <= y < ROWS
                         && Admit(s, b, color, path, i, x, y) && m == MoveFor(b, i, x, y) {
      var i, x, y :| 0 <= i < |b| && b[i].color == color && 0 <= x < COLS && 0 <= y < ROWS
                     && Admit(s, b, color, path, i, x, y) && m == MoveFor(b, i, x, y);
      PiecesMovesComplete(s, b, color, path, |b|, i, x, y);
    }
  }

  /** Every generated move is the side's own, lands on the board, passed the full check, and records the piece it takes. */
  lemma LegalMoveFacts(s: Search, b: Board, color: string, path: Path, m: GameMove)
    requires m in LegalMoves(s, b, color, path)
    ensures m.pieceColor == color && OnBoard(m.toX, m.toY) && m.timestamp == 0
    ensures s.check(m.fromX, m.fromY, m.toX, m.toY) == Valid
    ensures m.capturedPiece == PieceAt(b, m.toX, m.toY)
    ensures PieceAt(b, m.fromX, m.fromY).Some?
  {
    LegalMovesMembership(s, b, color, path, m);
    var i, x, y :| 0 <= i < |b| && b[i].color == color && 0 <= x < COLS && 0 <= y < ROWS
                   && Admit(s, b, color, path, i, x, y) && m == MoveFor(b, i, x, y);
    assert At(b[i], m.fromX, m.fromY);
  }

  // ---------------------------------------------------------------- move ordering

  predicate IsCapture(m: GameMove) {
    m.capturedPiece.Some?
  }

  function Captures(ms: seq<GameMove>): (r: seq<GameMove>)
    ensures forall k :: 0 <= k < |r| ==> IsCapture(r[k])
  {
    if |ms| == 0 then []
    else Captures(ms[..|ms| - 1]) + (if IsCapture(ms[|ms| - 1]) then [ms[|ms| - 1]] else [])
  }

  function Quiets(ms: seq<GameMove>): (r: seq<GameMove>)
    ensures forall k :: 0 <= k < |r| ==> !IsCapture(r[k])
  {
    if |ms| == 0 then []
    else Quiets(ms[..|ms| - 1]) + (if IsCapture(ms[|ms| - 1]) then [] else [ms[|ms| - 1]])
  }

  /** The result of the stable sort whose comparator puts captures first and calls all others equal. */
  function OrderMoves(ms: seq<GameMove>): (r: seq<GameMove>)
    ensures |r| == |ms|
  {
    FilterLength(ms);
    Captures(ms) + Quiets(ms)
  }

  lemma {:induction false} FilterAppend(a: seq<GameMove>, c: seq<GameMove>)
    ensures Captures(a + c) == Captures(a) + Captures(c)
    ensures Quiets(a + c) == Quiets(a) + Quiets(c)
    decreases |c|
  {
    if |c| == 0 {
      assert a + c == a;
    } else {
      assert (a + c)[..|a + c| - 1] == a + c[..|c| - 1];
      FilterAppend(a, c[..|c| - 1]);
    }
  }

  lemma {:induction false} FilterSplit(ms: seq<GameMove>)
    ensures multiset(Captures(ms)) + multiset(Quiets(ms)) == multiset(ms)
    decreases |ms|
  {
    if |ms| > 0 {
      FilterSplit(ms[..|ms| - 1]);
      assert ms == ms[..|ms| - 1] + [ms[|ms| - 1]];
    }
  }

  lemma {:induction false} AllCaptures(xs: seq<GameMove>)
    requires forall k :: 0 <= k < |xs| ==> IsCapture(xs[k])
    ensures Captures(xs) == xs && Quiets(xs) == []
    decreases |xs|
  {
    if |xs| > 0 {
      AllCaptures(xs[..|xs| - 1]);
      assert xs[..|xs| - 1] + [xs[|xs| - 1]] == xs;
    }
  }

  lemma {:induction false} AllQuiets(xs: seq<GameMove>)
    requires forall k :: 0 <= k < |xs| ==> !IsCapture(xs[k])
    ensures Quiets(xs) == xs && Captures(xs) == []
    decreases |xs|
  {
    if |xs| > 0 {
      AllQuiets(xs[..|xs| - 1]);
      assert xs[..|xs| - 1] + [xs[|xs| - 1]] == xs;
    }
  }

  /** Every move is either a capture or not: the two filters together are as long as the list. */
  lemma {:induction false} FilterLength(ms: seq<GameMove>)
    ensures |Captures(ms)| + |Quiets(ms)| == |ms|
    decreases |ms|
  {
    if |ms| > 0 {
      FilterLength(ms[..|ms| - 1]);
    }
  }

  /** The ordering is a permutation of the generated moves. */
  lemma OrderMovesPermutation(ms: seq<GameMove>)
    ensures multiset(OrderMoves(ms)) == multiset(ms)
  {
    FilterSplit(ms);
  }

  /** Every capture comes before every non-capture. */
  lemma OrderMovesCapturesFirst(ms: seq<GameMove>)
    ensures forall i, j :: 0 <= i < j < |OrderMoves(ms)| && IsCapture(OrderMoves(ms)[j]) ==> IsCapture(OrderMoves(ms)[i])
  {
  }

  /** Within captures and within non-captures the original order is kept (the sort is stable). */
  lemma OrderMovesStable(ms: seq<GameMove>)
    ensures Captures(OrderMoves(ms)) == Captures(ms)
    ensures Quiets(OrderMoves(ms)) == Quiets(ms)
  {
    FilterAppend(Captures(ms), Quiets(ms));
    AllCaptures(Captures(ms));
    AllQuiets(Quiets(ms));
  }
}
