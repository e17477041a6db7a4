/** The component's move validator and check detector as the loops it runs, each proved to
    compute the corresponding predicate of module Rules. */
module Validator {
  import opened ChessBoard
  import opened Rules

  /** The rook and queen walk: step from the square after the start until the destination,
      and fail on the first occupied square. */
  method SlideClear(b: Board, sr: int, sc: int, er: int, ec: int) returns (clear: bool)
    requires InBounds(sr, sc) && InBounds(er, ec)
    requires Orthogonal(sr, sc, er, ec) || Diagonal(sr, sc, er, ec)
    ensures clear == PathClear(b, sr, sc, Dir(sr, er), Dir(sc, ec), Max(Abs(er - sr), Abs(ec - sc)))
  {
    var rowStep, colStep := Dir(sr, er), Dir(sc, ec);
    ghost var n := Max(Abs(er - sr), Abs(ec - sc));
    var currentRow, currentCol := sr + rowStep, sc + colStep;
    ghost var k := 1;
    clear := true;
    while currentRow != er || currentCol != ec
      invariant currentRow == Along(sr, rowStep, k) && currentCol == Along(sc, colStep, k)
      invariant n > 0 ==> 1 <= k <= n
      invariant n > 0 ==> (k == n <==> currentRow == er && currentCol == ec)
      invariant n == 0 ==> currentRow == er && currentCol == ec
      invariant forall m :: 0 < m < k ==> At(b, Along(sr, rowStep, m), Along(sc, colStep, m)).Empty?
      decreases n - k
    {
      if b[currentRow][currentCol].Occupied? {
        clear := false;
        break;
      }
      currentRow, currentCol := currentRow + rowStep, currentCol + colStep;
      k := k + 1;
    }
  }

  /** The bishop walk: like the rook walk, but it stops as soon as either coordinate
      reaches the destination's. */
  method DiagonalClear(b: Board, sr: int, sc: int, er: int, ec: int) returns (clear: bool)
    requires InBounds(sr, sc) && InBounds(er, ec)
    requires Diagonal(sr, sc, er, ec) && sr != er
    ensures clear == PathClear(b, sr, sc, DiagonalDir(sr, er), DiagonalDir(sc, ec), Abs(er - sr))
  {
    var rowStep, colStep := DiagonalDir(sr, er), DiagonalDir(sc, ec);
    ghost var n := Abs(er - sr);
    var currentRow, currentCol := sr + rowStep, sc + colStep;
    ghost var k := 1;
    clear := true;
    while currentRow != er && currentCol != ec
      invariant currentRow == Along(sr, rowStep, k) && currentCol == Along(sc, colStep, k)
      invariant 1 <= k <= n
      invariant k == n <==> currentRow == er
      invariant k == n <==> currentCol == ec
      invariant forall m :: 0 < m < k ==> At(b, Along(sr, rowStep, m), Along(sc, colStep, m)).Empty?
      decreases n - k
    {
      if b[currentRow][currentCol].Occupied? {
        clear := false;
        break;
      }
      currentRow, currentCol := currentRow + rowStep, currentCol + colStep;
      k := k + 1;
    }
  }

  /** `isValidMove(..., ignoreKingCheck = true)`: bounds, own colour, then the piece's shape. */
  method ShapeValidMove(sr: int, sc: int, er: int, ec: int, piece: Piece, b: Board)
    returns (valid: bool)
    requires InBounds(sr, sc) && At(b, sr, sc) == Occupied(piece)
    ensures valid == ShapeValid(b, sr, sc, er, ec, piece)
  {
    var rowDiff, colDiff := Abs(er - sr), Abs(ec - sc);
    if !InBounds(er, ec) {
      return false;
    }
    if HasColor(b[er][ec], piece.color) {
      return false;
    }
    valid := false;
    match piece.kind {
      case Pawn =>
        valid := PawnShape(b, sr, sc, er, ec, piece.color);
      case Rook =>
        if rowDiff == 0 || colDiff == 0 {
          valid := SlideClear(b, sr, sc, er, ec);
        }
      case Knight =>
        valid := KnightShape(sr, sc, er, ec);
      case Bishop =>
        if rowDiff == colDiff {
          valid := DiagonalClear(b, sr, sc, er, ec);
        }
      case Queen =>
        if rowDiff == 0 || colDiff == 0 || rowDiff == colDiff {
          valid := SlideClear(b, sr, sc, er, ec);
        }
      case King =>
        valid := KingShape(sr, sc, er, ec);
    }
  }

  /** The first loop of `isKingInCheck`: the first king of colour c, row by row. */
  method FindKing(b: Board, c: Color) returns (found: bool, kr: int, kc: int)
    ensures found ==> FirstKing(b, c, kr, kc)
    ensures !found ==> !HasKing(b, c)
  {
    found, kr, kc := false, -1, -1;
    var i := 0;
    while i < 8
      invariant 0 <= i <= 8
      invariant !found ==> forall i', j' :: 0 <= i' < i && 0 <= j' < 8 ==> !IsKingOf(b[i'][j'], c)
      invariant found ==> FirstKing(b, c, kr, kc)
    {
      var j := 0;
      while j < 8
        invariant 0 <= j <= 8
        invariant !found ==> forall j' :: 0 <= j' < j ==> !IsKingOf(b[i][j'], c)
        invariant found ==> FirstKing(b, c, kr, kc)
      {
        if IsKingOf(b[i][j], c) {
          found, kr, kc := true, i, j;
          break;
        }
        j := j + 1;
      }
      if found {
        break;
      }
      i := i + 1;
    }
  }

  /** The second loop of `isKingInCheck`: ask every piece of the other colour whether it
      reaches (kingRow, kingCol) with king safety off, and stop at the first that does. */
  method AnyAttacker(b: Board, kingRow: int, kingCol: int, color: Color) returns (hit: bool)
    ensures hit == Attacked(b, kingRow, kingCol, color)
  {
    var i := 0;
    while i < 8
      invariant 0 <= i <= 8
      invariant forall i', j' :: 0 <= i' < i && 0 <= j' < 8 ==>
                  !Attacks(b, i', j', kingRow, kingCol, color)
    {
      var j := 0;
      while j < 8
        invariant 0 <= j <= 8
        invariant forall j' :: 0 <= j' < j ==> !Attacks(b, i, j', kingRow, kingCol, color)
      {
        var piece := b[i][j];
        if piece.Occupied? && piece.piece.color != color {
          var reaches := ShapeValidMove(i, j, kingRow, kingCol, piece.piece, b);
          if reaches {
            assert Attacks(b, i, j, kingRow, kingCol, color);
            return true;
          }
        }
        j := j + 1;
      }
      i := i + 1;
    }
    return false;
  }

  /** `isKingInCheck(board, color)`: find the first king, then look for an attacker. */
  method IsKingInCheck(b: Board, color: Color) returns (inCheck: bool)
    ensures inCheck == InCheck(b, color)
  {
    var found, kingRow, kingCol := FindKing(b, color);
    if !found {
      return false;
    }
    inCheck := AnyAttacker(b, kingRow, kingCol, color);
    forall kr, kc | FirstKing(b, color, kr, kc)
      ensures kr == kingRow && kc == kingCol
    {
      FirstKingUnique(b, color, kr, kc, kingRow, kingCol);
    }
  }

  /** `isValidMove(sr, sc, er, ec, piece, b, ignoreKingCheck)`: the shape test and, unless
      king safety is off, a replay of the move on a copy of the board followed by a check
      test for the mover's colour. */
  method IsValidMove(sr: int, sc: int, er: int, ec: int, piece: Piece, b: Board,
                     ignoreKingCheck: bool) returns (valid: bool)
    requires InBounds(sr, sc) && At(b, sr, sc) == Occupied(piece)
    ensures valid == ValidMove(b, sr, sc, er, ec, piece, ignoreKingCheck)
  {
    valid := ShapeValidMove(sr, sc, er, ec, piece, b);
    if valid && !ignoreKingCheck {
      var newBoard := Relocate(b, sr, sc, er, ec);
      var inCheck := IsKingInCheck(newBoard, piece.color);
      if inCheck {
        valid := false;
      }
    }
  }
}
