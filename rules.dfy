/** The movement rules of the component as predicates over coordinates, in three layers:
    the shape of a move (ShapeValid), whether a colour is in check (InCheck, built on
    ShapeValid), and whether a move is legal (Legal = ShapeValid and not in check after it). */
module Rules {
  import opened ChessBoard

  function Abs(x: int): nat {
    if x < 0 then -x else x
  }

  function Max(x: int, y: int): int {
    if x < y then y else x
  }

  // ---------------------------------------------------------------- pawns, knights, kings

  /** White pawns move toward row 0, black pawns toward row 7. */
  function PawnDirection(c: Color): int {
    if c == White then -1 else 1
  }

  function PawnHomeRow(c: Color): int {
    if c == White then 6 else 1
  }

  /** One step forward onto an empty square; two steps from the home row over two empty
      squares; or one diagonal step forward onto a piece of the other colour. */
  predicate PawnShape(b: Board, sr: int, sc: int, er: int, ec: int, c: Color)
    requires InBounds(sr, sc) && InBounds(er, ec)
  {
    var d := PawnDirection(c);
    (sc == ec && sr + d == er && At(b, er, ec).Empty?) ||
    (sr == PawnHomeRow(c) && sc == ec && sr + 2 * d == er && At(b, er, ec).Empty? &&
     At(b, sr + d, sc).Empty?) ||
    (Abs(sc - ec) == 1 && sr + d == er && At(b, er, ec).Occupied? &&
     At(b, er, ec).piece.color != c)
  }

  predicate KnightShape(sr: int, sc: int, er: int, ec: int) {
    (Abs(er - sr) == 2 && Abs(ec - sc) == 1) || (Abs(er - sr) == 1 && Abs(ec - sc) == 2)
  }

  predicate KingShape(sr: int, sc: int, er: int, ec: int) {
    Abs(er - sr) <= 1 && Abs(ec - sc) <= 1
  }

  // ---------------------------------------------------------------- sliding pieces

  /** The step a rook or queen walk takes along one axis. */
  function Dir(s: int, e: int): int {
    if e == s then 0 else if e > s then 1 else -1
  }

  /** The step the bishop walk takes along one axis: never 0. */
  function DiagonalDir(s: int, e: int): int {
    if e > s then 1 else -1
  }

  /** The coordinate k steps from s in direction d. */
  function Along(s: int, d: int, k: int): int {
    if d == 0 then s else if d > 0 then s + k else s - k
  }

  predicate IsStep(d: int) {
    d == -1 || d == 0 || d == 1
  }

  /** The squares 1 .. n-1 steps from (sr, sc) in direction (dr, dc), that is the squares
      strictly between the start and the square n steps away, are all empty. */
  ghost predicate PathClear(b: Board, sr: int, sc: int, dr: int, dc: int, n: nat)
    requires IsStep(dr) && IsStep(dc)
    requires InBounds(sr, sc) && InBounds(Along(sr, dr, n), Along(sc, dc, n))
  {
    forall k :: 0 < k < n ==> At(b, Along(sr, dr, k), Along(sc, dc, k)).Empty?
  }

  predicate Orthogonal(sr: int, sc: int, er: int, ec: int) {
    Abs(er - sr) == 0 || Abs(ec - sc) == 0
  }

  predicate Diagonal(sr: int, sc: int, er: int, ec: int) {
    Abs(er - sr) == Abs(ec - sc)
  }

  ghost predicate RookShape(b: Board, sr: int, sc: int, er: int, ec: int)
    requires InBounds(sr, sc) && InBounds(er, ec)
  {
    Orthogonal(sr, sc, er, ec) &&
    PathClear(b, sr, sc, Dir(sr, er), Dir(sc, ec), Max(Abs(er - sr), Abs(ec - sc)))
  }

  ghost predicate BishopShape(b: Board, sr: int, sc: int, er: int, ec: int)
    requires InBounds(sr, sc) && InBounds(er, ec)
  {
    Diagonal(sr, sc, er, ec) &&
    PathClear(b, sr, sc, DiagonalDir(sr, er), DiagonalDir(sc, ec), Abs(er - sr))
  }

  ghost predicate QueenShape(b: Board, sr: int, sc: int, er: int, ec: int)
    requires InBounds(sr, sc) && InBounds(er, ec)
  {
    (Orthogonal(sr, sc, er, ec) || Diagonal(sr, sc, er, ec)) &&
    PathClear(b, sr, sc, Dir(sr, er), Dir(sc, ec), Max(Abs(er - sr), Abs(ec - sc)))
  }

  ghost predicate Shape(b: Board, sr: int, sc: int, er: int, ec: int, p: Piece)
    requires InBounds(sr, sc) && InBounds(er, ec)
  {
    match p.kind
    case Pawn => PawnShape(b, sr, sc, er, ec, p.color)
    case Rook => RookShape(b, sr, sc, er, ec)
    case Knight => KnightShape(sr, sc, er, ec)
    case Bishop => BishopShape(b, sr, sc, er, ec)
    case Queen => QueenShape(b, sr, sc, er, ec)
    case King => KingShape(sr, sc, er, ec)
  }

  /** Layer 1: the move validator with king safety off. The destination is on the board,
      does not hold a piece of the mover's colour, and the move fits the piece's shape. */
  ghost predicate ShapeValid(b: Board, sr: int, sc: int, er: int, ec: int, p: Piece)
    requires InBounds(sr, sc)
  {
    InBounds(er, ec) && !HasColor(At(b, er, ec), p.color) && Shape(b, sr, sc, er, ec, p)
  }

  // ---------------------------------------------------------------- check

  predicate IsKingOf(s: Square, c: Color) {
    s.Occupied? && s.piece.kind == King && s.piece.color == c
  }

  /** (i, j) comes before (i2, j2) in a row-by-row scan. */
  predicate Before(i: int, j: int, i2: int, j2: int) {
    i < i2 || (i == i2 && j < j2)
  }

  /** (kr, kc) holds the first king of colour c met scanning row by row. */
  ghost predicate FirstKing(b: Board, c: Color, kr: int, kc: int) {
    InBounds(kr, kc) && IsKingOf(At(b, kr, kc), c) &&
    forall i, j :: InBounds(i, j) && Before(i, j, kr, kc) ==> !IsKingOf(At(b, i, j), c)
  }

  ghost predicate HasKing(b: Board, c: Color) {
    exists i, j :: InBounds(i, j) && IsKingOf(At(b, i, j), c)
  }

  /** The piece on (i, j) belongs to the other colour and reaches (kr, kc) by its shape. */
  ghost predicate Attacks(b: Board, i: int, j: int, kr: int, kc: int, c: Color)
    requires InBounds(i, j)
  {
    HasColor(At(b, i, j), Opponent(c)) && ShapeValid(b, i, j, kr, kc, At(b, i, j).piece)
  }

  ghost predicate Attacked(b: Board, kr: int, kc: int, c: Color) {
    exists i, j :: InBounds(i, j) && Attacks(b, i, j, kr, kc, c)
  }

  /** Layer 2: the first king of colour c is attacked; false when c has no king. */
  ghost predicate InCheck(b: Board, c: Color) {
    exists kr, kc :: FirstKing(b, c, kr, kc) && Attacked(b, kr, kc, c)
  }

  /** Layer 3: the move fits its shape and leaves no king of the mover's colour in check on
      the board where the piece has been moved. */
  ghost predicate Legal(b: Board, sr: int, sc: int, er: int, ec: int, p: Piece)
    requires InBounds(sr, sc)
  {
    ShapeValid(b, sr, sc, er, ec, p) && !InCheck(Relocate(b, sr, sc, er, ec), p.color)
  }

  /** `isValidMove(sr, sc, er, ec, p, b, ignoreKingCheck)`. */
  ghost predicate ValidMove(b: Board, sr: int, sc: int, er: int, ec: int, p: Piece,
                            ignoreKingCheck: bool)
    requires InBounds(sr, sc)
  {
    if ignoreKingCheck then ShapeValid(b, sr, sc, er, ec, p) else Legal(b, sr, sc, er, ec, p)
  }

  // ---------------------------------------------------------------- lemmas

  /** A square strictly inside the segment from (sr, sc) to (er, ec), for a segment along a
      row, a column or an exact diagonal. */
  predicate StrictlyBetween(x: int, a: int, b: int) {
    (a < x < b) || (b < x < a)
  }

  predicate Inside(sr: int, sc: int, er: int, ec: int, r: int, c: int) {
    if sr == er then r == sr && StrictlyBetween(c, sc, ec)
    else if sc == ec then c == sc && StrictlyBetween(r, sr, er)
    else StrictlyBetween(r, sr, er) && StrictlyBetween(c, sc, ec) && Abs(r - sr) == Abs(c - sc)
  }

  /** The walk of a sliding piece inspects exactly the squares strictly inside the segment
      to its destination. */
  lemma PathClearIffInsideEmpty(b: Board, sr: int, sc: int, er: int, ec: int)
    requires InBounds(sr, sc) && InBounds(er, ec)
    requires Orthogonal(sr, sc, er, ec) || Diagonal(sr, sc, er, ec)
    ensures PathClear(b, sr, sc, Dir(sr, er), Dir(sc, ec), Max(Abs(er - sr), Abs(ec - sc))) <==>
              forall r, c :: InBounds(r, c) && Inside(sr, sc, er, ec, r, c) ==> At(b, r, c).Empty?
  {
    var dr, dc, n := Dir(sr, er), Dir(sc, ec), Max(Abs(er - sr), Abs(ec - sc));
    if PathClear(b, sr, sc, dr, dc, n) {
      forall r, c | InBounds(r, c) && Inside(sr, sc, er, ec, r, c)
        ensures At(b, r, c).Empty?
      {
        var k := if sr == er then Abs(c - sc) else Abs(r - sr);
        assert 0 < k < n && Along(sr, dr, k) == r && Along(sc, dc, k) == c;
      }
    }
    if forall r, c :: InBounds(r, c) && Inside(sr, sc, er, ec, r, c) ==> At(b, r, c).Empty? {
      forall k | 0 < k < n
        ensures At(b, Along(sr, dr, k), Along(sc, dc, k)).Empty?
      {
        assert Inside(sr, sc, er, ec, Along(sr, dr, k), Along(sc, dc, k));
      }
    }
  }

  /** Knights, kings and pawns, before king safety. */
  lemma LeaperRules(b: Board, sr: int, sc: int, er: int, ec: int, p: Piece)
    requires InBounds(sr, sc)
    ensures p.kind == Knight ==>
      (ShapeValid(b, sr, sc, er, ec, p) <==>
         InBounds(er, ec) && !HasColor(At(b, er, ec), p.color) &&
         ((Abs(er - sr), Abs(ec - sc)) == (1, 2) || (Abs(er - sr), Abs(ec - sc)) == (2, 1)))
    ensures p.kind == King ==>
      (ShapeValid(b, sr, sc, er, ec, p) <==>
         InBounds(er, ec) && !HasColor(At(b, er, ec), p.color) &&
         Abs(er - sr) <= 1 && Abs(ec - sc) <= 1)
    ensures p.kind == Pawn ==>
      (ShapeValid(b, sr, sc, er, ec, p) <==>
         InBounds(er, ec) &&
         var forward := if p.color == White then sr - er else er - sr;
         ((forward == 1 && ec == sc && At(b, er, ec).Empty?) ||
          (forward == 2 && ec == sc && sr == (if p.color == White then 6 else 1) &&
           At(b, er, ec).Empty? && At(b, (sr + er) / 2, sc).Empty?) ||
          (forward == 1 && Abs(ec - sc) == 1 && HasColor(At(b, er, ec), Opponent(p.color)))))
  {
    if p.kind == Pawn && InBounds(er, ec) {
      var forward := if p.color == White then sr - er else er - sr;
      if forward == 2 && sr == (if p.color == White then 6 else 1) {
        assert (sr + er) / 2 == sr + PawnDirection(p.color);
      }
    }
  }

  /** A move along a diagonal goes the same way whether stepped as a bishop or as a queen. */
  lemma DiagonalDirAgrees(sr: int, sc: int, er: int, ec: int)
    requires Diagonal(sr, sc, er, ec) && sr != er
    ensures DiagonalDir(sr, er) == Dir(sr, er) && DiagonalDir(sc, ec) == Dir(sc, ec)
  {
  }

  /** Rooks, bishops and queens, before king safety: the destination lies on a row or column
      (rook), on a diagonal (bishop) or on either (queen), and every square strictly between
      start and destination is empty. */
  lemma SliderRules(b: Board, sr: int, sc: int, er: int, ec: int, p: Piece)
    requires InBounds(sr, sc)
    requires p.kind == Rook || p.kind == Bishop || p.kind == Queen
    ensures ShapeValid(b, sr, sc, er, ec, p) <==>
      InBounds(er, ec) && !HasColor(At(b, er, ec), p.color) &&
      (if p.kind == Rook then Orthogonal(sr, sc, er, ec)
       else if p.kind == Bishop then Diagonal(sr, sc, er, ec)
       else Orthogonal(sr, sc, er, ec) || Diagonal(sr, sc, er, ec)) &&
      forall r, c :: InBounds(r, c) && Inside(sr, sc, er, ec, r, c) ==> At(b, r, c).Empty?
  {
    if InBounds(er, ec) {
      if p.kind == Bishop && Diagonal(sr, sc, er, ec) {
        if sr != er {
          DiagonalDirAgrees(sr, sc, er, ec);
          PathClearIffInsideEmpty(b, sr, sc, er, ec);
        }
      } else if Orthogonal(sr, sc, er, ec) || Diagonal(sr, sc, er, ec) {
        PathClearIffInsideEmpty(b, sr, sc, er, ec);
      }
    }
  }

  /** At most one square holds the first king of a colour. */
  lemma FirstKingUnique(b: Board, c: Color, r1: int, c1: int, r2: int, c2: int)
    requires FirstKing(b, c, r1, c1) && FirstKing(b, c, r2, c2)
    ensures r1 == r2 && c1 == c2
  {
  }

  lemma {:induction false} FirstKingFrom(b: Board, c: Color, i: int, j: int)
    requires InBounds(i, j)
    requires forall i', j' :: InBounds(i', j') && Before(i', j', i, j) ==> !IsKingOf(At(b, i', j'), c)
    requires exists i', j' :: InBounds(i', j') && !Before(i', j', i, j) && IsKingOf(At(b, i', j'), c)
    ensures exists kr, kc :: FirstKing(b, c, kr, kc)
    decreases 8 - i, 8 - j
  {
    if IsKingOf(At(b, i, j), c) {
      assert FirstKing(b, c, i, j);
    } else if j < 7 {
      FirstKingFrom(b, c, i, j + 1);
    } else if i < 7 {
      FirstKingFrom(b, c, i + 1, 0);
    } else {
      assert false;
    }
  }

  /** A colour that has a king has a first king. */
  lemma FirstKingExists(b: Board, c: Color)
    requires HasKing(b, c)
    ensures exists kr, kc :: FirstKing(b, c, kr, kc)
  {
    FirstKingFrom(b, c, 0, 0);
  }

  /** A colour without a king is never in check; a colour with one is in check exactly when
      its first king's square is reached by some piece of the other colour. */
  lemma InCheckIff(b: Board, c: Color)
    ensures !HasKing(b, c) ==> !InCheck(b, c)
    ensures HasKing(b, c) ==>
      (exists kr, kc :: FirstKing(b, c, kr, kc) &&
         (InCheck(b, c) <==>
            exists i, j :: InBounds(i, j) && HasColor(At(b, i, j), Opponent(c)) &&
                           ShapeValid(b, i, j, kr, kc, At(b, i, j).piece)))
  {
    if HasKing(b, c) {
      FirstKingExists(b, c);
      var kr, kc :| FirstKing(b, c, kr, kc);
      forall r, k | FirstKing(b, c, r, k) ensures r == kr && k == kc {
        FirstKingUnique(b, c, r, k, kr, kc);
      }
    }
  }
}
