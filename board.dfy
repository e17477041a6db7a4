/** The board of the chess component: an 8x8 grid of optional pieces.
    Row 0 is black's back rank, row 7 is white's; column 0 is the "a" file. */
module ChessBoard {

  datatype Option<T> = None | Some(value: T)

  datatype Color = White | Black

  datatype Kind = Pawn | Rook | Knight | Bishop | Queen | King

  datatype Piece = Piece(kind: Kind, color: Color)

  datatype Square = Empty | Occupied(piece: Piece)

  datatype Coord = Coord(row: int, col: int)

  /** A value kept once per colour, as the component keeps `{ w: ..., b: ... }`. */
  datatype PerColor<T> = PerColor(white: T, black: T) {
    function Get(c: Color): T {
      if c == White then white else black
    }

    function Set(c: Color, v: T): (r: PerColor<T>)
      ensures r.Get(c) == v
      ensures r.Get(Opponent(c)) == Get(Opponent(c))
    {
      if c == White then PerColor(v, black) else PerColor(white, v)
    }
  }

  function Opponent(c: Color): Color {
    if c == White then Black else White
  }

  predicate IsBoard(b: seq<seq<Square>>) {
    |b| == 8 && forall i :: 0 <= i < 8 ==> |b[i]| == 8
  }

  type Board = b: seq<seq<Square>> | IsBoard(b) witness seq(8, i => seq(8, j => Empty))

  predicate InBounds(r: int, c: int) {
    0 <= r < 8 && 0 <= c < 8
  }

  function At(b: Board, r: int, c: int): Square
    requires InBounds(r, c)
  {
    b[r][c]
  }

  /** `square?.color === c` in the component. */
  predicate HasColor(s: Square, c: Color) {
    s.Occupied? && s.piece.color == c
  }

  /** The board with one square replaced. */
  function Put(b: Board, r: int, c: int, s: Square): (b': Board)
    requires InBounds(r, c)
    ensures At(b', r, c) == s
    ensures forall i, j :: InBounds(i, j) && (i != r || j != c) ==> At(b', i, j) == At(b, i, j)
  {
    b[r := b[r][c := s]]
  }

  /** The board after a piece is lifted from (sr, sc) and set down on (er, ec): the end square
      receives what stood on the start square, then the start square is emptied. */
  function Relocate(b: Board, sr: int, sc: int, er: int, ec: int): (b': Board)
    requires InBounds(sr, sc) && InBounds(er, ec)
    ensures At(b', sr, sc) == Empty
    ensures (er != sr || ec != sc) ==> At(b', er, ec) == At(b, sr, sc)
    ensures forall i, j :: InBounds(i, j) && (i != sr || j != sc) && (i != er || j != ec) ==>
              At(b', i, j) == At(b, i, j)
  {
    Put(Put(b, er, ec, At(b, sr, sc)), sr, sc, Empty)
  }

  function BackRank(c: Color): seq<Square> {
    [Occupied(Piece(Rook, c)), Occupied(Piece(Knight, c)), Occupied(Piece(Bishop, c)),
     Occupied(Piece(Queen, c)), Occupied(Piece(King, c)), Occupied(Piece(Bishop, c)),
     Occupied(Piece(Knight, c)), Occupied(Piece(Rook, c))]
  }

  function PawnRank(c: Color): seq<Square> {
    seq(8, j => Occupied(Piece(Pawn, c)))
  }

  function EmptyRank(): seq<Square> {
    seq(8, j => Empty)
  }

  /** The standard starting position. */
  function InitialBoard(): Board {
    [BackRank(Black), PawnRank(Black), EmptyRank(), EmptyRank(),
     EmptyRank(), EmptyRank(), PawnRank(White), BackRank(White)]
  }

  /** The starting position: black on rows 0-1, white on rows 6-7, pawns on rows 1 and 6,
      the four middle rows empty, and each king alone on column 4 of its back rank. */
  lemma InitialBoardLayout()
    ensures forall r, c :: InBounds(r, c) ==>
      (At(InitialBoard(), r, c).Empty? <==> 2 <= r <= 5) &&
      (HasColor(At(InitialBoard(), r, c), Black) <==> r <= 1) &&
      (HasColor(At(InitialBoard(), r, c), White) <==> r >= 6) &&
      (At(InitialBoard(), r, c).Occupied? && At(InitialBoard(), r, c).piece.kind == Pawn <==>
         r == 1 || r == 6) &&
      (At(InitialBoard(), r, c).Occupied? && At(InitialBoard(), r, c).piece.kind == King <==>
         (r == 0 || r == 7) && c == 4)
  {
    forall r, c | InBounds(r, c)
      ensures (At(InitialBoard(), r, c).Empty? <==> 2 <= r <= 5) &&
        (HasColor(At(InitialBoard(), r, c), Black) <==> r <= 1) &&
        (HasColor(At(InitialBoard(), r, c), White) <==> r >= 6) &&
        (At(InitialBoard(), r, c).Occupied? && At(InitialBoard(), r, c).piece.kind == Pawn <==>
           r == 1 || r == 6) &&
        (At(InitialBoard(), r, c).Occupied? && At(InitialBoard(), r, c).piece.kind == King <==>
           (r == 0 || r == 7) && c == 4)
    {
      var b := InitialBoard();
      if r == 0 || r == 7 {
        var color := if r == 0 then Black else White;
        assert b[r] == BackRank(color);
        assert c == 0 || c == 1 || c == 2 || c == 3 || c == 4 || c == 5 || c == 6 || c == 7;
      }
    }
  }
}
