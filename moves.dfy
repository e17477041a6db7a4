/** Move enumeration: the destinations of one piece (`getValidMoves`), every (start, end)
    pair of a colour (the collection loop of `computerMove`) and whether a colour has any
    move at all (the loop of `checkGameStatus`). Each is a ghost specification built from
    Rules.Legal, a lemma saying what it contains, and the loop that computes it. */
module Moves {
  import opened ChessBoard
  import opened Rules
  import opened Validator

  // ---------------------------------------------------------------- one piece

  /** Legal destinations (i, 0) .. (i, j-1) for piece p standing on (sr, sc), left to right. */
  ghost function RowTargets(b: Board, sr: int, sc: int, p: Piece, i: int, j: int): seq<Coord>
    requires InBounds(sr, sc) && 0 <= j <= 8
  {
    if j == 0 then []
    else RowTargets(b, sr, sc, p, i, j - 1) +
         (if Legal(b, sr, sc, i, j - 1, p) then [Coord(i, j - 1)] else [])
  }

  /** Legal destinations in rows 0 .. i-1, row by row. */
  ghost function Targets(b: Board, sr: int, sc: int, p: Piece, i: int): seq<Coord>
    requires InBounds(sr, sc) && 0 <= i <= 8
  {
    if i == 0 then [] else Targets(b, sr, sc, p, i - 1) + RowTargets(b, sr, sc, p, i - 1, 8)
  }

  /** What `getValidMoves(row, col, board)` returns. (|b| is the board's size, 8; written
      this way so that the verifier does not unfold all 64 squares on every use.) */
  ghost function ValidMoves(b: Board, row: int, col: int): seq<Coord>
    requires InBounds(row, col)
  {
    if At(b, row, col).Empty? then [] else Targets(b, row, col, At(b, row, col).piece, |b|)
  }

  predicate CoordBefore(x: Coord, y: Coord) {
    Before(x.row, x.col, y.row, y.col)
  }

  /** Strictly increasing in row-major order, hence without duplicates. */
  predicate RowMajorSorted(s: seq<Coord>) {
    forall x, y :: 0 <= x < y < |s| ==> CoordBefore(s[x], s[y])
  }

  lemma {:induction false} RowTargetsSpec(b: Board, sr: int, sc: int, p: Piece, i: int, j: int)
    requires InBounds(sr, sc) && 0 <= j <= 8
    ensures forall x :: x in RowTargets(b, sr, sc, p, i, j) <==>
              x.row == i && 0 <= x.col < j && Legal(b, sr, sc, x.row, x.col, p)
    ensures RowMajorSorted(RowTargets(b, sr, sc, p, i, j))
  {
    if j > 0 {
      RowTargetsSpec(b, sr, sc, p, i, j - 1);
    }
  }

  lemma {:induction false} TargetsSpec(b: Board, sr: int, sc: int, p: Piece, i: int)
    requires InBounds(sr, sc) && 0 <= i <= 8
    ensures forall x :: x in Targets(b, sr, sc, p, i) <==>
              0 <= x.row < i && 0 <= x.col < 8 && Legal(b, sr, sc, x.row, x.col, p)
    ensures RowMajorSorted(Targets(b, sr, sc, p, i))
  {
    if i > 0 {
      TargetsSpec(b, sr, sc, p, i - 1);
      RowTargetsSpec(b, sr, sc, p, i - 1, 8);
      var front, back := Targets(b, sr, sc, p, i - 1), RowTargets(b, sr, sc, p, i - 1, 8);
      forall x, y | 0 <= x < y < |front + back|
        ensures CoordBefore((front + back)[x], (front + back)[y])
      {
        if y < |front| {
        } else if x < |front| {
          assert front[x] in front && back[y - |front|] in back;
        } else {
          assert (front + back)[x] == back[x - |front|] && (front + back)[y] == back[y - |front|];
        }
      }
    }
  }

  /** An empty square has no moves; otherwise the list holds exactly the legal destinations
      of the piece standing there, in row-major order and without duplicates. The start
      square itself is never among them. */
  lemma ValidMovesSpec(b: Board, row: int, col: int)
    requires InBounds(row, col)
    ensures At(b, row, col).Empty? ==> ValidMoves(b, row, col) == []
    ensures forall x :: x in ValidMoves(b, row, col) <==>
              At(b, row, col).Occupied? && InBounds(x.row, x.col) &&
              Legal(b, row, col, x.row, x.col, At(b, row, col).piece)
    ensures RowMajorSorted(ValidMoves(b, row, col))
    ensures Coord(row, col) !in ValidMoves(b, row, col)
  {
    if At(b, row, col).Occupied? {
      TargetsSpec(b, row, col, At(b, row, col).piece, |b|);
    }
  }

  /** `getValidMoves(row, col, board)`: every destination tried in row-major order through the
      king-safe validator. */
  method GetValidMoves(row: int, col: int, b: Board) returns (moves: seq<Coord>)
    requires InBounds(row, col)
    ensures moves == ValidMoves(b, row, col)
  {
    var square := b[row][col];
    if square.Empty? {
      return [];
    }
    var piece := square.piece;
    moves := [];
    var i := 0;
    while i < 8
      invariant 0 <= i <= 8
      invariant moves == Targets(b, row, col, piece, i)
    {
      var j := 0;
      while j < 8
        invariant 0 <= j <= 8
        invariant moves == Targets(b, row, col, piece, i) + RowTargets(b, row, col, piece, i, j)
      {
        var ok := IsValidMove(row, col, i, j, piece, b, false);
        if ok {
          moves := moves + [Coord(i, j)];
        }
        j := j + 1;
      }
      i := i + 1;
    }
  }

  // ---------------------------------------------------------------- every piece of a colour

  /** A (start, end) pair as the computer collects them. */
  datatype Candidate = Candidate(start: Coord, end: Coord)

  function Pairs(start: Coord, dests: seq<Coord>): (r: seq<Candidate>)
    ensures |r| == |dests|
    ensures forall k :: 0 <= k < |r| ==> r[k] == Candidate(start, dests[k])
  {
    seq(|dests|, k requires 0 <= k < |dests| => Candidate(start, dests[k]))
  }

  ghost function SquareCandidates(b: Board, c: Color, i: int, j: int): seq<Candidate>
    requires InBounds(i, j)
  {
    if HasColor(At(b, i, j), c) then Pairs(Coord(i, j), ValidMoves(b, i, j)) else []
  }

  ghost function RowCandidates(b: Board, c: Color, i: int, j: int): seq<Candidate>
    requires 0 <= i < 8 && 0 <= j <= 8
  {
    if j == 0 then [] else RowCandidates(b, c, i, j - 1) + SquareCandidates(b, c, i, j - 1)
  }

  ghost function CandidatesUpTo(b: Board, c: Color, i: int): seq<Candidate>
    requires 0 <= i <= 8
  {
    if i == 0 then [] else CandidatesUpTo(b, c, i - 1) + RowCandidates(b, c, i - 1, 8)
  }

  /** Every (start, end) pair of colour c, starts in row-major order, each start's
      destinations in the order `getValidMoves` lists them. */
  ghost function AllMoves(b: Board, c: Color): seq<Candidate> {
    CandidatesUpTo(b, c, |b|)
  }

  /** (start, end) is a legal move of a piece of colour c standing on start. */
  ghost predicate LegalMoveOf(b: Board, c: Color, m: Candidate) {
    InBounds(m.start.row, m.start.col) && HasColor(At(b, m.start.row, m.start.col), c) &&
    InBounds(m.end.row, m.end.col) &&
    Legal(b, m.start.row, m.start.col, m.end.row, m.end.col, At(b, m.start.row, m.start.col).piece)
  }

  lemma PairsMembers(start: Coord, dests: seq<Coord>)
    ensures forall m :: m in Pairs(start, dests) <==> m.start == start && m.end in dests
  {
    var r := Pairs(start, dests);
    forall m: Candidate | m.start == start && m.end in dests
      ensures m in r
    {
      var k :| 0 <= k < |dests| && dests[k] == m.end;
      assert r[k] == m;
    }
  }

  lemma SquareCandidatesSpec(b: Board, c: Color, i: int, j: int)
    requires InBounds(i, j)
    ensures forall m :: m in SquareCandidates(b, c, i, j) <==>
              m.start == Coord(i, j) && LegalMoveOf(b, c, m)
  {
    ValidMovesSpec(b, i, j);
    PairsMembers(Coord(i, j), ValidMoves(b, i, j));
  }

  lemma {:induction false} RowCandidatesSpec(b: Board, c: Color, i: int, j: int)
    requires 0 <= i < 8 && 0 <= j <= 8
    ensures forall m :: m in RowCandidates(b, c, i, j) <==>
              m.start.row == i && 0 <= m.start.col < j && LegalMoveOf(b, c, m)
  {
    if j > 0 {
      RowCandidatesSpec(b, c, i, j - 1);
      SquareCandidatesSpec(b, c, i, j - 1);
    }
  }

  lemma {:induction false} CandidatesUpToSpec(b: Board, c: Color, i: int)
    requires 0 <= i <= 8
    ensures forall m :: m in CandidatesUpTo(b, c, i) <==>
              0 <= m.start.row < i && LegalMoveOf(b, c, m)
  {
    if i > 0 {
      CandidatesUpToSpec(b, c, i - 1);
      RowCandidatesSpec(b, c, i - 1, 8);
    }
  }

  /** The computer's list holds exactly the legal moves of colour c: only starts holding a
      piece of c, and for each only destinations `getValidMoves` approves. */
  lemma AllMovesSpec(b: Board, c: Color)
    ensures forall m :: m in AllMoves(b, c) <==> LegalMoveOf(b, c, m)
  {
    CandidatesUpToSpec(b, c, |b|);
  }

  /** `moves.forEach(move => allMoves.push({ start, end: move }))`. */
  method PushPairs(allMoves: seq<Candidate>, start: Coord, moves: seq<Coord>)
    returns (r: seq<Candidate>)
    ensures r == allMoves + Pairs(start, moves)
  {
    r := allMoves;
    var k := 0;
    while k < |moves|
      invariant 0 <= k <= |moves|
      invariant r == allMoves + Pairs(start, moves[..k])
    {
      assert Pairs(start, moves[..k + 1]) == Pairs(start, moves[..k]) + [Candidate(start, moves[k])];
      r := r + [Candidate(start, moves[k])];
      k := k + 1;
    }
    assert moves[..k] == moves;
  }

  /** One row of the collection loop of `computerMove`: for every square of row i holding a
      piece of colour c, one pair per destination of `getValidMoves`. */
  method CollectRow(b: Board, c: Color, i: int) returns (row: seq<Candidate>)
    requires 0 <= i < 8
    ensures row == RowCandidates(b, c, i, 8)
  {
    row := [];
    var j := 0;
    while j < 8
      invariant 0 <= j <= 8
      invariant row == RowCandidates(b, c, i, j)
    {
      if HasColor(b[i][j], c) {
        var moves := GetValidMoves(i, j, b);
        row := PushPairs(row, Coord(i, j), moves);
      }
      j := j + 1;
    }
  }

  /** The collection loop of `computerMove`, row by row; the rows' pairs are pushed onto one
      list in the order the nested loops visit them. */
  method CollectMoves(b: Board, c: Color) returns (allMoves: seq<Candidate>)
    ensures allMoves == AllMoves(b, c)
  {
    allMoves := [];
    var i := 0;
    while i < 8
      invariant 0 <= i <= 8
      invariant allMoves == CandidatesUpTo(b, c, i)
    {
      var row := CollectRow(b, c, i);
      allMoves := allMoves + row;
      i := i + 1;
    }
  }

  /** Some piece of colour c has a non-empty `getValidMoves` list. */
  ghost predicate HasAnyMove(b: Board, c: Color) {
    exists i, j :: InBounds(i, j) && HasColor(At(b, i, j), c) && ValidMoves(b, i, j) != []
  }

  lemma HasAnyMoveIffLegal(b: Board, c: Color)
    ensures HasAnyMove(b, c) <==> exists m :: LegalMoveOf(b, c, m)
  {
    if HasAnyMove(b, c) {
      var i, j :| InBounds(i, j) && HasColor(At(b, i, j), c) && ValidMoves(b, i, j) != [];
      ValidMovesSpec(b, i, j);
      assert ValidMoves(b, i, j)[0] in ValidMoves(b, i, j);
      assert LegalMoveOf(b, c, Candidate(Coord(i, j), ValidMoves(b, i, j)[0]));
    }
    if exists m :: LegalMoveOf(b, c, m) {
      var m :| LegalMoveOf(b, c, m);
      ValidMovesSpec(b, m.start.row, m.start.col);
      assert m.end in ValidMoves(b, m.start.row, m.start.col);
    }
  }

  /** Colour c has a move exactly when the computer's list for c is non-empty, exactly when
      some piece of c has a legal move. */
  lemma HasAnyMoveSpec(b: Board, c: Color)
    ensures HasAnyMove(b, c) <==> AllMoves(b, c) != []
    ensures HasAnyMove(b, c) <==> exists m :: LegalMoveOf(b, c, m)
  {
    HasAnyMoveIffLegal(b, c);
    AllMovesSpec(b, c);
    if AllMoves(b, c) != [] {
      assert LegalMoveOf(b, c, AllMoves(b, c)[0]);
    }
  }

  /** The scan of `checkGameStatus`: stop at the first piece of colour c whose move list is
      not empty. */
  method HasValidMoves(b: Board, c: Color) returns (hasValidMoves: bool)
    ensures hasValidMoves == HasAnyMove(b, c)
  {
    hasValidMoves := false;
    var i := 0;
    while i < 8
      invariant 0 <= i <= 8
      invariant !hasValidMoves ==> forall i', j' :: 0 <= i' < i && 0 <= j' < 8 ==>
                  !(HasColor(b[i'][j'], c) && ValidMoves(b, i', j') != [])
      invariant hasValidMoves ==> HasAnyMove(b, c)
    {
      var j := 0;
      while j < 8
        invariant 0 <= j <= 8
        invariant !hasValidMoves ==> forall j' :: 0 <= j' < j ==>
                    !(HasColor(b[i][j'], c) && ValidMoves(b, i, j') != [])
        invariant hasValidMoves ==> HasAnyMove(b, c)
      {
        if HasColor(b[i][j], c) {
          var moves := GetValidMoves(i, j, b);
          if |moves| > 0 {
            hasValidMoves := true;
            break;
          }
        }
        j := j + 1;
      }
      if hasValidMoves {
        break;
      }
      i := i + 1;
    }
  }
}
