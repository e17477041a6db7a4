/** The component's state and its transitions as values: one record for all of the React
    state the rules read or write, and one function per event (a move, the status check
    that runs after each render, a click, the computer's move, a clock tick, a reset). The
    class in module Game performs these transitions in place. */
module GameModel {
  import opened ChessBoard
  import opened Rules
  import opened Moves

  datatype Status = Playing | Check | Checkmate | Stalemate

  /** One entry of the move history. */
  datatype Move = Move(from: Coord, to: Coord, piece: Piece, captured: Option<Piece>)

  /** Both clocks start at 30 minutes. */
  const StartTime: int := 1800

  datatype GameState = GameState(
    board: Board,
    selected: Option<Coord>,
    currentPlayer: Color,
    validMoves: seq<Coord>,
    capturedPieces: PerColor<seq<Piece>>,
    gameStatus: Status,
    whiteTime: int,
    blackTime: int,
    isGameOver: bool,
    movesCount: PerColor<int>,
    isTimedMode: bool,
    moveHistory: seq<Move>)

  /** The state `resetGame` installs, keeping the timed-mode switch. */
  function Initial(timed: bool): GameState {
    GameState(InitialBoard(), None, White, [], PerColor([], []), Playing, StartTime, StartTime,
              false, PerColor(0, 0), timed, [])
  }

  // ---------------------------------------------------------------- makeMove

  /** What the callers of `makeMove` guarantee: a piece of the side to move stands on the
      start square and the move is legal for it. */
  ghost predicate MoveAllowed(s: GameState, sr: int, sc: int, er: int, ec: int) {
    LegalMoveOf(s.board, s.currentPlayer, Candidate(Coord(sr, sc), Coord(er, ec)))
  }

  predicate TimedOut(s: GameState) {
    s.isTimedMode && (s.whiteTime <= 0 || s.blackTime <= 0)
  }

  /** `makeMove(sr, sc, er, ec)`. */
  ghost function AfterMove(s: GameState, sr: int, sc: int, er: int, ec: int): GameState
    requires MoveAllowed(s, sr, sc, er, ec)
  {
    var piece := At(s.board, sr, sc).piece;
    var target := At(s.board, er, ec);
    var newBoard := Relocate(s.board, sr, sc, er, ec);
    var next := Opponent(s.currentPlayer);
    s.(board := newBoard,
       currentPlayer := next,
       capturedPieces :=
         if target.Occupied?
         then s.capturedPieces.Set(s.currentPlayer, s.capturedPieces.Get(s.currentPlayer) + [target.piece])
         else s.capturedPieces,
       movesCount := s.movesCount.Set(s.currentPlayer, s.movesCount.Get(s.currentPlayer) + 1),
       moveHistory := s.moveHistory +
         [Move(Coord(sr, sc), Coord(er, ec), piece, if target.Occupied? then Some(target.piece) else None)],
       gameStatus :=
         if TimedOut(s) then Checkmate else if InCheck(newBoard, next) then Check else Playing,
       isGameOver := s.isGameOver || TimedOut(s))
  }

  /** A move changes the board on its two squares only and the turn passes; the history
      grows by one entry recording from, to, piece and captured piece; only the mover's move
      count grows, by one; the piece that stood on the destination, if any, is filed under
      the mover's colour; clocks, timed mode and selection are untouched; afterwards the
      mover is not in check; and the status is
      'checkmate' on a pending timeout, otherwise 'check' exactly when the side now to move
      is in check. */
  lemma AfterMoveSpec(s: GameState, sr: int, sc: int, er: int, ec: int)
    requires MoveAllowed(s, sr, sc, er, ec)
    ensures var t := AfterMove(s, sr, sc, er, ec);
      InBounds(er, ec) && (er != sr || ec != sc) &&
      At(t.board, sr, sc) == Empty && At(t.board, er, ec) == At(s.board, sr, sc) &&
      (forall i, j :: InBounds(i, j) && (i != sr || j != sc) && (i != er || j != ec) ==>
                      At(t.board, i, j) == At(s.board, i, j)) &&
      t.currentPlayer != s.currentPlayer &&
      |t.moveHistory| == |s.moveHistory| + 1 && t.moveHistory[..|s.moveHistory|] == s.moveHistory &&
      t.moveHistory[|s.moveHistory|].from == Coord(sr, sc) &&
      t.moveHistory[|s.moveHistory|].to == Coord(er, ec) &&
      Occupied(t.moveHistory[|s.moveHistory|].piece) == At(s.board, sr, sc) &&
      t.moveHistory[|s.moveHistory|].captured ==
        (if At(s.board, er, ec).Occupied? then Some(At(s.board, er, ec).piece) else None) &&
      t.movesCount.Get(s.currentPlayer) == s.movesCount.Get(s.currentPlayer) + 1 &&
      t.movesCount.Get(t.currentPlayer) == s.movesCount.Get(t.currentPlayer) &&
      t.capturedPieces.Get(t.currentPlayer) == s.capturedPieces.Get(t.currentPlayer) &&
      t.capturedPieces.Get(s.currentPlayer) ==
        s.capturedPieces.Get(s.currentPlayer) +
        (if At(s.board, er, ec).Occupied? then [At(s.board, er, ec).piece] else []) &&
      !InCheck(t.board, s.currentPlayer) &&
      t.whiteTime == s.whiteTime && t.blackTime == s.blackTime && t.isTimedMode == s.isTimedMode &&
      t.selected == s.selected && t.validMoves == s.validMoves &&
      (TimedOut(s) ==> t.gameStatus == Checkmate && t.isGameOver) &&
      (!TimedOut(s) ==> (t.gameStatus == Check <==> InCheck(t.board, t.currentPlayer)) &&
                        (t.gameStatus == Playing <==> !InCheck(t.board, t.currentPlayer)) &&
                        t.isGameOver == s.isGameOver)
  {
    var t := AfterMove(s, sr, sc, er, ec);
    assert Occupied(t.moveHistory[|s.moveHistory|].piece) == At(s.board, sr, sc);
  }

  // ---------------------------------------------------------------- checkGameStatus

  /** `checkGameStatus()`: when the side to move has no move, the game ends in checkmate if
      it is in check and in stalemate otherwise. */
  ghost function AfterStatusCheck(s: GameState): GameState {
    if HasAnyMove(s.board, s.currentPlayer) then s
    else s.(gameStatus := if InCheck(s.board, s.currentPlayer) then Checkmate else Stalemate,
            isGameOver := true)
  }

  /** The status check ends the game exactly when no piece of the side to move has a legal
      move; it then reports 'checkmate' exactly when that side is in check, and changes
      nothing but the status and the game-over flag. */
  lemma AfterStatusCheckSpec(s: GameState)
    ensures var t := AfterStatusCheck(s);
      t.board == s.board && t.currentPlayer == s.currentPlayer &&
      ((forall m :: !LegalMoveOf(s.board, s.currentPlayer, m)) ==>
         t.isGameOver && t == s.(gameStatus := t.gameStatus, isGameOver := true) &&
         (t.gameStatus == Checkmate <==> InCheck(s.board, s.currentPlayer)) &&
         (t.gameStatus == Stalemate <==> !InCheck(s.board, s.currentPlayer))) &&
      ((exists m :: LegalMoveOf(s.board, s.currentPlayer, m)) ==> t == s)
  {
    HasAnyMoveSpec(s.board, s.currentPlayer);
  }

  // ---------------------------------------------------------------- handleSquareClick

  /** A selection, when there is one, is a white piece whose move list is the one shown. */
  ghost predicate SelectionConsistent(s: GameState) {
    (s.selected.None? ==> s.validMoves == []) &&
    (s.selected.Some? ==>
       s.currentPlayer == White && InBounds(s.selected.value.row, s.selected.value.col) &&
       HasColor(At(s.board, s.selected.value.row, s.selected.value.col), White) &&
       s.validMoves == ValidMoves(s.board, s.selected.value.row, s.selected.value.col))
  }

  /** `handleSquareClick(row, col)`. */
  ghost function AfterClick(s: GameState, row: int, col: int): GameState
    requires SelectionConsistent(s) && InBounds(row, col)
  {
    if s.currentPlayer == Black || s.isGameOver then s
    else if s.selected.Some? then
      var from := s.selected.value;
      var cleared := s.(selected := None, validMoves := []);
      if Coord(row, col) in s.validMoves then
        ValidMovesSpec(s.board, from.row, from.col);
        AfterMove(cleared, from.row, from.col, row, col)
      else cleared
    else if HasColor(At(s.board, row, col), s.currentPlayer) then
      s.(selected := Some(Coord(row, col)), validMoves := ValidMoves(s.board, row, col))
    else s
  }

  /** Clicks do nothing while black is to move or the game is over. Otherwise a click with a
      piece selected always clears the selection, and when the clicked square is in the
      selected piece's list it moves that piece there and changes nothing else; a click without a selection selects only a
      piece of the side to move, together with its move list. */
  lemma AfterClickSpec(s: GameState, row: int, col: int)
    requires SelectionConsistent(s) && InBounds(row, col)
    ensures var t := AfterClick(s, row, col);
      ((s.currentPlayer == Black || s.isGameOver) ==> t == s) &&
      (s.currentPlayer == White && !s.isGameOver && s.selected.Some? ==>
         t.selected.None? && t.validMoves == [] &&
         (Coord(row, col) in s.validMoves <==> t.moveHistory != s.moveHistory) &&
         (Coord(row, col) !in s.validMoves ==> t == s.(selected := None, validMoves := [])) &&
         (Coord(row, col) in s.validMoves ==>
            MoveAllowed(s, s.selected.value.row, s.selected.value.col, row, col) &&
            t == AfterMove(s.(selected := None, validMoves := []),
                           s.selected.value.row, s.selected.value.col, row, col))) &&
      (s.currentPlayer == White && !s.isGameOver && s.selected.None? ==>
         t.board == s.board && t.moveHistory == s.moveHistory &&
         (t.selected.Some? <==> HasColor(At(s.board, row, col), White)) &&
         (HasColor(At(s.board, row, col), White) ==>
            t == s.(selected := Some(Coord(row, col)), validMoves := ValidMoves(s.board, row, col))) &&
         (!HasColor(At(s.board, row, col), White) ==> t == s))
  {
    if s.currentPlayer == White && !s.isGameOver && s.selected.Some? &&
       Coord(row, col) in s.validMoves {
      var from := s.selected.value;
      ValidMovesSpec(s.board, from.row, from.col);
      AfterMoveSpec(s.(selected := None, validMoves := []), from.row, from.col, row, col);
    }
  }

  // ---------------------------------------------------------------- computerMove

  /** The effect starts the computer only for black, only in 'playing' and only before the
      game is over. */
  predicate ComputerTriggered(s: GameState) {
    s.currentPlayer == Black && s.gameStatus == Playing && !s.isGameOver
  }

  /** The random index the computer draws is in range. */
  ghost predicate PickInRange(s: GameState, pick: nat) {
    AllMoves(s.board, Black) != [] ==> pick < |AllMoves(s.board, Black)|
  }

  /** `computerMove()` with `Math.floor(Math.random() * allMoves.length)` given as pick. */
  ghost function AfterComputer(s: GameState, pick: nat): GameState
    requires PickInRange(s, pick)
  {
    if !ComputerTriggered(s) then s
    else
      var allMoves := AllMoves(s.board, Black);
      if |allMoves| == 0 then s
      else
        var m := allMoves[pick];
        AllMovesSpec(s.board, Black);
        assert LegalMoveOf(s.board, Black, m);
        AfterMove(s, m.start.row, m.start.col, m.end.row, m.end.col)
  }

  /** The computer moves only a black piece, only to a square its move list holds, and makes
      no move when black has none. */
  lemma AfterComputerSpec(s: GameState, pick: nat)
    requires PickInRange(s, pick)
    ensures var t := AfterComputer(s, pick);
      (!ComputerTriggered(s) || AllMoves(s.board, Black) == []) ==> t == s
    ensures var t := AfterComputer(s, pick);
      ComputerTriggered(s) && AllMoves(s.board, Black) != [] ==>
        exists sr, sc, er, ec ::
          InBounds(sr, sc) && HasColor(At(s.board, sr, sc), Black) &&
          Coord(er, ec) in ValidMoves(s.board, sr, sc) &&
          MoveAllowed(s, sr, sc, er, ec) && t == AfterMove(s, sr, sc, er, ec)
  {
    if ComputerTriggered(s) && AllMoves(s.board, Black) != [] {
      var m := AllMoves(s.board, Black)[pick];
      AllMovesSpec(s.board, Black);
      assert LegalMoveOf(s.board, Black, m);
      ValidMovesSpec(s.board, m.start.row, m.start.col);
      assert Coord(m.end.row, m.end.col) in ValidMoves(s.board, m.start.row, m.start.col);
      assert MoveAllowed(s, m.start.row, m.start.col, m.end.row, m.end.col);
    }
  }

  // ---------------------------------------------------------------- the clock

  /** One tick of the interval, which runs only in timed mode, in 'playing', before the game
      is over: the side to move loses a second, or, at 0 or below, its clock is set to 0 and
      the game ends in 'checkmate'. */
  function AfterTick(s: GameState): GameState {
    if !(s.isTimedMode && s.gameStatus == Playing && !s.isGameOver) then s
    else if s.currentPlayer == White then
      if s.whiteTime <= 0 then s.(whiteTime := 0, isGameOver := true, gameStatus := Checkmate)
      else s.(whiteTime := s.whiteTime - 1)
    else
      if s.blackTime <= 0 then s.(blackTime := 0, isGameOver := true, gameStatus := Checkmate)
      else s.(blackTime := s.blackTime - 1)
  }

  /** A tick touches only the clock of the side to move (and, at expiry, the status): a clock
      above 0 loses exactly one second and nothing else changes; a clock at 0 ends the game
      on this tick and nothing else changes; no clock becomes negative. */
  lemma AfterTickSpec(s: GameState)
    requires s.whiteTime >= 0 && s.blackTime >= 0
    ensures var t := AfterTick(s);
      t.whiteTime >= 0 && t.blackTime >= 0 &&
      t.board == s.board && t.currentPlayer == s.currentPlayer && t.moveHistory == s.moveHistory &&
      (s.currentPlayer == White ==> t.blackTime == s.blackTime) &&
      (s.currentPlayer == Black ==> t.whiteTime == s.whiteTime) &&
      (!(s.isTimedMode && s.gameStatus == Playing && !s.isGameOver) ==> t == s) &&
      (s.isTimedMode && s.gameStatus == Playing && !s.isGameOver ==>
         var before := if s.currentPlayer == White then s.whiteTime else s.blackTime;
         var after := if s.currentPlayer == White then t.whiteTime else t.blackTime;
         (before > 0 ==> after == before - 1 && !t.isGameOver &&
                         t == (if s.currentPlayer == White then s.(whiteTime := s.whiteTime - 1)
                               else s.(blackTime := s.blackTime - 1))) &&
         (before == 0 ==> after == 0 && t.isGameOver && t.gameStatus == Checkmate &&
                          t == s.(isGameOver := true, gameStatus := Checkmate)))
  {
  }

  // ---------------------------------------------------------------- runs of events

  datatype Event =
    | Click(row: int, col: int)
    | ComputerMove(pick: nat)
    | StatusCheck
    | ClockTick
    | Reset
    | ToggleTimedMode

  /** The colour to move after n moves of a game started by white. */
  function ToMove(n: nat): Color {
    if n % 2 == 0 then White else Black
  }

  /** What holds in every state the component reaches. */
  ghost predicate Inv(s: GameState) {
    s.whiteTime >= 0 && s.blackTime >= 0 &&
    SelectionConsistent(s) &&
    (s.isGameOver <==> s.gameStatus == Checkmate || s.gameStatus == Stalemate) &&
    s.currentPlayer == ToMove(|s.moveHistory|) &&
    (forall k :: 0 <= k < |s.moveHistory| ==> s.moveHistory[k].piece.color == ToMove(k)) &&
    s.movesCount.white == (|s.moveHistory| + 1) / 2 && s.movesCount.black == |s.moveHistory| / 2 &&
    (forall c: Color, k :: 0 <= k < |s.capturedPieces.Get(c)| ==>
       s.capturedPieces.Get(c)[k].color == Opponent(c))
  }

  ghost predicate Enabled(s: GameState, e: Event) {
    match e
    case Click(row, col) => InBounds(row, col)
    case ComputerMove(pick) => PickInRange(s, pick)
    case _ => true
  }

  ghost function Step(s: GameState, e: Event): GameState
    requires Inv(s) && Enabled(s, e)
  {
    match e
    case Click(row, col) => AfterClick(s, row, col)
    case ComputerMove(pick) => AfterComputer(s, pick)
    case StatusCheck => AfterStatusCheck(s)
    case ClockTick => AfterTick(s)
    case Reset => Initial(s.isTimedMode)
    case ToggleTimedMode => Initial(!s.isTimedMode)
  }

  lemma InitialInv(timed: bool)
    ensures Inv(Initial(timed))
  {
  }

  /** A legal move by the side to move keeps the bookkeeping invariants, provided the game
      was not over. */
  lemma AfterMoveInv(s: GameState, sr: int, sc: int, er: int, ec: int)
    requires Inv(s) && !s.isGameOver && s.selected.None?
    requires MoveAllowed(s, sr, sc, er, ec)
    ensures Inv(AfterMove(s, sr, sc, er, ec))
  {
    var t := AfterMove(s, sr, sc, er, ec);
    var n := |s.moveHistory|;
    assert t.moveHistory[n].piece.color == ToMove(n);
    forall c: Color, k | 0 <= k < |t.capturedPieces.Get(c)|
      ensures t.capturedPieces.Get(c)[k].color == Opponent(c)
    {
      if c == s.currentPlayer && At(s.board, er, ec).Occupied? &&
         k == |s.capturedPieces.Get(c)| {
        assert t.capturedPieces.Get(c)[k] == At(s.board, er, ec).piece;
      }
    }
  }

  /** A click keeps the invariant. */
  lemma AfterClickInv(s: GameState, row: int, col: int)
    requires Inv(s) && InBounds(row, col)
    ensures Inv(AfterClick(s, row, col))
  {
    if s.currentPlayer == White && !s.isGameOver && s.selected.Some? &&
       Coord(row, col) in s.validMoves {
      var from := s.selected.value;
      ValidMovesSpec(s.board, from.row, from.col);
      AfterMoveInv(s.(selected := None, validMoves := []), from.row, from.col, row, col);
    }
  }

  /** The computer's move keeps the invariant. */
  lemma AfterComputerInv(s: GameState, pick: nat)
    requires Inv(s) && PickInRange(s, pick)
    ensures Inv(AfterComputer(s, pick))
  {
    if ComputerTriggered(s) && AllMoves(s.board, Black) != [] {
      var m := AllMoves(s.board, Black)[pick];
      AllMovesSpec(s.board, Black);
      assert LegalMoveOf(s.board, Black, m);
      AfterMoveInv(s, m.start.row, m.start.col, m.end.row, m.end.col);
    }
  }

  /** Every event keeps the invariant. */
  lemma StepInv(s: GameState, e: Event)
    requires Inv(s) && Enabled(s, e)
    ensures Inv(Step(s, e))
  {
    match e
    case Click(row, col) => AfterClickInv(s, row, col);
    case ComputerMove(pick) => AfterComputerInv(s, pick);
    case StatusCheck =>
    case ClockTick =>
    case Reset => InitialInv(s.isTimedMode);
    case ToggleTimedMode => InitialInv(!s.isTimedMode);
  }

  /** The event sequence can be played from s: every click is on the board and every random
      pick is in range. */
  ghost predicate Playable(s: GameState, es: seq<Event>)
    requires Inv(s)
    decreases |es|
  {
    es == [] ||
    (Enabled(s, es[0]) && (StepInv(s, es[0]); Playable(Step(s, es[0]), es[1..])))
  }

  ghost function Run(s: GameState, es: seq<Event>): GameState
    requires Inv(s) && Playable(s, es)
    decreases |es|
  {
    if es == [] then s else StepInv(s, es[0]); Run(Step(s, es[0]), es[1..])
  }

  /** From any state satisfying the invariant, in particular from a fresh game, every run
      keeps it: clocks never go negative, a selection is always a white piece with its
      current move list, the game is over exactly in 'checkmate' or 'stalemate', turns
      alternate starting with white with one history entry per move, the move counts add up
      to the history's length, and every captured piece is filed under its captor's colour. */
  lemma {:induction false} RunInv(s: GameState, es: seq<Event>)
    requires Inv(s) && Playable(s, es)
    ensures Inv(Run(s, es))
    decreases |es|
  {
    if es != [] {
      StepInv(s, es[0]);
      RunInv(Step(s, es[0]), es[1..]);
    }
  }

  predicate IsReset(e: Event) {
    e.Reset? || e.ToggleTimedMode?
  }

  /** Once over, a game stays over and its history stays as it is until a reset. */
  lemma {:induction false} GameOverSticky(s: GameState, es: seq<Event>)
    requires Inv(s) && Playable(s, es) && s.isGameOver
    requires forall k :: 0 <= k < |es| ==> !IsReset(es[k])
    ensures Run(s, es).isGameOver && Run(s, es).moveHistory == s.moveHistory
    decreases |es|
  {
    if es != [] {
      StepInv(s, es[0]);
      assert Step(s, es[0]).isGameOver && Step(s, es[0]).moveHistory == s.moveHistory;
      GameOverSticky(Step(s, es[0]), es[1..]);
    }
  }

  /** Between resets the history only grows, and each entry it gains is a move of the side
      to move that was in the mover's `getValidMoves` list at the time. */
  lemma StepHistory(s: GameState, e: Event)
    requires Inv(s) && Enabled(s, e) && !IsReset(e)
    ensures var t := Step(s, e);
      t.moveHistory == s.moveHistory ||
      (|t.moveHistory| == |s.moveHistory| + 1 && t.moveHistory[..|s.moveHistory|] == s.moveHistory &&
       var m := t.moveHistory[|s.moveHistory|];
       InBounds(m.from.row, m.from.col) &&
       At(s.board, m.from.row, m.from.col) == Occupied(m.piece) &&
       m.piece.color == s.currentPlayer &&
       m.to in ValidMoves(s.board, m.from.row, m.from.col))
  {
    match e
    case Click(row, col) =>
      if s.currentPlayer == White && !s.isGameOver && s.selected.Some? &&
         Coord(row, col) in s.validMoves {
        var from := s.selected.value;
        ValidMovesSpec(s.board, from.row, from.col);
        AfterMoveSpec(s.(selected := None, validMoves := []), from.row, from.col, row, col);
      }
    case ComputerMove(pick) =>
      if ComputerTriggered(s) && AllMoves(s.board, Black) != [] {
        var m := AllMoves(s.board, Black)[pick];
        AllMovesSpec(s.board, Black);
        assert LegalMoveOf(s.board, Black, m);
        ValidMovesSpec(s.board, m.start.row, m.start.col);
        AfterMoveSpec(s, m.start.row, m.start.col, m.end.row, m.end.col);
      }
    case StatusCheck =>
    case ClockTick =>
  }

  /** Since the computer starts only in 'playing', a black side left in 'check' with moves
      to make is never moved: clicks, the computer and the clock all leave the state as it
      is, and so does the status check; only a reset changes it. */
  lemma BlackInCheckStalls(s: GameState, e: Event)
    requires Inv(s) && Enabled(s, e) && !IsReset(e)
    requires s.currentPlayer == Black && s.gameStatus == Check && HasAnyMove(s.board, Black)
    ensures Step(s, e) == s
  {
  }
}
