/** The chess component itself: its React state as fields that the handlers update in place.
    Each handler is proved to perform the corresponding transition of module GameModel, and
    the handlers a user or a timer can trigger keep that module's invariant. */
module Game {
  import opened ChessBoard
  import opened Validator
  import opened Moves
  import opened GameModel

  /** React applies the state setters called during one handler together, as one new
      render state, so the component's state is one record that each handler replaces. */
  class ChessGame {
    var state: GameState

    /** The initial `useState` values: a fresh game, untimed. */
    constructor ()
      ensures state == Initial(false)
      ensures Inv(state)
    {
      state := Initial(false);
      InitialInv(false);
    }

    /** `makeMove`: the move is not re-validated, so its legality is the caller's duty. */
    method MakeMove(startRow: int, startCol: int, endRow: int, endCol: int)
      requires MoveAllowed(state, startRow, startCol, endRow, endCol)
      modifies this
      ensures state == AfterMove(old(state), startRow, startCol, endRow, endCol)
    {
      var board, currentPlayer := state.board, state.currentPlayer;
      var piece := board[startRow][startCol];
      var capturedPiece := board[endRow][endCol];
      var newBoard := Relocate(board, startRow, startCol, endRow, endCol);
      var capturedPieces := state.capturedPieces;
      if capturedPiece.Occupied? {
        capturedPieces := capturedPieces.Set(currentPlayer,
                                             capturedPieces.Get(currentPlayer) + [capturedPiece.piece]);
      }
      var movesCount := state.movesCount.Set(currentPlayer, state.movesCount.Get(currentPlayer) + 1);
      var moveHistory := state.moveHistory +
        [Move(Coord(startRow, startCol), Coord(endRow, endCol), piece.piece,
              if capturedPiece.Occupied? then Some(capturedPiece.piece) else None)];
      var nextPlayer := Opponent(currentPlayer);
      var inCheck := IsKingInCheck(newBoard, nextPlayer);
      var gameStatus := if inCheck then Check else Playing;
      var isGameOver := state.isGameOver;
      if state.isTimedMode && (state.whiteTime <= 0 || state.blackTime <= 0) {
        isGameOver := true;
        gameStatus := Checkmate;
      }
      state := state.(board := newBoard, currentPlayer := nextPlayer, capturedPieces := capturedPieces,
                      movesCount := movesCount, moveHistory := moveHistory,
                      gameStatus := gameStatus, isGameOver := isGameOver);
    }

    /** `checkGameStatus`, run after every render. */
    method CheckGameStatus()
      modifies this
      ensures state == AfterStatusCheck(old(state))
      ensures Inv(old(state)) ==> Inv(state)
    {
      ghost var s := state;
      var hasValidMoves := HasValidMoves(state.board, state.currentPlayer);
      if !hasValidMoves {
        var inCheck := IsKingInCheck(state.board, state.currentPlayer);
        if inCheck {
          state := state.(gameStatus := Checkmate, isGameOver := true);
        } else {
          state := state.(gameStatus := Stalemate, isGameOver := true);
        }
      }
      if Inv(s) {
        StepInv(s, StatusCheck);
      }
    }

    /** `handleSquareClick(row, col)`; the board grid only produces squares on the board. */
    method HandleSquareClick(row: int, col: int)
      requires InBounds(row, col) && SelectionConsistent(state)
      modifies this
      ensures state == AfterClick(old(state), row, col)
      ensures Inv(old(state)) ==> Inv(state)
    {
      ghost var s := state;
      if state.currentPlayer == Black || state.isGameOver {
        return;
      }
      if state.selected.Some? {
        var from := state.selected.value;
        if Coord(row, col) in state.validMoves {
          ValidMovesSpec(state.board, from.row, from.col);
          MakeMove(from.row, from.col, row, col);
        }
        state := state.(selected := None, validMoves := []);
      } else {
        if HasColor(state.board[row][col], state.currentPlayer) {
          var moves := GetValidMoves(row, col, state.board);
          state := state.(selected := Some(Coord(row, col)), validMoves := moves);
        }
      }
      if Inv(s) {
        StepInv(s, Click(row, col));
      }
    }

    /** The effect's trigger followed by `computerMove`, with the random index given as pick. */
    method ComputerMove(pick: nat)
      requires PickInRange(state, pick)
      modifies this
      ensures state == AfterComputer(old(state), pick)
      ensures Inv(old(state)) ==> Inv(state)
    {
      ghost var s := state;
      if state.currentPlayer == Black && state.gameStatus == Playing && !state.isGameOver {
        var allMoves := CollectMoves(state.board, Black);
        if |allMoves| > 0 {
          var randomMove := allMoves[pick];
          AllMovesSpec(state.board, Black);
          assert LegalMoveOf(state.board, Black, randomMove);
          MakeMove(randomMove.start.row, randomMove.start.col, randomMove.end.row, randomMove.end.col);
        }
      }
      if Inv(s) {
        StepInv(s, Event.ComputerMove(pick));
      }
    }

    /** One call of the interval callback of the clock effect, with the effect's condition. */
    method Tick()
      modifies this
      ensures state == AfterTick(old(state))
      ensures Inv(old(state)) ==> Inv(state)
    {
      ghost var s := state;
      if state.isTimedMode && state.gameStatus == Playing && !state.isGameOver {
        if state.currentPlayer == White {
          if state.whiteTime <= 0 {
            state := state.(whiteTime := 0, isGameOver := true, gameStatus := Checkmate);
          } else {
            state := state.(whiteTime := state.whiteTime - 1);
          }
        } else {
          if state.blackTime <= 0 {
            state := state.(blackTime := 0, isGameOver := true, gameStatus := Checkmate);
          } else {
            state := state.(blackTime := state.blackTime - 1);
          }
        }
      }
      if Inv(s) {
        StepInv(s, ClockTick);
      }
    }

    /** `resetGame`: everything but the timed-mode switch returns to its initial value. */
    method ResetGame()
      modifies this
      ensures state == Initial(old(state).isTimedMode)
      ensures Inv(state)
    {
      state := Initial(state.isTimedMode);
      InitialInv(state.isTimedMode);
    }

    /** The timed-mode switch: flip the mode and start a new game. */
    method ToggleTimedMode()
      modifies this
      ensures state == Initial(!old(state).isTimedMode)
      ensures Inv(state)
    {
      state := state.(isTimedMode := !state.isTimedMode);
      ResetGame();
    }
  }
}
