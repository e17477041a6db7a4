# Chess Royale rules engine, in Dafny

This project models the rule engine and the turn state machine of the `EnhancedChessGame` React
component (`components/enhanced-chess-game.tsx`). The component is a chess board on which a human
plays White against a computer that plays random legal moves for Black. An optional 30-minute
clock can run for each side.

The model keeps the component's own structure:

- `board.dfy` (module `ChessBoard`) holds the board: an 8x8 grid of optional pieces with row 0
  as Black's back rank. It also holds the starting position and the copy-and-move update that
  both `makeMove` and the validator's king-safety test perform.
- `rules.dfy` (module `Rules`) states the movement rules as predicates, in three layers:
  - `ShapeValid` is `isValidMove` with king safety off;
  - `InCheck` is `isKingInCheck`: the first king found row by row is reached by some piece of
    the other colour;
  - `Legal` is a shape-valid move after which the mover's king is not in check.
  
  Lemmas restate each piece's rule in plain geometric terms.
- `validator.dfy` (module `Validator`) holds the component's loops as methods. These are the
  rook/queen walk, the bishop walk, the king search, the attacker scan, `isKingInCheck` and
  `isValidMove`. Each method is proved to compute the matching predicate.
- `moves.dfy` (module `Moves`) covers `getValidMoves`, the computer's collection of
  (start, end) pairs and the "has any move" scan of `checkGameStatus`. For each, a ghost
  specification says exactly which moves it contains, and a loop is proved equal to it.
- `state.dfy` (module `GameModel`) holds all the React state the rules read or write as one
  record. It gives one transition function per event (a move, the status check, a click, the
  computer's move, a clock tick, a reset, the timed-mode switch), with lemmas about each one.
  It also states an invariant that every run of events from a fresh game keeps.
- `game.dfy` (module `Game`) holds the component as a class. Its handlers replace the state
  record in place, and each is proved to perform its transition.
- `clock.dfy` (module `Clock`) covers `formatTime` and its round trip back to the clock value.

## Model

| member | source | states |
|---|---|---|
| ChessBoard.PerColor.Set | components/enhanced-chess-game.tsx:235-238 | updating the entry of one colour sets that entry and leaves the other colour's entry as it was |
| ChessBoard.Relocate | components/enhanced-chess-game.tsx:219-223 | after the move the start square is empty; the destination holds what stood on the start square (when the two differ); every other square is unchanged |
| ChessBoard.InitialBoardLayout | components/enhanced-chess-game.tsx:33-42 | in the starting position Black occupies rows 0-1 and White rows 6-7; rows 2-5 are empty; pawns are exactly on rows 1 and 6; each king stands alone on column 4 of its back rank |
| Rules.PathClearIffInsideEmpty | components/enhanced-chess-game.tsx:129-140 | the sliding walk finds the path clear exactly when every square strictly between start and destination is empty |
| Rules.LeaperRules | components/enhanced-chess-game.tsx:101-188 | with king safety off: a knight moves exactly (1,2) or (2,1) and a king at most one square each way, onto a square on the board without a piece of its colour; a pawn moves one square forward onto an empty square, two squares forward from its home row (6 for White, 1 for Black) over two empty squares, or one square diagonally forward onto an enemy piece |
| Rules.SliderRules | components/enhanced-chess-game.tsx:125-184 | with king safety off: a rook moves along a row or column, a bishop along a diagonal, a queen along either; the destination is on the board, not of its colour, and every square strictly between is empty |
| Rules.FirstKingExists | components/enhanced-chess-game.tsx:63-71 | a colour with a king on the board has a first king in row-major order |
| Rules.InCheckIff | components/enhanced-chess-game.tsx:60-87 | a colour without a king is never in check; a colour with one is in check exactly when some piece of the other colour reaches its first king's square with king safety off |
| Validator.SlideClear | components/enhanced-chess-game.tsx:125-142 | the rook and queen walk returns true exactly when the squares strictly between start and destination are empty |
| Validator.DiagonalClear | components/enhanced-chess-game.tsx:148-165 | the bishop walk, which stops when either coordinate reaches the destination's, returns true exactly when the squares strictly between are empty |
| Validator.ShapeValidMove | components/enhanced-chess-game.tsx:99-188 | the validator with king safety off returns exactly `ShapeValid` (bounds, own colour, piece shape) |
| Validator.FindKing | components/enhanced-chess-game.tsx:61-73 | the king search finds the first king of the colour in row-major order, and reports none only when the colour has no king |
| Validator.AnyAttacker | components/enhanced-chess-game.tsx:75-86 | the attacker scan returns true exactly when some piece of the other colour reaches the square with king safety off |
| Validator.IsKingInCheck | components/enhanced-chess-game.tsx:60-87 | `isKingInCheck` returns exactly `InCheck`: false without a king, otherwise whether the first king is attacked |
| Validator.IsValidMove | components/enhanced-chess-game.tsx:89-201 | `isValidMove` returns the shape test when king safety is off, and otherwise the shape test together with "the mover is not in check on the board after the move" |
| Moves.ValidMovesSpec | components/enhanced-chess-game.tsx:203-216 | an empty square has no moves; otherwise the list holds exactly the legal destinations of the piece, in row-major order without duplicates, and never its own square |
| Moves.GetValidMoves | components/enhanced-chess-game.tsx:203-216 | the nested loop returns exactly the list `ValidMoves` describes |
| Moves.PairsMembers | components/enhanced-chess-game.tsx:287-289 | the pairs pushed for one piece are exactly (start, d) for each destination d in its list |
| Moves.PushPairs | components/enhanced-chess-game.tsx:287-289 | the `forEach` appends one (start, destination) pair per destination, in order, after the existing list |
| Moves.SquareCandidatesSpec | components/enhanced-chess-game.tsx:285-290 | the pairs contributed by one square are exactly the legal moves of a piece of the colour standing there |
| Moves.RowCandidatesSpec | components/enhanced-chess-game.tsx:284-291 | the pairs collected from the first j squares of a row are exactly the legal moves starting there |
| Moves.CandidatesUpToSpec | components/enhanced-chess-game.tsx:283-292 | the pairs collected from the first i rows are exactly the legal moves starting in those rows |
| Moves.CollectRow | components/enhanced-chess-game.tsx:284-291 | the inner collection loop computes the pairs of one row |
| Moves.CollectMoves | components/enhanced-chess-game.tsx:282-292 | the collection loop computes `AllMoves` |
| Moves.AllMovesSpec | components/enhanced-chess-game.tsx:282-292 | the computer's list holds exactly the legal moves of the colour: a start holding one of its pieces and a destination that start's move list approves |
| Moves.HasAnyMoveIffLegal | components/enhanced-chess-game.tsx:304-316 | some piece of the colour has a non-empty move list exactly when the colour has a legal move |
| Moves.HasAnyMoveSpec | components/enhanced-chess-game.tsx:304-316 | a colour has a move exactly when the computer's list is non-empty, and exactly when it has a legal move |
| Moves.HasValidMoves | components/enhanced-chess-game.tsx:304-316 | the scan with early exit returns exactly `HasAnyMove` |
| GameModel.AfterMoveSpec | components/enhanced-chess-game.tsx:218-260 | a move changes only its two squares and passes the turn. The history gains one entry recording from, to, the piece moved and the piece that stood on the destination (or none). Only the mover's count grows, by one. A captured piece is filed under the mover's colour. The clocks, the timed-mode switch and the selection are unchanged. The mover is not in check afterwards. The status is 'checkmate' with game over on a pending timeout, and otherwise 'check' exactly when the side now to move is in check |
| GameModel.AfterStatusCheckSpec | components/enhanced-chess-game.tsx:303-327 | the status check changes nothing when the side to move has a legal move. Otherwise it ends the game, with 'checkmate' exactly when that side is in check and 'stalemate' exactly when it is not, and changes nothing but the status and the game-over flag |
| GameModel.AfterClickSpec | components/enhanced-chess-game.tsx:262-277 | clicks do nothing while Black is to move or the game is over. With a selection, a click always clears it; on a square in the shown list it makes exactly the move of the selected piece to that square (a legal move) and nothing else, and on any other square it only clears the selection. Without a selection, a click selects exactly a piece of the side to move, together with its move list, and otherwise changes nothing |
| GameModel.AfterComputerSpec | components/enhanced-chess-game.tsx:279-300 | outside 'playing' for Black, or with no Black move, nothing changes. Otherwise the result is the move of a Black piece to a square in that piece's move list |
| GameModel.AfterTickSpec | components/enhanced-chess-game.tsx:337-365 | a tick runs only in timed mode, in 'playing', before game over, and otherwise changes nothing. It touches only the clock of the side to move: above 0 that clock loses one second and nothing else changes; at 0 the game ends in 'checkmate' and nothing else changes. No clock goes negative |
| GameModel.InitialInv | components/enhanced-chess-game.tsx:45-58 | the initial state satisfies the invariant |
| GameModel.AfterMoveInv | components/enhanced-chess-game.tsx:218-260 | a legal move by the side to move keeps the invariant |
| GameModel.AfterClickInv | components/enhanced-chess-game.tsx:262-277 | a click keeps the invariant |
| GameModel.AfterComputerInv | components/enhanced-chess-game.tsx:279-300 | the computer's move keeps the invariant |
| GameModel.StepInv | components/enhanced-chess-game.tsx:218-392 | every event keeps the invariant |
| GameModel.RunInv | components/enhanced-chess-game.tsx:45-392 | every run from a state satisfying the invariant keeps it. Clocks stay non-negative. A selection is always a White piece with its current move list. The game is over exactly in 'checkmate' or 'stalemate'. Turns alternate starting with White, with one history entry per move. The move counts add up to the history length. Every captured piece belongs to the other colour than the one it is filed under |
| GameModel.GameOverSticky | components/enhanced-chess-game.tsx:262-365 | once the game is over it stays over, and the history stays unchanged, until a reset |
| GameModel.StepHistory | components/enhanced-chess-game.tsx:241-246 | between resets the history only grows, and each entry it gains is a piece of the side to move going to a square in that piece's move list |
| GameModel.BlackInCheckStalls | components/enhanced-chess-game.tsx:332 | a Black side left in 'check' with moves to make is never moved: every event but a reset leaves the state as it is |
| Game.ChessGame.constructor | components/enhanced-chess-game.tsx:45-58 | the component starts in the initial state, untimed, satisfying the invariant |
| Game.ChessGame.MakeMove | components/enhanced-chess-game.tsx:218-260 | the handler performs `AfterMove` on the state |
| Game.ChessGame.CheckGameStatus | components/enhanced-chess-game.tsx:303-327 | the handler performs `AfterStatusCheck` and keeps the invariant |
| Game.ChessGame.HandleSquareClick | components/enhanced-chess-game.tsx:262-277 | the handler performs `AfterClick` and keeps the invariant |
| Game.ChessGame.ComputerMove | components/enhanced-chess-game.tsx:279-300 | the effect's trigger and the computer's move perform `AfterComputer` and keep the invariant |
| Game.ChessGame.Tick | components/enhanced-chess-game.tsx:337-365 | one interval callback performs `AfterTick` and keeps the invariant |
| Game.ChessGame.ResetGame | components/enhanced-chess-game.tsx:373-387 | everything returns to its initial value except the timed-mode switch; the invariant holds |
| Game.ChessGame.ToggleTimedMode | components/enhanced-chess-game.tsx:389-392 | the switch flips and a new game starts |
| Clock.NatToStringDigits | components/enhanced-chess-game.tsx:370 | `toString` of a non-negative integer is a non-empty string of decimal digits that reads back as the number; it has one digit below 10 and at most two below 100 |
| Clock.PadStart2Digits | components/enhanced-chess-game.tsx:370 | `padStart(2, '0')` of the digits keeps the value and gives exactly two digits below 100 |
| Clock.FormatTimeRoundTrip | components/enhanced-chess-game.tsx:367-371 | the text of a non-negative clock is minutes, ':' and two digits of seconds below 60; minutes times 60 plus seconds is the clock value; below 100 minutes the text is exactly "mm:ss" |

The invariant `GameModel.Inv` holds all of these together:

- non-negative clocks;
- a consistent selection;
- game over exactly in 'checkmate' or 'stalemate';
- the side to move determined by the history's length;
- move counts matching the history;
- captured pieces filed under the other colour.

## Quirks of the component kept in the model

- Black in 'check' with legal replies is never moved, because the computer starts only in
  'playing'. The model reproduces this as the component does, and
  `GameModel.BlackInCheckStalls` states it.
- The timeout test in `makeMove` reads the clocks as they were before the move, and a clock
  that reaches 0 ends the game only on the following tick.
- Captured pieces are filed under the colour of the side that captured them.

## Left out

- Rendering is not modelled: the JSX, the piece glyphs, the styling, the animations, the winner
  banner, and the history and captured-piece displays. None of them changes the rules' state.
- `isComputerThinking` and `lastMove` are not modelled. They only feed the display.
- Timing is not modelled: the 1000 ms `setTimeout` of the computer, the `setInterval` of the
  clock, and effect scheduling. Each of the computer's move, one clock tick and the status check
  is one atomic event on the current state, and a run is any sequence of events. The stale
  closures a delayed callback could see, and repeated scheduling of the computer, are not
  represented.
- `Math.random` is not modelled. The index it yields is the parameter `pick`, required to be in
  range, as the `Math.floor(Math.random() * length)` expression guarantees.
- React state is one record that each handler replaces in a single step. This reflects that
  the setters called in one handler are applied together. Functional updates (`prev => ...`)
  read the state the handler started from.
- Board copies (`board.map(row => [...row])`) are values. No board is ever shared between two
  owners, so aliasing is not represented.
- Numbers are unbounded integers. The clocks only ever hold whole seconds between 0 and 1800.
- Validator.IsValidMove: requires the given piece to stand on the start square, as it does for
  every caller in the component. For a bishop asked about its own square, the source's walk
  would leave the board.
- Validator.ShapeValidMove: has the same requirement as `IsValidMove`.
- Game.ChessGame.MakeMove: requires the move to be legal for a piece of the side to move. The
  component does not re-validate inside `makeMove`, and both of its callers pass only moves
  from `getValidMoves`.
- Game.ChessGame.HandleSquareClick: requires the clicked square to be on the board, since the
  grid only renders those. It also requires the selection to match its shown move list, which
  every reachable state satisfies (`GameModel.Inv`).
- Clock.FormatTimeRoundTrip: is stated for non-negative clock values only, the only ones the
  component reaches. `FormatTime` itself follows JavaScript for negative values too.
