# Board-game engines: tic-tac-toe, draughts and the chess computer player

This project models the game logic behind a set of browser board games and
proves properties of it in Dafny:

- **Tic-tac-toe** (`TicTacToe.dfy`). It covers `checkWinner`, the in-place
  `minimax` search and `getBestMove`, the easy and hard computer moves, and
  the singleplayer game state: board, turn, winner, score and difficulty.
  The human plays X and the computer plays O. The game is a class whose
  methods are the component's handlers. The search keeps the source's
  mutate-and-restore discipline on an `array`, and is proved equal to a
  recursive `Score` function.
- **Draughts** (`Draughts.dfy`). It covers the 8x8 opening layout,
  `isValidMove`, `makeMove` with its capture of the jumped piece, the
  computer's enumeration of forward steps for black with its random choice,
  and the click handler. The board is an `array2`, and a new board is a new
  array, as the source's deep copies are. Each board method is proved
  against a function on the board's value (`View`).
- **Chess, flat board** (`ChessBoard.dfy`). It covers square naming, the
  material table, `evaluateBoard`, and the three levels of the computer's
  move choice: random, capture-preferring, and one-ply material maximum.
- **Chess, three-dimensional board** (`Chess3D.dfy`). It covers the (x, z)
  square naming, its decoder `coordsFromSquare`, and the capture-preferring
  computer move.

Chess rules come from the chess.js library. In this model they are inputs:
- the list of legal moves;
- the board after a move (a function parameter);
- whether the game is over.

`Math.random()` becomes an arbitrary choice. Methods use `:|`, and
`Chess3D.ChooseAIMove` takes a `pick` index. Every permitted choice is
covered by the contracts.

### Rules the code does not implement

Several usual rules of these games are missing from the code. The model
follows the code:
- **Draughts:**
  - There is no crowning, no multi-jump chain and no forced capture.
  - A plain step must go forward, but a two-square jump may go either way
    along the rows.
  - A selected piece stays selected until a valid move is clicked. Another
    click does not move the selection.
  - The computer only makes forward single steps, never captures.
  - The difficulty selects only the computer's delay.
- **Tic-tac-toe:**
  - The easy level is a uniformly random empty cell, with no positional
    heuristic.
  - The hard level is the full minimax with depth-adjusted scores of plus or
    minus 10.

## Model

| member | source | states |
|---|---|---|
| TicTacToe.EmptyBoard | src/components/TicTacToe.js:8 | the initial board has nine cells, all empty |
| TicTacToe.FirstCompleteLine | src/components/TicTacToe.js:121-123 | the scan returns the first line, in scan order, held entirely by one mark, or None exactly when no line from the start index on is complete |
| TicTacToe.CheckWinner | src/components/TicTacToe.js:115-125 | Won(m) only when some line is held by m and no earlier line is complete; Draw exactly when no line is complete and the board is full; Undecided exactly when no line is complete and a cell is empty |
| TicTacToe.EmptyInPlace | src/components/TicTacToe.js:139 | placing a mark on an empty cell removes exactly one empty cell, so each minimax level shrinks the search |
| TicTacToe.UndecidedHasEmpty | src/components/TicTacToe.js:124 | an undecided board has an empty cell, so minimax's score list is never empty |
| TicTacToe.EmptyCellsIn | src/components/TicTacToe.js:169 | the empty-cell list holds exactly the empty indices, each once, in increasing order |
| TicTacToe.MaxOf | src/components/TicTacToe.js:145 | Math.max over a non-empty list is an element no smaller than any other |
| TicTacToe.MinOf | src/components/TicTacToe.js:145 | Math.min over a non-empty list is an element no larger than any other |
| TicTacToe.Score | src/components/TicTacToe.js:130-146 | the minimax value lies between depth - 10 and 10 - depth whenever depth plus the empty cells is at most 10 |
| TicTacToe.ChildScores | src/components/TicTacToe.js:136-144 | the score list has one entry per empty cell scanned, each within the same depth bound |
| TicTacToe.ChildScoresStep | src/components/TicTacToe.js:137-143 | one more loop iteration appends the child's score exactly when that cell is empty |
| TicTacToe.ScoreUndecided | src/components/TicTacToe.js:136-145 | on an undecided board the score list is non-empty and the value is its maximum (maximizing) or minimum |
| TicTacToe.Minimax | src/components/TicTacToe.js:130-146 | the in-place search leaves the array as it found it and returns the recursive Score of the board |
| TicTacToe.ProbeChildren | src/components/TicTacToe.js:136-144 | the probing loop restores every cell it writes and collects exactly the children's scores |
| TicTacToe.GetBestMove | src/components/TicTacToe.js:127-162 | the board is restored; None exactly when the board is full; otherwise an empty cell of maximal probe score with no earlier cell scoring as much (strict comparison) |
| TicTacToe.ChooseAIMove | src/components/TicTacToe.js:164-173 | hard on a full board stops; a chosen cell is empty; the hard choice is the best move; no cell is chosen exactly when the board is full |
| TicTacToe.Tally | src/components/TicTacToe.js:180-182 | a win adds one to the winner's count only; a draw changes no count |
| TicTacToe.Game.constructor | src/components/TicTacToe.js:98-107 | empty board, X to move, player's turn, no result, zero scores, easy level |
| TicTacToe.Game.SetDifficulty | src/components/TicTacToe.js:328 | the level is set and nothing else changes |
| TicTacToe.Game.Settle | src/components/TicTacToe.js:266-272 | the board is taken; a decided verdict is recorded and tallied; an undecided one changes neither winner nor score |
| TicTacToe.Game.HandleClick | src/components/TicTacToe.js:258-276 | a click on an occupied cell, after a result or out of turn changes nothing; otherwise X is placed, a result is recorded and tallied, or the turn passes to O with the board handed to the computer |
| TicTacToe.Game.MakeAIMove | src/components/TicTacToe.js:164-188 | O goes on an empty cell (the best one when hard); a result is recorded and tallied, or the turn returns to X; hard on a full board changes nothing |
| TicTacToe.Game.ResetGame | src/components/TicTacToe.js:283-290 | empty board, no result, X to move, the player's turn iff the player is X; score and level kept |
| Draughts.Opponent | src/components/DraughtsBoard.js:42 | the opponent of a colour is the other colour |
| Draughts.OtherColour | src/components/DraughtsBoard.js:42 | an occupied cell not of colour c holds exactly the opponent of c |
| Draughts.CountSet | src/components/DraughtsBoard.js:52-58 | writing one cell changes a colour's piece count by what was written minus what was overwritten |
| Draughts.InitializeBoard | src/components/DraughtsBoard.js:6-20 | a fresh 8x8 board equal to the opening layout |
| Draughts.InitialLayout | src/components/DraughtsBoard.js:11-18 | twelve pieces of each colour; black only in rows 0 to 2, red only in rows 5 to 7, every piece on a square of odd row plus column |
| Draughts.IsValidMove | src/components/DraughtsBoard.js:28-47 | valid exactly when the origin is occupied, the destination is empty, and the move is a forward diagonal step or a two-square diagonal jump over an opponent piece; a forward row change to a column other than one away is never valid |
| Draughts.MovedCells | src/components/DraughtsBoard.js:49-62 | after a move the destination holds the moved piece, the origin is empty, the jumped square is emptied, and every other cell is unchanged |
| Draughts.ValidMoveCounts | src/components/DraughtsBoard.js:49-62 | a valid move keeps the mover's piece count and lowers the opponent's by one for a jump and by none for a step |
| Draughts.MakeMove | src/components/DraughtsBoard.js:49-62 | a fresh board equal to the moved board; the old board is untouched |
| Draughts.SquareMovesMembers | src/components/DraughtsBoard.js:85-90 | the moves collected at a square are exactly the computer's forward steps from it |
| Draughts.AIMovesMembers | src/components/DraughtsBoard.js:82-93 | the enumerated list holds exactly the black forward diagonal steps into empty in-bounds squares |
| Draughts.PushStep | src/components/DraughtsBoard.js:86-89 | one candidate target is appended exactly when it is in bounds and empty |
| Draughts.ScanSquare | src/components/DraughtsBoard.js:85-90 | one square's scan appends that square's steps to the list |
| Draughts.EnumerateAIMoves | src/components/DraughtsBoard.js:82-93 | the nested loops return the row-major list of the computer's steps |
| Draughts.ChooseAIStep | src/components/DraughtsBoard.js:95-96 | no choice exactly when black has no step; otherwise one of black's steps |
| Draughts.AIStepIsValidMove | src/components/DraughtsBoard.js:86-100 | every computer step passes isValidMove, and applying it agrees with makeMove and keeps both piece counts |
| Draughts.AIStepKeepsRed | src/components/DraughtsBoard.js:97-99 | a computer step never changes a red cell |
| Draughts.ApplyAIMove | src/components/DraughtsBoard.js:97-100 | a fresh board with the piece moved from the origin to the destination |
| Draughts.AITurn | src/components/DraughtsBoard.js:81-104 | with no step the same board is kept; otherwise a fresh board after one of black's steps; red cells are kept |
| Draughts.DraughtsGame.constructor | src/components/DraughtsBoard.js:23-25 | opening board, no selection, the player to move |
| Draughts.DraughtsGame.HandleSquareClick | src/components/DraughtsBoard.js:67-78 | ignored on the computer's turn; with a selection a valid move is made, the selection cleared and the turn passed, and an invalid one changes nothing; without one a red piece is selected |
| Draughts.DraughtsGame.MakeAIMove | src/components/DraughtsBoard.js:80-106 | black makes one of its steps, or the board is kept when there is none; the turn returns to the player |
| ChessBoard.SquareId | src/components/ChessBoard.js:17 | a two-character square name whose file letter is the column's and whose digit is 8 minus the row |
| ChessBoard.SquareIdInjective | src/components/ChessBoard.js:17 | distinct squares have distinct names |
| ChessBoard.MaterialScore | src/components/ChessBoard.js:19-26 | every value is at most 9 and only the king is worth nothing |
| ChessBoard.EvaluateBoard | src/components/ChessBoard.js:28-40 | the loop returns black's material minus white's |
| ChessBoard.SwapNegates | src/components/ChessBoard.js:35 | swapping every piece's colour negates the evaluation |
| ChessBoard.KingsOnlyScoresZero | src/components/ChessBoard.js:19-36 | a board holding only kings evaluates to zero |
| ChessBoard.BlackMoves | src/components/ChessBoard.js:103 | a move is kept exactly when it is one of the moves and black makes it; never longer than the input |
| ChessBoard.BlackMovesAppend | src/components/ChessBoard.js:103 | filtering a concatenation is the concatenation of the filtered parts, so the filter keeps order and multiplicity |
| ChessBoard.BlackMovesOne | src/components/ChessBoard.js:103 | a single move is kept exactly when black makes it |
| ChessBoard.Captures | src/components/ChessBoard.js:110 | a move is kept exactly when it is one of the moves and captures; never longer than the input |
| ChessBoard.CapturesAppend | src/components/ChessBoard.js:110 | filtering a concatenation is the concatenation of the filtered parts, so the filter keeps order and multiplicity |
| ChessBoard.CapturesOne | src/components/ChessBoard.js:110 | a single move is kept exactly when it captures |
| ChessBoard.CapturePool | src/components/ChessBoard.js:110-113 | empty exactly when there are no moves; a move is in the pool exactly when it is one of the moves and, whenever some move captures, is itself a capture |
| ChessBoard.BlackCapturesIff | src/components/ChessBoard.js:103-111 | black's capture list is non-empty exactly when some legal black move captures |
| ChessBoard.PickHard | src/components/ChessBoard.js:114-126 | none exactly for no moves; otherwise the first index of maximal evaluation after the move |
| ChessBoard.ChooseAIMove | src/components/ChessBoard.js:100-131 | no move exactly when the game is over or black has none; a chosen move is a legal black move; medium takes a capture when one exists; hard takes the first maximal-evaluation move |
| Chess3D.SquareId | src/Chess3D.jsx:12 | the name of file x on row z, the flat board's name of row z, column x |
| Chess3D.SquareIdInjective | src/Chess3D.jsx:12 | distinct squares have distinct names |
| Chess3D.IndexOf | src/Chess3D.jsx:13 | -1 exactly when the character is absent; otherwise its first position |
| Chess3D.ParseDigit | src/Chess3D.jsx:13 | a number exactly for a decimal digit, and then its value |
| Chess3D.CoordsFromSquare | src/Chess3D.jsx:13 | the file is -1 exactly when the name is empty or starts with no file letter; the row is a number exactly when the second character is a digit |
| Chess3D.DecodeEncode | src/Chess3D.jsx:12-13 | decoding the name of (x, z) gives (x, z) |
| Chess3D.EncodeDecode | src/Chess3D.jsx:12-13 | every square name decodes to in-range coordinates whose name is the original |
| Chess3D.ChooseAIMove | src/Chess3D.jsx:78-89 | no move exactly when black has none; a chosen move is a legal black move, and a capture whenever one exists |
| Chess3D.EveryPoolMoveReachable | src/Chess3D.jsx:81-83 | every black capture when black has one, and otherwise every black move, is chosen for some random index |

## Left out

- Multiplayer tic-tac-toe is not modelled because it is network I/O. This
  covers the socket.io room handling, the emitted and received moves, the
  rematch handshake, the player names and the `gameMode` switch
  (src/components/TicTacToe.js:205-256, 277-280, 292-302). Only singleplayer,
  with the human as X, is modelled.
- Saving the score to localStorage and the confetti effect are not modelled
  because they are I/O (src/components/TicTacToe.js:190-203). The score is
  held in the game state.
- The `setTimeout` delays are left out, and each handler runs as one
  atomic step:
  - Tic-tac-toe's computer move is a separate `MakeAIMove` call on the board
    that `HandleClick` hands over.
  - Draughts passes the turn at once. Clicks in the 500 ms before
    `isAIsTurn` is set are not modelled. A second player move could be made
    in that window.
  - The chess move delays are not modelled either.
- The draughts difficulty is not modelled. It only picks the computer's
  delay (500 ms or 1000 ms), so `DraughtsGame` has no field for it.
- chess.js is not part of this model. This covers move generation,
  `game.move`, FEN copies, the game-over and draw tests, `checkGameStatus`'s
  messages, and the chess click handlers
  (src/components/ChessBoard.js:61-98, src/Chess3D.jsx:56-76). The handlers'
  turn check, their selection and highlight state around the chess.js calls
  are not modelled. Legal moves, the board after a move and the game-over
  flag are inputs.
- Rendering is not modelled: the React components, three.js meshes, piece
  models, `getPieceIcon`, the square colours and App.js.
- Math.random is not modelled as a probability distribution. Any index in
  range is an allowed choice, so no claim of uniformity is made.
- TicTacToe.GetBestMove: the claim that minimax never loses is not proved.
  The model proves that the move maximizes the recursive minimax value, not
  that the resulting play is optimal against every opponent.
- ChessBoard.SquareId: positions outside the board (which JavaScript names
  with "undefined") are excluded by the precondition. Every caller passes an
  on-board position.
- Chess3D.CoordsFromSquare: JavaScript's NaN row is `None`. Dafny reads
  whole Unicode characters where JavaScript indexes UTF-16 code units, so
  for a name beginning with a character outside the Basic Multilingual
  Plane, such as an emoji, the model decodes a row where the source gets
  NaN. Callers pass only chess.js square names, which are ASCII. Only the
  second character is read, as `sq[1]` is.
- JavaScript numbers are doubles. Every quantity here is a small integer, so
  the model uses unbounded integers.
