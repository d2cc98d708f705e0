# Tic-Tac-Toe game state, modelled in Dafny

This project models the game logic of a browser Tic-Tac-Toe game
(`My-Game/src/App.jsx`): two players enter their names, X and O take turns
clicking squares of a 3x3 board, and the game detects a win or a draw and
offers a restart. Everything else in that file is rendering.

The model has four modules:

- `Board` (`board.dfy`): marks, cells, the eight winning lines,
  `calculateWinner` and `Board.handleClick`. `Winner` is the specification:
  the mark of the first line, in the order the lines are listed, whose three
  cells hold the same mark. `CalculateWinner` is the source's loop with early
  return, proved equal to it. `HandleClick` is the click's copy-and-update.
  It returns `None` when the click is ignored. Otherwise it returns the new
  board that is passed to `onPlay`.
- `Names` (`names.dfy`): JavaScript's `String.prototype.trim` over the
  ECMAScript white-space and line-terminator characters, and the name check
  made by `handleStartGame`.
- `TicTacToe` (`game.dfy`): the `Game` component as a class. It has one field
  per `useState` cell and one method per handler. `Click` is the board's
  `handleClick` wired to `handlePlay`, as the component tree does it. Two
  invariants are kept:
  - `Valid` is kept by every method, including a direct `HandlePlay` with any
    board. It says the history is non-empty, starts with the empty board and
    holds nine-cell boards, and `currentMove < |history|`.
  - `Consistent` is kept by play through clicks. It says the history is a
    click-by-click game from the empty board (`PlayedFrom`), X moves on even
    moves, and `winner`, `isDraw` and `isGameOver` describe the current board.
  Lemmas about click-built histories follow from these: the mark counts after
  n moves, at most ten boards, no winner before the fifth move, and no move
  after a decided board.
- `Scenarios` (`scenarios.dfy`): client methods that play whole games through
  the class's contracts. Alice wins on the top row, a game ends in a draw, a
  click on a taken square is ignored, and a blank name is rejected.

Each handler of the source reads the state as it was before its own setter
calls (closure values). The methods therefore compute every new field from
the old state, and each handler is one atomic transition.

The model follows the code as written:

- `restartGame` keeps `playerX` and `playerO`. It does not clear them.
- `handleStartGame` checks the trimmed names but keeps the raw, untrimmed
  text. It sets only `gameStarted`. It does not reset the board, because
  only `restartGame` and the initial state do that.
- `handlePlay` sets `winner`, `isDraw` and `isGameOver` only when the new
  board is decided. Otherwise it leaves them as they were. It does not
  recompute them.

## Model

| member | source | states |
|---|---|---|
| `Board.WinnerFrom` | My-Game/src/App.jsx:173-191 | the result is `None` exactly when no line from position `k` on holds three equal marks; otherwise it is the mark of the first such line in the listed order |
| `Board.CalculateWinner` | My-Game/src/App.jsx:184-190 | the scan with early return yields the mark of the first winning line, or `None` when no line wins (equal to `Winner`) |
| `Board.WinnerHasThreeMarks` | My-Game/src/App.jsx:185-187 | a winning mark stands on at least three squares |
| `Board.FewMarksNoWinner` | My-Game/src/App.jsx:173-191 | a board with fewer than three marks has no winner |
| `Board.WonStaysWon` | My-Game/src/App.jsx:173-191 | a won board stays won when marks are only added (the first winning line, and so the winning mark, may change) |
| `Board.FullIffNoEmpty` | My-Game/src/App.jsx:70 | `IsFull`, the `every(square => square !== null)` test, holds exactly when no square is empty |
| `Board.HandleClick` | My-Game/src/App.jsx:16-23 | the click is ignored exactly when the board has a winner or square `i` is taken; otherwise the new board has the mover's mark at `i` and equals the old board everywhere else |
| `Board.HandleClickCounts` | My-Game/src/App.jsx:20-21 | an accepted click turns one empty square into one more mark of the mover and leaves the other mark's count alone |
| `Names.TrimStart` | My-Game/src/App.jsx:89 | the result is a suffix of the name; everything removed is white space; a non-empty result starts with a non-white-space character |
| `Names.TrimEnd` | My-Game/src/App.jsx:89 | the result is a prefix of the name; everything removed is white space; a non-empty result ends with a non-white-space character |
| `Names.Trim` | My-Game/src/App.jsx:89 | `trim` never lengthens a name, and a non-empty result starts and ends with a non-white-space character |
| `Names.TrimIsInfix` | My-Game/src/App.jsx:89 | `trim` removes a run of white space at each end and nothing else; a non-empty result starts and ends with a non-white-space character |
| `Names.TrimEmptyIff` | My-Game/src/App.jsx:89 | a trimmed name is empty exactly when every character is white space |
| `Names.NamesValidIff` | My-Game/src/App.jsx:89 | the start check passes exactly when both names contain a non-white-space character |
| `TicTacToe.MoveCounts` | My-Game/src/App.jsx:16-23 | after n clicks from the empty board, X has (n+1)/2 marks, O has n/2, and 9-n squares are empty |
| `TicTacToe.HistoryBound` | My-Game/src/App.jsx:61-63 | a history built by clicks holds at most ten boards |
| `TicTacToe.NoWinnerBeforeFifthMove` | My-Game/src/App.jsx:66-69 | no board reached in four moves or fewer has a winner |
| `TicTacToe.OnlyLastBoardEnds` | My-Game/src/App.jsx:17-19 | in a history built by clicks, every board but the last is neither won nor full |
| `TicTacToe.ClickOutcome` | My-Game/src/App.jsx:17-19 | an accepted click is made on a board that is neither won nor full |
| `TicTacToe.PlayExtends` | My-Game/src/App.jsx:61 | appending the board of an accepted click to a click-built history keeps it click-built |
| `TicTacToe.ClickKeepsReached` | My-Game/src/App.jsx:60-73 | in a reached state an accepted click happens while no flag is set, and leads to a reached state whose flags describe the new board |
| `TicTacToe.Game.constructor` | My-Game/src/App.jsx:47-55 | the initial values of the nine state cells; the state is valid and consistent |
| `TicTacToe.Game.CurrentSquares` | My-Game/src/App.jsx:57 | the displayed board is a nine-square board of the history |
| `TicTacToe.Game.HandlePlay` | My-Game/src/App.jsx:60-74 | the history becomes the old history up to `currentMove` followed by the new board; `currentMove` moves to its last index, so the history grows to `currentMove + 2` boards; the turn flips; an X win records X's name, an O win O's name, and both set `isGameOver`; a full board with no winner sets `isDraw` and `isGameOver`; otherwise the outcome flags keep their values; the invariant is kept |
| `TicTacToe.Game.Click` | My-Game/src/App.jsx:16-23 | an ignored click changes nothing; an accepted one has exactly the effect of `HandlePlay` on the new board; a consistent state stays consistent |
| `TicTacToe.Game.RestartGame` | My-Game/src/App.jsx:77-85 | the history becomes one empty board, the move index 0, no winner, no draw, not over, X to move, not started; the names are unchanged |
| `TicTacToe.Game.HandleStartGame` | My-Game/src/App.jsx:88-94 | `gameStarted` becomes true when both trimmed names are non-empty; otherwise nothing changes |
| `TicTacToe.Game.HandlePlayerNameChange` | My-Game/src/App.jsx:97-103 | the typed text, untrimmed, becomes X's or O's name; nothing else changes |

## Left out

- Rendering: the `Square` component, the board rows, the status line and the name, win and draw dialogs (`My-Game/src/App.jsx`, lines 5-11, 25-43 and 105-169). One consequence: the board is only on screen once the game has started. The model does not require `gameStarted` for a click, just as `handleClick` itself does not check it.
- The `alert` shown when a name is blank. A rejected start is modelled as "state unchanged".
- React's asynchronous, batched state updates. Each handler is one atomic transition that reads the state from before the call.
- `My-Game/src/main.jsx` (mounting the component) and the CSS imports.
- The copy made by `squares.slice()`. Boards are values here, so the old board cannot be modified. The model does not capture aliasing of the array.
- Player names are sequences of Unicode scalar values, not UTF-16 code units. This makes no difference to trimming, because every white-space character is a single code unit.
- Only squares 0 to 8 are ever clicked, and every board has nine cells. `HandleClick` takes an index from 0 to 8, and `HandlePlay` takes a nine-cell board.
