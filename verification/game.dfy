/**
 * The `Game` component's state machine: the move history, the turn, the
 * outcome flags and the player names, with the transitions `handlePlay`,
 * `restartGame`, `handleStartGame` and `handlePlayerNameChange`, and the
 * click that the `Board` component wires to `handlePlay`.
 */
module TicTacToe {
  import opened Wrappers
  import opened Board
  import opened Names

  /** `after` is the board a click on some square of `before` produces when it is `xIsNext`'s turn. */
  ghost predicate IsPlay(before: Squares, after: Squares, xIsNext: bool)
    requires |before| == 9
  {
    exists i: Index :: HandleClick(before, xIsNext, i) == Some(after)
  }

  /**
   * `h` is a history produced by clicking alone: it starts from the empty
   * board and every board follows from the one before by a click of X (on
   * even moves) or O (on odd moves).
   */
  ghost predicate PlayedFrom(h: seq<Squares>) {
    && |h| > 0
    && h[0] == EmptyBoard
    && (forall k :: 0 <= k < |h| ==> |h[k]| == 9)
    && (forall k :: 0 <= k < |h| - 1 ==> IsPlay(h[k], h[k + 1], k % 2 == 0))
  }

  lemma CountEmptyBoard()
    ensures Count(EmptyBoard, Empty) == 9
    ensures Count(EmptyBoard, Marked(X)) == 0 && Count(EmptyBoard, Marked(O)) == 0
  {
    CountTotal(EmptyBoard);
  }

  /**
   * After `n` clicks X has placed (n + 1) / 2 marks, O has placed n / 2, and
   * 9 - n squares are empty.
   */
  lemma {:induction false} MoveCounts(h: seq<Squares>)
    requires PlayedFrom(h)
    ensures var n, b := |h| - 1, h[|h| - 1];
      && Count(b, Marked(X)) == (n + 1) / 2
      && Count(b, Marked(O)) == n / 2
      && Count(b, Empty) == 9 - n
  {
    if |h| == 1 {
      CountEmptyBoard();
    } else {
      var n := |h| - 1;
      var p := h[..n];
      assert PlayedFrom(p) by {
        forall k | 0 <= k < |p| - 1 ensures IsPlay(p[k], p[k + 1], k % 2 == 0) {
          assert IsPlay(h[k], h[k + 1], k % 2 == 0);
        }
      }
      MoveCounts(p);
      assert IsPlay(h[n - 1], h[n], (n - 1) % 2 == 0);
      var i: Index :| HandleClick(h[n - 1], (n - 1) % 2 == 0, i) == Some(h[n]);
      HandleClickCounts(h[n - 1], (n - 1) % 2 == 0, i);
    }
  }

  /**
   * A state that clicks from the empty board reach: the current board is the
   * last one, the history is a sequence of clicks, X moves on even moves, and
   * the outcome flags describe the current board.
   */
  ghost predicate ReachedByClicks(h: seq<Squares>, currentMove: nat, xIsNext: bool,
                                  hasWinner: bool, isDraw: bool, isGameOver: bool)
  {
    && PlayedFrom(h)
    && currentMove == |h| - 1
    && xIsNext == (currentMove % 2 == 0)
    && hasWinner == Winner(h[currentMove]).Some?
    && isDraw == (Winner(h[currentMove]).None? && IsFull(h[currentMove]))
    && isGameOver == (Winner(h[currentMove]).Some? || IsFull(h[currentMove]))
  }

  /**
   * An accepted click in a reached state is made before the game is decided,
   * and leads to a reached state whose flags describe the new board.
   */
  lemma ClickKeepsReached(h: seq<Squares>, currentMove: nat, xIsNext: bool,
                          hasWinner: bool, isDraw: bool, isGameOver: bool, i: Index, next: Squares)
    requires ReachedByClicks(h, currentMove, xIsNext, hasWinner, isDraw, isGameOver)
    requires HandleClick(h[currentMove], xIsNext, i) == Some(next)
    ensures !hasWinner && !isDraw && !isGameOver
    ensures ReachedByClicks(h + [next], currentMove + 1, !xIsNext, Winner(next).Some?,
                            Winner(next).None? && IsFull(next), Winner(next).Some? || IsFull(next))
  {
    ClickOutcome(h[currentMove], xIsNext, i);
    PlayExtends(h, next, i);
    assert (h + [next])[currentMove + 1] == next;
  }

  /** A game never runs past nine moves, so the history holds at most ten boards. */
  lemma HistoryBound(h: seq<Squares>)
    requires PlayedFrom(h)
    ensures |h| <= 10
  {
    MoveCounts(h);
  }

  /** Nobody can have won before the fifth move. */
  lemma NoWinnerBeforeFifthMove(h: seq<Squares>)
    requires PlayedFrom(h) && |h| <= 5
    ensures Winner(h[|h| - 1]) == None
  {
    MoveCounts(h);
    if Winner(h[|h| - 1]).Some? {
      WinnerHasThreeMarks(h[|h| - 1]);
      match Winner(h[|h| - 1]).value
      case X =>
      case O =>
    }
  }

  /**
   * No click is accepted on a won or full board, so in a click-built history
   * every board but the last is neither won nor full.
   */
  lemma OnlyLastBoardEnds(h: seq<Squares>)
    requires PlayedFrom(h)
    ensures forall k :: 0 <= k < |h| - 1 ==> Winner(h[k]) == None && !IsFull(h[k])
  {
    forall k | 0 <= k < |h| - 1 ensures Winner(h[k]) == None && !IsFull(h[k]) {
      assert IsPlay(h[k], h[k + 1], k % 2 == 0);
      var i: Index :| HandleClick(h[k], k % 2 == 0, i) == Some(h[k + 1]);
      ClickOutcome(h[k], k % 2 == 0, i);
    }
  }

  /** Cutting the history after `currentMove` and appending a board keeps its first board and nine-square boards. */
  lemma BranchKeepsBoards(h: seq<Squares>, currentMove: nat, next: Squares)
    requires currentMove < |h| && |next| == 9
    requires forall k :: 0 <= k < |h| ==> |h[k]| == 9
    ensures var h' := h[..currentMove + 1] + [next];
      && |h'| == currentMove + 2 && h'[0] == h[0]
      && forall k :: 0 <= k < |h'| ==> |h'[k]| == 9
  {
    var h' := h[..currentMove + 1] + [next];
    forall k | 0 <= k < |h'| ensures |h'[k]| == 9 {
      if k <= currentMove { assert h'[k] == h[k]; }
    }
  }

  /** The state of the `Game` component: one field per `useState` cell. */
  class Game {
    var history: seq<Squares>
    var currentMove: nat
    /** `null`, or the name of the player who won. */
    var winner: Option<string>
    var isDraw: bool
    var isGameOver: bool
    var playerX: string
    var playerO: string
    var xIsNext: bool
    var gameStarted: bool

    /**
     * What every transition keeps: the history is not empty, starts from the
     * empty board, holds nine-square boards, and `currentMove` indexes it.
     */
    ghost predicate Valid()
      reads this`history, this`currentMove
    {
      && |history| > 0
      && currentMove < |history|
      && history[0] == EmptyBoard
      && forall k :: 0 <= k < |history| ==> |history[k]| == 9
    }

    /**
     * What play through clicks keeps on top of `Valid`: see `ReachedByClicks`.
     */
    ghost predicate Consistent()
      reads this`history, this`currentMove, this`xIsNext, this`winner, this`isDraw, this`isGameOver
    {
      Valid() && ReachedByClicks(history, currentMove, xIsNext, winner.Some?, isDraw, isGameOver)
    }

    /** The initial values of the nine state cells. */
    constructor ()
      ensures Valid() && Consistent()
      ensures history == [EmptyBoard] && currentMove == 0
      ensures winner == None && !isDraw && !isGameOver
      ensures playerX == "" && playerO == ""
      ensures xIsNext && !gameStarted
    {
      history := [EmptyBoard];
      currentMove := 0;
      winner := None;
      isDraw := false;
      isGameOver := false;
      playerX := "";
      playerO := "";
      xIsNext := true;
      gameStarted := false;
      new;
      StartIsConsistent();
    }

    /** `history[currentMove]`: the board on display. */
    function CurrentSquares(): (s: Squares)
      reads this`history, this`currentMove
      requires Valid()
      ensures |s| == 9 && s in history
    {
      history[currentMove]
    }

    /**
     * The effect of `handlePlay(nextSquares)`, every part computed from the
     * state before the call: the history up to the current move followed by
     * `nextSquares`, the move index advanced onto it, the turn flipped, and
     * the outcome of `nextSquares` recorded.
     */
    twostate predicate PlayApplied(nextSquares: Squares)
      requires |nextSquares| == 9
      reads this
    {
      && old(currentMove) < |old(history)|
      && history == old(history)[..old(currentMove) + 1] + [nextSquares]
      && currentMove == old(currentMove) + 1
      && xIsNext == !old(xIsNext)
      && playerX == old(playerX) && playerO == old(playerO) && gameStarted == old(gameStarted)
      && match Winner(nextSquares) {
        case Some(m) =>
          && winner == Some(if m == X then old(playerX) else old(playerO))
          && isGameOver
          && isDraw == old(isDraw)
        case None =>
          && winner == old(winner)
          && if IsFull(nextSquares) then isDraw && isGameOver
             else isDraw == old(isDraw) && isGameOver == old(isGameOver)
      }
    }

    /** `handlePlay`, the `onPlay` callback of the board. */
    method HandlePlay(nextSquares: Squares)
      requires Valid() && |nextSquares| == 9
      modifies this
      ensures Valid() && PlayApplied(nextSquares)
      ensures |history| == old(currentMove) + 2 && currentMove == |history| - 1
    {
      var nextHistory := history[..currentMove + 1] + [nextSquares];
      BranchKeepsBoards(history, currentMove, nextSquares);
      history := nextHistory;
      currentMove := |nextHistory| - 1;
      xIsNext := !xIsNext;

      var gameWinner := CalculateWinner(nextSquares);
      if gameWinner.Some? {
        winner := Some(if gameWinner.value == X then playerX else playerO);
        isGameOver := true;
      } else if IsFull(nextSquares) {
        isDraw := true;
        isGameOver := true;
      }
    }

    /**
     * A click on square `i` of the displayed board: `Board.handleClick` with
     * the board's `squares` and `xIsNext` props, calling `handlePlay` when the
     * click is accepted and leaving everything as it was otherwise.
     */
    method Click(i: Index)
      requires Valid()
      modifies this
      ensures Valid()
      ensures var next := HandleClick(old(CurrentSquares()), old(xIsNext), i);
        if next.None? then unchanged(this) else PlayApplied(next.value)
      ensures old(Consistent()) ==> Consistent()
    {
      ghost var wasConsistent := Consistent();
      var squares := CurrentSquares();
      var next := HandleClick(squares, xIsNext, i);
      if next.Some? {
        if wasConsistent {
          ClickKeepsReached(history, currentMove, xIsNext, winner.Some?, isDraw, isGameOver, i, next.value);
          assert history[..currentMove + 1] == history;
        }
        HandlePlay(next.value);
      }
    }

    /** `restartGame`: back to the name form with a fresh board; the names stay. */
    method RestartGame()
      modifies this
      ensures Valid() && Consistent()
      ensures history == [EmptyBoard] && currentMove == 0
      ensures winner == None && !isDraw && !isGameOver
      ensures xIsNext && !gameStarted
      ensures playerX == old(playerX) && playerO == old(playerO)
    {
      history := [EmptyBoard];
      currentMove := 0;
      winner := None;
      isDraw := false;
      isGameOver := false;
      xIsNext := true;
      gameStarted := false;
      StartIsConsistent();
    }

    /**
     * `handleStartGame`: starts the game when both names survive trimming;
     * otherwise the state is left as it was (the alert is not modelled).
     */
    method HandleStartGame()
      modifies this`gameStarted
      ensures if NamesValid(playerX, playerO) then gameStarted else gameStarted == old(gameStarted)
      ensures old(Valid()) ==> Valid()
      ensures old(Consistent()) ==> Consistent()
    {
      if NamesValid(playerX, playerO) {
        gameStarted := true;
      }
      BoardStateUnchanged();
    }

    /** `handlePlayerNameChange`: stores the typed text, untrimmed, as X's or O's name. */
    method HandlePlayerNameChange(value: string, player: Mark)
      modifies this`playerX, this`playerO
      ensures player == X ==> playerX == value && playerO == old(playerO)
      ensures player == O ==> playerO == value && playerX == old(playerX)
      ensures old(Valid()) ==> Valid()
      ensures old(Consistent()) ==> Consistent()
    {
      if player == X {
        playerX := value;
      } else {
        playerO := value;
      }
      BoardStateUnchanged();
    }

    /** The invariants do not depend on the names or on `gameStarted`. */
    twostate lemma BoardStateUnchanged()
      requires unchanged(this`history, this`currentMove, this`xIsNext, this`winner, this`isDraw, this`isGameOver)
      ensures old(Valid()) ==> Valid()
      ensures old(Consistent()) ==> Consistent()
    {
    }

    lemma StartIsConsistent()
      requires history == [EmptyBoard] && currentMove == 0
      requires winner == None && !isDraw && !isGameOver && xIsNext
      ensures Valid() && Consistent()
    {
      FewMarksNoWinner(EmptyBoard);
      CountEmptyBoard();
      FullIffNoEmpty(EmptyBoard);
    }
  }

  /** Appending the board of an accepted click to a click-built history keeps it click-built. */
  lemma PlayExtends(h: seq<Squares>, next: Squares, i: Index)
    requires PlayedFrom(h)
    requires HandleClick(h[|h| - 1], (|h| - 1) % 2 == 0, i) == Some(next)
    ensures PlayedFrom(h + [next])
  {
    var h' := h + [next];
    forall k | 0 <= k < |h'| - 1 ensures IsPlay(h'[k], h'[k + 1], k % 2 == 0) {
      if k < |h| - 1 {
        assert IsPlay(h[k], h[k + 1], k % 2 == 0);
      }
    }
  }

  /** An accepted click is made on a board that is neither won nor full. */
  lemma ClickOutcome(squares: Squares, xIsNext: bool, i: Index)
    requires |squares| == 9 && HandleClick(squares, xIsNext, i).Some?
    ensures Winner(squares) == None && !IsFull(squares)
  {
  }
}
