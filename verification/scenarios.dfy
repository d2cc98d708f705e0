/**
 * Client code: games played through the `Game` interface alone, showing what
 * its contracts let a caller conclude.
 */
module Scenarios {
  import opened Wrappers
  import opened Board
  import opened Names
  import opened TicTacToe

  /** A fresh game in which Alice (X) and Bob (O) have entered their names and pressed start. */
  method AliceAndBob() returns (g: Game)
    ensures fresh(g) && g.Consistent()
    ensures g.history == [EmptyBoard] && g.gameStarted
    ensures g.winner == None && !g.isDraw && !g.isGameOver
    ensures g.playerX == "Alice" && g.playerO == "Bob"
  {
    g := new Game();
    g.HandlePlayerNameChange("Alice", X);
    g.HandlePlayerNameChange("Bob", O);
    g.HandleStartGame();
  }

  /**
   * A click on an empty square that leaves the board undecided: the mark
   * goes down, the turn passes and the winner stays unset.
   */
  method Move(g: Game, i: Index)
    requires g.Valid() && g.CurrentSquares()[i] == Empty && Winner(g.CurrentSquares()) == None
    requires Winner(g.CurrentSquares()[i := Marked(MarkFor(g.xIsNext))]) == None
    modifies g
    ensures g.Valid()
    ensures g.CurrentSquares() == old(g.CurrentSquares())[i := Marked(MarkFor(old(g.xIsNext)))]
    ensures g.xIsNext == !old(g.xIsNext) && g.winner == old(g.winner)
    ensures g.isDraw == (old(g.isDraw) || IsFull(g.CurrentSquares()))
    ensures g.playerX == old(g.playerX) && g.playerO == old(g.playerO)
  {
    g.Click(i);
  }

  /** A board whose marks all agree with an undecided board is undecided. */
  lemma PartOfUndecided(b: Squares, full: Squares)
    requires |b| == 9 && |full| == 9 && Winner(full) == None
    requires forall j :: 0 <= j < 9 && b[j] != Empty ==> b[j] == full[j]
    ensures Winner(b) == None
  {
    if Winner(b).Some? {
      WonStaysWon(b, full);
    }
  }

  /** The board before Alice's last move: X X _ / _ O O / _ _ _. */
  const TopRowThreat: Squares :=
    [Marked(X), Marked(X), Empty, Empty, Marked(O), Marked(O), Empty, Empty, Empty]

  /** Every board on the way to `TopRowThreat` is undecided and not full. */
  lemma OnTheWayToThreat(b: Squares)
    requires |b| == 9 && forall j :: 0 <= j < 9 && b[j] != Empty ==> b[j] == TopRowThreat[j]
    ensures Winner(b) == None && !IsFull(b)
  {
    assert b[8] == Empty;
    assert Winner(TopRowThreat) == None;
    PartOfUndecided(b, TopRowThreat);
  }

  /** X (Alice) takes the top row while O (Bob) answers at 4 and 5: Alice wins. */
  method AliceWinsTopRow() {
    var g := AliceAndBob();
    OnTheWayToThreat(g.CurrentSquares());
    OnTheWayToThreat(g.CurrentSquares()[0 := Marked(X)]);
    Move(g, 0);
    OnTheWayToThreat(g.CurrentSquares()[4 := Marked(O)]);
    Move(g, 4);
    assert g.CurrentSquares() == [Marked(X), Empty, Empty, Empty, Marked(O), Empty, Empty, Empty, Empty];
    AliceThreatens(g);
  }

  /** Moves three and four of `AliceWinsTopRow`. */
  method AliceThreatens(g: Game)
    requires g.Valid() && g.xIsNext && !g.isDraw && g.playerX == "Alice"
    requires g.CurrentSquares() == [Marked(X), Empty, Empty, Empty, Marked(O), Empty, Empty, Empty, Empty]
    modifies g
  {
    OnTheWayToThreat(g.CurrentSquares());
    OnTheWayToThreat(g.CurrentSquares()[1 := Marked(X)]);
    Move(g, 1);
    OnTheWayToThreat(g.CurrentSquares()[5 := Marked(O)]);
    Move(g, 5);
    assert g.CurrentSquares() == TopRowThreat;
    AliceCompletesTopRow(g);
  }

  /** The fifth move of `AliceWinsTopRow`. */
  method AliceCompletesTopRow(g: Game)
    requires g.Valid() && g.xIsNext && !g.isDraw && g.playerX == "Alice" && g.CurrentSquares() == TopRowThreat
    modifies g
  {
    OnTheWayToThreat(g.CurrentSquares());
    g.Click(2);
    assert LineWins(g.CurrentSquares(), 0);
    assert g.winner == Some("Alice") && g.isGameOver && !g.isDraw;
    DecidedGame(g);
  }

  /** Once a board is won, clicks are ignored until a restart, which keeps the names. */
  method DecidedGame(g: Game)
    requires g.Valid() && Winner(g.CurrentSquares()).Some?
    modifies g
  {
    var before := g.history;
    g.Click(8);
    assert g.history == before;
    g.RestartGame();
    assert g.CurrentSquares() == EmptyBoard && g.xIsNext && !g.gameStarted && !g.isGameOver;
    assert g.playerX == old(g.playerX);
  }

  /** The full board of a drawn game: X O X / X O O / O X X. */
  const DrawBoard: Squares :=
    [Marked(X), Marked(O), Marked(X), Marked(X), Marked(O), Marked(O), Marked(O), Marked(X), Marked(X)]

  /** Every board on the way to `DrawBoard` is undecided. */
  lemma OnTheWayToDraw(b: Squares)
    requires |b| == 9 && forall j :: 0 <= j < 9 && b[j] != Empty ==> b[j] == DrawBoard[j]
    ensures Winner(b) == None
  {
    assert Winner(DrawBoard) == None;
    PartOfUndecided(b, DrawBoard);
  }

  /** X at 0, 2, 3, 7, 8 and O at 1, 4, 5, 6 fill the board without a line: a draw. */
  method DrawnGame() {
    var g := AliceAndBob();
    OnTheWayToDraw(g.CurrentSquares());
    OnTheWayToDraw(g.CurrentSquares()[0 := Marked(X)]);
    Move(g, 0);
    OnTheWayToDraw(g.CurrentSquares()[1 := Marked(O)]);
    Move(g, 1);
    assert g.CurrentSquares() == [Marked(X), Marked(O), Empty, Empty, Empty, Empty, Empty, Empty, Empty];
    DrawMiddle(g);
  }

  /** Moves three to six of `DrawnGame`. */
  method DrawMiddle(g: Game)
    requires g.Valid() && g.xIsNext && g.winner == None
    requires g.CurrentSquares() == [Marked(X), Marked(O), Empty, Empty, Empty, Empty, Empty, Empty, Empty]
    modifies g
  {
    OnTheWayToDraw(g.CurrentSquares());
    OnTheWayToDraw(g.CurrentSquares()[2 := Marked(X)]);
    Move(g, 2);
    OnTheWayToDraw(g.CurrentSquares()[4 := Marked(O)]);
    Move(g, 4);
    assert g.CurrentSquares() == [Marked(X), Marked(O), Marked(X), Empty, Marked(O), Empty, Empty, Empty, Empty];
    DrawLate(g);
  }

  /** Moves five and six of `DrawnGame`. */
  method DrawLate(g: Game)
    requires g.Valid() && g.xIsNext && g.winner == None
    requires g.CurrentSquares() == [Marked(X), Marked(O), Marked(X), Empty, Marked(O), Empty, Empty, Empty, Empty]
    modifies g
  {
    OnTheWayToDraw(g.CurrentSquares());
    OnTheWayToDraw(g.CurrentSquares()[3 := Marked(X)]);
    Move(g, 3);
    OnTheWayToDraw(g.CurrentSquares()[5 := Marked(O)]);
    Move(g, 5);
    assert g.CurrentSquares() == [Marked(X), Marked(O), Marked(X), Marked(X), Marked(O), Marked(O), Empty, Empty, Empty];
    DrawEnd(g);
  }

  /** Moves seven and eight of `DrawnGame`. */
  method DrawEnd(g: Game)
    requires g.Valid() && g.xIsNext && g.winner == None
    requires g.CurrentSquares() == [Marked(X), Marked(O), Marked(X), Marked(X), Marked(O), Marked(O), Empty, Empty, Empty]
    modifies g
  {
    OnTheWayToDraw(g.CurrentSquares());
    OnTheWayToDraw(g.CurrentSquares()[7 := Marked(X)]);
    Move(g, 7);
    OnTheWayToDraw(g.CurrentSquares()[6 := Marked(O)]);
    Move(g, 6);
    assert g.CurrentSquares() == [Marked(X), Marked(O), Marked(X), Marked(X), Marked(O), Marked(O), Marked(O), Marked(X), Empty];
    DrawLastMove(g);
  }

  /** The ninth move of `DrawnGame` fills the board without a line. */
  method DrawLastMove(g: Game)
    requires g.Valid() && g.xIsNext && g.winner == None
    requires g.CurrentSquares() == [Marked(X), Marked(O), Marked(X), Marked(X), Marked(O), Marked(O), Marked(O), Marked(X), Empty]
    modifies g
  {
    OnTheWayToDraw(g.CurrentSquares());
    g.Click(8);
    assert g.CurrentSquares() == DrawBoard;
    OnTheWayToDraw(g.CurrentSquares());
    assert g.isDraw && g.isGameOver && g.winner == None;
  }

  /** A click on a taken square changes nothing. */
  method TakenSquareIgnored() {
    var g := new Game();
    g.Click(4);
    var before, turn := g.history, g.xIsNext;
    g.Click(4);
    assert g.history == before && g.xIsNext == turn && g.currentMove == 1;
  }

  /** A blank name for X keeps the name form up. */
  method BlankNameRejected() {
    var g := new Game();
    g.HandlePlayerNameChange(" ", X);
    g.HandlePlayerNameChange("Bob", O);
    g.HandleStartGame();
    assert !g.gameStarted;
  }
}
