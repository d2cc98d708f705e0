/**
 * The 3x3 board: its cells, the eight winning lines, win detection
 * (`calculateWinner`) and the copy-and-update a click performs
 * (`Board.handleClick`).
 */
module Board {
  import opened Wrappers

  /** The two marks; X always moves first. */
  datatype Mark = X | O

  /** One square of the grid: `null` in the game, or the mark placed on it. */
  datatype Cell = Empty | Marked(mark: Mark)

  /** The squares of the grid in row-major order; every board the game builds has nine. */
  type Squares = seq<Cell>

  /** A square index, 0 to 8. */
  type Index = i: int | 0 <= i < 9

  /** `Array(9).fill(null)`: the board a game starts from. */
  const EmptyBoard: Squares := [Empty, Empty, Empty, Empty, Empty, Empty, Empty, Empty, Empty]

  /** The winning triples in the order they are scanned: rows, columns, diagonals. */
  const Lines: seq<(Index, Index, Index)> :=
    [(0, 1, 2), (3, 4, 5), (6, 7, 8), (0, 3, 6), (1, 4, 7), (2, 5, 8), (0, 4, 8), (2, 4, 6)]

  /** The mark of the player whose turn it is. */
  function MarkFor(xIsNext: bool): Mark {
    if xIsNext then X else O
  }

  /** Line `k` holds three equal marks. */
  predicate LineWins(squares: Squares, k: nat)
    requires |squares| == 9 && k < |Lines|
  {
    var (a, b, c) := Lines[k];
    squares[a] != Empty && squares[a] == squares[b] && squares[a] == squares[c]
  }

  /** Every square holds a mark (`squares.every(square => square !== null)`). */
  predicate IsFull(squares: Squares) {
    forall j :: 0 <= j < |squares| ==> squares[j] != Empty
  }

  /**
   * The mark of the first winning line at position `k` or later in `Lines`,
   * or `None` if no line from `k` on is won.
   */
  function WinnerFrom(squares: Squares, k: nat): (r: Option<Mark>)
    requires |squares| == 9 && k <= |Lines|
    ensures r.None? <==> forall j :: k <= j < |Lines| ==> !LineWins(squares, j)
    ensures r.Some? ==>
      exists j :: k <= j < |Lines| && LineWins(squares, j) && squares[Lines[j].0] == Marked(r.value)
                  && forall j' :: k <= j' < j ==> !LineWins(squares, j')
    decreases |Lines| - k
  {
    if k == |Lines| then None
    else if LineWins(squares, k) then Some(squares[Lines[k].0].mark)
    else WinnerFrom(squares, k + 1)
  }

  /** The winner of a board: the mark of the first winning line in scan order. */
  function Winner(squares: Squares): Option<Mark>
    requires |squares| == 9
  {
    WinnerFrom(squares, 0)
  }

  /** `calculateWinner`: scans `Lines` in order and returns at the first line of three equal marks. */
  method CalculateWinner(squares: Squares) returns (r: Option<Mark>)
    requires |squares| == 9
    ensures r == Winner(squares)
  {
    for i := 0 to |Lines|
      invariant forall j :: 0 <= j < i ==> !LineWins(squares, j)
    {
      var (a, b, c) := Lines[i];
      if squares[a] != Empty && squares[a] == squares[b] && squares[a] == squares[c] {
        assert LineWins(squares, i);
        return Some(squares[a].mark);
      }
    }
    return None;
  }

  /**
   * `Board.handleClick(i)`: `None` when the click is ignored (the board is
   * already won or square `i` is taken), otherwise the copy of the board
   * with the mover's mark in square `i`, which is what is passed to `onPlay`.
   */
  function HandleClick(squares: Squares, xIsNext: bool, i: Index): (next: Option<Squares>)
    requires |squares| == 9
    ensures next.None? <==> Winner(squares).Some? || squares[i] != Empty
    ensures next.Some? ==>
      && |next.value| == 9
      && next.value[i] == Marked(MarkFor(xIsNext))
      && forall j :: 0 <= j < 9 && j != i ==> next.value[j] == squares[j]
  {
    if Winner(squares).Some? || squares[i] != Empty then None
    else Some(squares[i := Marked(MarkFor(xIsNext))])
  }

  /** The number of squares holding `c`. */
  function Count(s: Squares, c: Cell): (n: nat)
    ensures n <= |s|
  {
    if s == [] then 0 else (if s[0] == c then 1 else 0) + Count(s[1..], c)
  }

  lemma {:induction false} CountAppend(s: Squares, t: Squares, c: Cell)
    ensures Count(s + t, c) == Count(s, c) + Count(t, c)
  {
    if s == [] {
      assert s + t == t;
    } else {
      assert (s + t)[1..] == s[1..] + t;
      CountAppend(s[1..], t, c);
    }
  }

  lemma {:induction false} CountPositive(s: Squares, k: nat, c: Cell)
    requires k < |s| && s[k] == c
    ensures Count(s, c) >= 1
  {
    if k > 0 {
      CountPositive(s[1..], k - 1, c);
    }
  }

  /** Writing `v` into square `i` moves one square from the count of `s[i]` to the count of `v`. */
  lemma {:induction false} CountUpdate(s: Squares, i: nat, v: Cell, c: Cell)
    requires i < |s|
    ensures Count(s[i := v], c) == Count(s, c) - (if s[i] == c then 1 else 0) + (if v == c then 1 else 0)
  {
    if i > 0 {
      assert s[i := v][1..] == s[1..][i - 1 := v];
      CountUpdate(s[1..], i - 1, v, c);
    }
  }

  /** Every square is empty or holds one of the two marks. */
  lemma {:induction false} CountTotal(s: Squares)
    ensures Count(s, Empty) + Count(s, Marked(X)) + Count(s, Marked(O)) == |s|
  {
    if s != [] {
      CountTotal(s[1..]);
      match s[0]
      case Empty =>
      case Marked(m) => assert m == X || m == O;
    }
  }

  /** A board is full exactly when no square is empty. */
  lemma {:induction false} FullIffNoEmpty(s: Squares)
    ensures IsFull(s) <==> Count(s, Empty) == 0
  {
    if s != [] {
      FullIffNoEmpty(s[1..]);
      if s[0] != Empty {
        assert IsFull(s) <==> IsFull(s[1..]) by {
          if IsFull(s[1..]) {
            forall j | 0 <= j < |s| ensures s[j] != Empty {
              if j > 0 { assert s[j] == s[1..][j - 1]; }
            }
          }
        }
      }
    }
  }

  /** Each winning triple lists its squares in increasing order. */
  lemma LinesAscending(k: nat)
    requires k < |Lines|
    ensures Lines[k].0 < Lines[k].1 < Lines[k].2
  {
    assert k in {0, 1, 2, 3, 4, 5, 6, 7};
  }

  /** Three squares holding `c` make a count of at least three. */
  lemma CountThree(s: Squares, a: nat, b: nat, d: nat, c: Cell)
    requires a < b < d < |s| && s[a] == c && s[b] == c && s[d] == c
    ensures Count(s, c) >= 3
  {
    assert s[..b] + s[b..d] == s[..d];
    assert s == s[..d] + s[d..];
    CountAppend(s[..b] + s[b..d], s[d..], c);
    CountAppend(s[..b], s[b..d], c);
    CountPositive(s[..b], a, c);
    CountPositive(s[b..d], 0, c);
    CountPositive(s[d..], 0, c);
  }

  /** The winning mark stands on at least three squares. */
  lemma WinnerHasThreeMarks(s: Squares)
    requires |s| == 9 && Winner(s).Some?
    ensures Count(s, Marked(Winner(s).value)) >= 3
  {
    var c := Marked(Winner(s).value);
    var j :| 0 <= j < |Lines| && LineWins(s, j) && s[Lines[j].0] == c;
    LinesAscending(j);
    CountThree(s, Lines[j].0, Lines[j].1, Lines[j].2, c);
  }

  /** A board with fewer than three marks on it has no winner. */
  lemma FewMarksNoWinner(s: Squares)
    requires |s| == 9 && Count(s, Marked(X)) + Count(s, Marked(O)) < 3
    ensures Winner(s) == None
  {
    if Winner(s).Some? {
      WinnerHasThreeMarks(s);
      match Winner(s).value
      case X =>
      case O =>
    }
  }

  /** Marks are never taken off, so a won board stays won however many marks are added. */
  lemma WonStaysWon(b: Squares, b': Squares)
    requires |b| == 9 && |b'| == 9
    requires forall j :: 0 <= j < 9 && b[j] != Empty ==> b'[j] == b[j]
    requires Winner(b).Some?
    ensures Winner(b').Some?
  {
    var j :| 0 <= j < |Lines| && LineWins(b, j);
    assert LineWins(b', j);
  }

  /** An accepted click fills one empty square with the mover's mark. */
  lemma HandleClickCounts(squares: Squares, xIsNext: bool, i: Index)
    requires |squares| == 9 && HandleClick(squares, xIsNext, i).Some?
    ensures var next := HandleClick(squares, xIsNext, i).value;
      && Count(next, Empty) == Count(squares, Empty) - 1
      && Count(next, Marked(MarkFor(xIsNext))) == Count(squares, Marked(MarkFor(xIsNext))) + 1
      && Count(next, Marked(MarkFor(!xIsNext))) == Count(squares, Marked(MarkFor(!xIsNext)))
  {
    var m := Marked(MarkFor(xIsNext));
    assert HandleClick(squares, xIsNext, i).value == squares[i := m];
    CountUpdate(squares, i, m, Empty);
    CountUpdate(squares, i, m, m);
    CountUpdate(squares, i, m, Marked(MarkFor(!xIsNext)));
  }
}
