/**
  The tic-tac-toe board model: the empty board, whose turn it is, the legal
  moves, applying a move (with its two error cases), and the winner / terminal /
  utility tests over the eight lines of the board.

  A board is an immutable 3×3 grid, so every move produces a fresh board and
  the board it was applied to is left untouched.
 */
module TicTacToe {

  /** The two players' marks. X always moves first. */
  datatype Mark = X | O

  /** A cell is either empty or holds one player's mark. */
  datatype Cell = Empty | Marked(mark: Mark)

  datatype Option<+T> = None | Some(value: T)

  /** A board: three rows of three cells, indexed `b[row][column]`. */
  type Board = b: seq<seq<Cell>> | |b| == 3 && forall i | 0 <= i < |b| :: |b[i]| == 3
    witness [[Empty, Empty, Empty], [Empty, Empty, Empty], [Empty, Empty, Empty]]

  /** A move: the coordinates (i, j) of the cell to mark. */
  datatype Action = Action(i: int, j: int)

  /** The two ways applying a move can fail. */
  datatype MoveError =
    | InvalidActionFormat  // a coordinate outside [0, 2]
    | CellOccupied         // the targeted cell already holds a mark

  datatype MoveResult = Moved(board: Board) | Failed(error: MoveError)

  function Other(m: Mark): Mark {
    if m == X then O else X
  }

  predicate InRange(a: Action) {
    0 <= a.i <= 2 && 0 <= a.j <= 2
  }

  function At(b: Board, a: Action): Cell
    requires InRange(a)
  {
    b[a.i][a.j]
  }

  /** Position of a cell in row-major order, 0 .. 8. */
  function Index(a: Action): int {
    3 * a.i + a.j
  }

  // ---------------------------------------------------------------------------
  // Initial state and turn

  function InitialState(): (b: Board)
    ensures forall a | InRange(a) :: At(b, a) == Empty
  {
    [[Empty, Empty, Empty], [Empty, Empty, Empty], [Empty, Empty, Empty]]
  }

  /** How often `c` occurs on the board, summed row by row. */
  function Count(b: Board, c: Cell): nat {
    multiset(b[0])[c] + multiset(b[1])[c] + multiset(b[2])[c]
  }

  /** The player to move: X when both have made equally many moves, O otherwise. */
  function Player(b: Board): (p: Mark)
    ensures p == X <==> Count(b, Marked(X)) == Count(b, Marked(O))
    ensures p == O <==> Count(b, Marked(X)) != Count(b, Marked(O))
  {
    var xCount := Count(b, Marked(X));
    var oCount := Count(b, Marked(O));
    if xCount == oCount then X else O
  }

  /**
    The mark counts of a board reached by alternating play from the empty
    board: X has made as many moves as O, or exactly one more.
   */
  predicate Balanced(b: Board) {
    Count(b, Marked(X)) == Count(b, Marked(O)) || Count(b, Marked(X)) == Count(b, Marked(O)) + 1
  }

  // ---------------------------------------------------------------------------
  // Legal moves

  /** The set of legal moves: every in-range cell that is empty. */
  function Actions(b: Board): (s: set<Action>)
    ensures forall a :: a in s <==> InRange(a) && At(b, a) == Empty
  {
    set i, j | 0 <= i < 3 && 0 <= j < 3 && b[i][j] == Empty :: Action(i, j)
  }

  /**
    The empty cells from (i, j) onwards in row-major order, the order of the
    nested loops that enumerate the legal moves.
   */
  function EmptyFrom(b: Board, i: nat, j: nat): (s: seq<Action>)
    requires (i < 3 && j < 3) || (i == 3 && j == 0)
    ensures forall n | 0 <= n < |s| :: InRange(s[n]) && At(b, s[n]) == Empty && Index(s[n]) >= 3 * i + j
    ensures forall m, n | 0 <= m < n < |s| :: Index(s[m]) < Index(s[n])
    decreases 9 - (3 * i + j)
  {
    if i == 3 then []
    else
      var rest := if j == 2 then EmptyFrom(b, i + 1, 0) else EmptyFrom(b, i, j + 1);
      if b[i][j] == Empty then [Action(i, j)] + rest else rest
  }

  /** The scan from (i, j) misses no empty cell at or after (i, j). */
  lemma {:induction false} EmptyFromComplete(b: Board, i: nat, j: nat, a: Action)
    requires (i < 3 && j < 3) || (i == 3 && j == 0)
    requires InRange(a) && Index(a) >= 3 * i + j && At(b, a) == Empty
    ensures a in EmptyFrom(b, i, j)
    decreases 9 - (3 * i + j)
  {
    if a != Action(i, j) {
      if j == 2 {
        EmptyFromComplete(b, i + 1, 0, a);
      } else {
        EmptyFromComplete(b, i, j + 1, a);
      }
    }
  }

  /**
    The legal moves as a sequence in row-major order. `Actions` is a set and
    fixes no iteration order; the search below iterates this sequence, so its
    tie-breaking is stated relative to row-major order.
   */
  function ActionOrder(b: Board): (s: seq<Action>)
    ensures forall a :: a in s <==> a in Actions(b)
    ensures forall m, n | 0 <= m < n < |s| :: Index(s[m]) < Index(s[n])
    ensures forall m, n | 0 <= m < n < |s| :: s[m] != s[n]
  {
    var s := EmptyFrom(b, 0, 0);
    assert forall a | InRange(a) && At(b, a) == Empty :: a in s by {
      forall a | InRange(a) && At(b, a) == Empty
        ensures a in s
      {
        EmptyFromComplete(b, 0, 0, a);
      }
    }
    s
  }

  // ---------------------------------------------------------------------------
  // Applying a move

  /**
    Marks cell (i, j) for the player to move. A coordinate outside [0, 2] is
    rejected before the board is looked at; an occupied cell is rejected next.
   */
  function Result(b: Board, a: Action): (r: MoveResult)
    ensures !InRange(a) ==> r == Failed(InvalidActionFormat)
    ensures InRange(a) && At(b, a) != Empty ==> r == Failed(CellOccupied)
    ensures r.Moved? <==> a in Actions(b)
    ensures r.Moved? ==> At(r.board, a) == Marked(Player(b))
    ensures r.Moved? ==> forall c | InRange(c) && c != a :: At(r.board, c) == At(b, c)
  {
    if !(0 <= a.i <= 2 && 0 <= a.j <= 2) then
      Failed(InvalidActionFormat)
    else if b[a.i][a.j] != Empty then
      Failed(CellOccupied)
    else
      var currentPlayer := Player(b);
      Moved(b[a.i := b[a.i][a.j := Marked(currentPlayer)]])
  }

  // ---------------------------------------------------------------------------
  // Winner, terminal, utility

  predicate RowAll(b: Board, i: nat, m: Mark)
    requires i < 3
  {
    b[i][0] == Marked(m) && b[i][1] == Marked(m) && b[i][2] == Marked(m)
  }

  predicate ColumnAll(b: Board, j: nat, m: Mark)
    requires j < 3
  {
    b[0][j] == Marked(m) && b[1][j] == Marked(m) && b[2][j] == Marked(m)
  }

  predicate DiagonalAll(b: Board, m: Mark) {
    b[0][0] == Marked(m) && b[1][1] == Marked(m) && b[2][2] == Marked(m)
  }

  predicate AntiDiagonalAll(b: Board, m: Mark) {
    b[0][2] == Marked(m) && b[1][1] == Marked(m) && b[2][0] == Marked(m)
  }

  /**
    The winner, found by scanning rows top to bottom (X before O in each row),
    then columns left to right (X before O), then the two diagonals (X on
    either diagonal before O on either).
   */
  function Winner(b: Board): (w: Option<Mark>)
    ensures w.Some? ==> HasLine(b, w.value)
  {
    LineTests(b, X);
    LineTests(b, O);
    if RowAll(b, 0, X) then Some(X) else if RowAll(b, 0, O) then Some(O)
    else if RowAll(b, 1, X) then Some(X) else if RowAll(b, 1, O) then Some(O)
    else if RowAll(b, 2, X) then Some(X) else if RowAll(b, 2, O) then Some(O)
    else if ColumnAll(b, 0, X) then Some(X) else if ColumnAll(b, 0, O) then Some(O)
    else if ColumnAll(b, 1, X) then Some(X) else if ColumnAll(b, 1, O) then Some(O)
    else if ColumnAll(b, 2, X) then Some(X) else if ColumnAll(b, 2, O) then Some(O)
    else if DiagonalAll(b, X) || AntiDiagonalAll(b, X) then Some(X)
    else if DiagonalAll(b, O) || AntiDiagonalAll(b, O) then Some(O)
    else None
  }

  /** The game is over when someone has won or no cell is empty. */
  predicate Terminal(b: Board)
    ensures Terminal(b) <==> Winner(b).Some? || Actions(b) == {}
  {
    EmptyInRowsIffMoves(b);
    Winner(b).Some? || !(Empty in b[0] || Empty in b[1] || Empty in b[2])
  }

  /** Some row contains an empty cell exactly when there is a legal move. */
  lemma EmptyInRowsIffMoves(b: Board)
    ensures (Empty in b[0] || Empty in b[1] || Empty in b[2]) <==> Actions(b) != {}
  {
    if Empty in b[0] || Empty in b[1] || Empty in b[2] {
      var i :| 0 <= i < 3 && Empty in b[i];
      var j :| 0 <= j < 3 && b[i][j] == Empty;
      assert Action(i, j) in Actions(b);
    }
    if Actions(b) != {} {
      var a :| a in Actions(b);
      assert b[a.i][a.j] == Empty;
    }
  }

  /** 1 if X has won, -1 if O has won, 0 otherwise. */
  function Utility(b: Board): (u: int)
    ensures u == 1 <==> Winner(b) == Some(X)
    ensures u == -1 <==> Winner(b) == Some(O)
    ensures u == 0 <==> Winner(b) == None
  {
    var gameWinner := Winner(b);
    if gameWinner == Some(X) then 1
    else if gameWinner == Some(O) then -1
    else 0
  }

  // ---------------------------------------------------------------------------
  // Lines and scan order: an independent description of what `Winner` finds

  /** Cell t (0 .. 2) of line k: rows 0 .. 2, columns 3 .. 5, diagonal 6, anti-diagonal 7. */
  function Line(k: nat, t: nat): (a: Action)
    requires k < 8 && t < 3
    ensures InRange(a)
  {
    if k < 3 then Action(k, t)
    else if k < 6 then Action(t, k - 3)
    else if k == 6 then Action(t, t)
    else Action(t, 2 - t)
  }

  /** Line k holds three of `m`. */
  predicate Completes(b: Board, k: nat, m: Mark)
    requires k < 8
  {
    At(b, Line(k, 0)) == Marked(m) && At(b, Line(k, 1)) == Marked(m) && At(b, Line(k, 2)) == Marked(m)
  }

  predicate HasLine(b: Board, m: Mark) {
    exists k | 0 <= k < 8 :: Completes(b, k, m)
  }

  /**
    The position at which the scan examines "line k is all m": rows and then
    columns in order with X before O on each line, then X on the diagonal, X on
    the anti-diagonal, O on the diagonal, O on the anti-diagonal.
   */
  function Rank(k: nat, m: Mark): nat
    requires k < 8
  {
    if k < 6 then 2 * k + (if m == X then 0 else 1)
    else 12 + (if m == X then 0 else 2) + (k - 6)
  }

  /** Line k is complete for m and no check earlier in the scan succeeds. */
  predicate FirstInScan(b: Board, k: nat, m: Mark)
    requires k < 8
  {
    && Completes(b, k, m)
    && forall k': nat, m': Mark | k' < 8 && Rank(k', m') < Rank(k, m) :: !Completes(b, k', m')
  }

  /** Each test `Winner` performs is the completeness of one numbered line. */
  lemma LineTests(b: Board, m: Mark)
    ensures RowAll(b, 0, m) == Completes(b, 0, m)
    ensures RowAll(b, 1, m) == Completes(b, 1, m)
    ensures RowAll(b, 2, m) == Completes(b, 2, m)
    ensures ColumnAll(b, 0, m) == Completes(b, 3, m)
    ensures ColumnAll(b, 1, m) == Completes(b, 4, m)
    ensures ColumnAll(b, 2, m) == Completes(b, 5, m)
    ensures DiagonalAll(b, m) == Completes(b, 6, m)
    ensures AntiDiagonalAll(b, m) == Completes(b, 7, m)
  {
  }

  /** The scan reports no winner exactly when no line is complete for either player. */
  lemma WinnerNoneIffNoLine(b: Board)
    ensures Winner(b) == None <==> !HasLine(b, X) && !HasLine(b, O)
  {
    LineTests(b, X);
    LineTests(b, O);
    if Winner(b) == None {
      forall k: nat, m: Mark | k < 8
        ensures !Completes(b, k, m)
      {
        assert m == X || m == O;
      }
    }
  }

  /** The line the scan stops at: it is complete, and nothing earlier in the scan is. */
  lemma WinningLine(b: Board) returns (k: nat)
    requires Winner(b).Some?
    ensures k < 8 && FirstInScan(b, k, Winner(b).value)
  {
    LineTests(b, X);
    LineTests(b, O);
    if RowAll(b, 0, X) || RowAll(b, 0, O) { k := 0; }
    else if RowAll(b, 1, X) || RowAll(b, 1, O) { k := 1; }
    else if RowAll(b, 2, X) || RowAll(b, 2, O) { k := 2; }
    else if ColumnAll(b, 0, X) || ColumnAll(b, 0, O) { k := 3; }
    else if ColumnAll(b, 1, X) || ColumnAll(b, 1, O) { k := 4; }
    else if ColumnAll(b, 2, X) || ColumnAll(b, 2, O) { k := 5; }
    else if DiagonalAll(b, X) { k := 6; }
    else if AntiDiagonalAll(b, X) { k := 7; }
    else if DiagonalAll(b, O) { k := 6; }
    else { k := 7; }
    var m := Winner(b).value;
    forall k': nat, m': Mark | k' < 8 && Rank(k', m') < Rank(k, m)
      ensures !Completes(b, k', m')
    {
      // one case per line number, so that each line's cells are known
      if k' == 0 {} else if k' == 1 {} else if k' == 2 {} else if k' == 3 {}
      else if k' == 4 {} else if k' == 5 {} else if k' == 6 {} else {}
    }
  }

  /** At most one (line, mark) pair is first in the scan. */
  lemma FirstInScanUnique(b: Board, k: nat, m: Mark, k': nat, m': Mark)
    requires k < 8 && k' < 8
    requires FirstInScan(b, k, m) && FirstInScan(b, k', m')
    ensures k == k' && m == m'
  {
  }

  /**
    `Winner` returns m exactly when, in the order rows, columns, diagonals
    (X before O on each row and column; X on either diagonal before O), the
    first complete line found belongs to m.
   */
  lemma WinnerIsFirstInScan(b: Board, m: Mark)
    ensures Winner(b) == Some(m) <==> exists k | 0 <= k < 8 :: FirstInScan(b, k, m)
  {
    if Winner(b) == Some(m) {
      var k := WinningLine(b);
    }
    if k: nat :| k < 8 && FirstInScan(b, k, m) {
      WinnerNoneIffNoLine(b);
      var k' := WinningLine(b);
      FirstInScanUnique(b, k, m, k', Winner(b).value);
    }
  }

  /**
    The two diagonals share the centre cell, so one player cannot own one of
    them while the other player owns the other. Checking X on either diagonal
    before O on either therefore agrees with checking the diagonal and then
    the anti-diagonal, X before O on each.
   */
  lemma DiagonalsExclusive(b: Board)
    ensures !(DiagonalAll(b, O) && AntiDiagonalAll(b, X))
    ensures !(DiagonalAll(b, X) && AntiDiagonalAll(b, O))
  {
  }

  /** A mark is reported only if it owns a complete line. */
  lemma WinnerHasLine(b: Board)
    requires Winner(b).Some?
    ensures HasLine(b, Winner(b).value)
  {
    var k := WinningLine(b);
  }

  /** When only one player has a complete line, the scan order does not matter. */
  lemma SoleLineWins(b: Board, m: Mark)
    requires HasLine(b, m) && !HasLine(b, Other(m))
    ensures Winner(b) == Some(m)
  {
    WinnerNoneIffNoLine(b);
    WinnerHasLine(b);
  }

  // ---------------------------------------------------------------------------
  // Moves, counts and turns

  /** A successful move uses up exactly the legal move it played. */
  lemma ResultRemovesAction(b: Board, a: Action)
    requires Result(b, a).Moved?
    ensures Actions(Result(b, a).board) == Actions(b) - {a}
    ensures |Actions(Result(b, a).board)| == |Actions(b)| - 1
  {
  }

  /** A successful move adds one mark of the player to move and takes away one empty cell. */
  lemma ResultCounts(b: Board, a: Action)
    requires Result(b, a).Moved?
    ensures Count(Result(b, a).board, Marked(Player(b))) == Count(b, Marked(Player(b))) + 1
    ensures Count(Result(b, a).board, Marked(Other(Player(b)))) == Count(b, Marked(Other(Player(b))))
    ensures Count(Result(b, a).board, Empty) == Count(b, Empty) - 1
  {
    var p := Player(b);
    var row := b[a.i][a.j := Marked(p)];
    assert Result(b, a).board == b[a.i := row];
    assert multiset(row) == multiset(b[a.i]) - multiset{Empty} + multiset{Marked(p)};
    CountReplaceRow(b, a.i, row, Marked(p));
    CountReplaceRow(b, a.i, row, Marked(Other(p)));
    CountReplaceRow(b, a.i, row, Empty);
  }

  /** Replacing one row changes a count by the difference between the two rows. */
  lemma CountReplaceRow(b: Board, i: nat, row: seq<Cell>, c: Cell)
    requires i < 3 && |row| == 3
    ensures Count(b[i := row], c) == Count(b, c) - multiset(b[i])[c] + multiset(row)[c]
  {
  }

  /** On a board reached by alternating play, a move keeps the counts balanced and passes the turn. */
  lemma ResultAlternates(b: Board, a: Action)
    requires Balanced(b) && Result(b, a).Moved?
    ensures Balanced(Result(b, a).board)
    ensures Player(Result(b, a).board) == Other(Player(b))
  {
    ResultCounts(b, a);
  }

  /** The three cell kinds of a row add up to its length. */
  lemma {:induction false} CellKindsPartition(s: seq<Cell>)
    ensures multiset(s)[Empty] + multiset(s)[Marked(X)] + multiset(s)[Marked(O)] == |s|
  {
    if s != [] {
      CellKindsPartition(s[1..]);
      assert s == [s[0]] + s[1..];
      assert multiset(s) == multiset{s[0]} + multiset(s[1..]);
      match s[0]
      case Empty =>
      case Marked(m) => assert m == X || m == O;
    }
  }

  /** Every one of the nine cells is empty, an X or an O. */
  lemma CountsSumToNine(b: Board)
    ensures Count(b, Empty) + Count(b, Marked(X)) + Count(b, Marked(O)) == 9
  {
    CellKindsPartition(b[0]);
    CellKindsPartition(b[1]);
    CellKindsPartition(b[2]);
  }

  lemma SuffixMultiset(s: seq<Cell>, k: nat)
    requires k < |s|
    ensures multiset(s[k..]) == multiset{s[k]} + multiset(s[k + 1..])
  {
    assert s[k..] == [s[k]] + s[k + 1..];
  }

  /** Within row i, the scan from column j finds the empties of that row from j on, then moves to the next row. */
  lemma {:induction false} EmptyFromRow(b: Board, i: nat, j: nat)
    requires i < 3 && j < 3
    ensures |EmptyFrom(b, i, j)| == multiset(b[i][j..])[Empty] + |EmptyFrom(b, i + 1, 0)|
    decreases 3 - j
  {
    SuffixMultiset(b[i], j);
    if j < 2 {
      EmptyFromRow(b, i, j + 1);
    }
  }

  /** There are exactly as many legal moves as empty cells. */
  lemma ActionsCountEmpties(b: Board)
    ensures |Actions(b)| == Count(b, Empty)
    ensures |ActionOrder(b)| == |Actions(b)|
  {
    ActionOrderLength(b);
    ActionOrderCardinality(b);
  }

  lemma ActionOrderLength(b: Board)
    ensures |ActionOrder(b)| == Count(b, Empty)
  {
    assert ActionOrder(b) == EmptyFrom(b, 0, 0);
    assert EmptyFrom(b, 3, 0) == [];
    EmptyFromRow(b, 0, 0);
    EmptyFromRow(b, 1, 0);
    EmptyFromRow(b, 2, 0);
    assert b[0][0..] == b[0] && b[1][0..] == b[1] && b[2][0..] == b[2];
    assert |EmptyFrom(b, 0, 0)| == multiset(b[0])[Empty] + multiset(b[1])[Empty] + multiset(b[2])[Empty];
  }

  lemma ActionOrderCardinality(b: Board)
    ensures |ActionOrder(b)| == |Actions(b)|
  {
    DistinctCardinality(ActionOrder(b));
    assert (set a | a in ActionOrder(b)) == Actions(b);
  }

  /** A sequence without repetitions has as many distinct elements as entries. */
  lemma {:induction false} DistinctCardinality(s: seq<Action>)
    requires forall m, n | 0 <= m < n < |s| :: s[m] != s[n]
    ensures |set a | a in s| == |s|
  {
    if s != [] {
      DistinctCardinality(s[1..]);
      var rest := set a | a in s[1..];
      assert (set a | a in s) == {s[0]} + rest;
      assert s[0] !in rest;
    }
  }

  /** Once all nine cells are marked there is no legal move and the game is over. */
  lemma FullBoardIsTerminal(b: Board)
    requires Count(b, Marked(X)) + Count(b, Marked(O)) == 9
    ensures Actions(b) == {}
    ensures Terminal(b)
  {
    CountsSumToNine(b);
    ActionsCountEmpties(b);
  }

  /** The starting board: X to move, all nine cells playable, nobody has won. */
  lemma InitialStateFacts()
    ensures Player(InitialState()) == X
    ensures Balanced(InitialState())
    ensures forall a :: a in Actions(InitialState()) <==> InRange(a)
    ensures |Actions(InitialState())| == 9
    ensures Winner(InitialState()) == None
    ensures !Terminal(InitialState())
    ensures Utility(InitialState()) == 0
  {
    var b := InitialState();
    ActionsCountEmpties(b);
    assert multiset(b[0]) == multiset{Empty, Empty, Empty};
    assert Action(0, 0) in Actions(b);
  }

  /** A board that is not over has at least one move to enumerate. */
  lemma NonTerminalHasMove(b: Board)
    requires !Terminal(b)
    ensures |ActionOrder(b)| > 0
  {
    ActionsCountEmpties(b);
  }
}
