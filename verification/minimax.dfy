/**
  Exhaustive minimax search over the tic-tac-toe game tree. `MaxValue` and
  `MinValue` are mutually recursive; each call plays one more mark, so the
  number of legal moves strictly decreases and the recursion is finite.
 */
module Minimax {
  import opened TicTacToe

  /** A game value: 1 when X wins, -1 when O wins, 0 for a draw. */
  type Value = v: int | -1 <= v <= 1

  /** Stand-ins for minus and plus infinity: below and above every value. */
  const NegInf: int := -2
  const PosInf: int := 2

  /** The board reached by playing a legal move. */
  function Child(b: Board, a: Action): (c: Board)
    requires a in Actions(b)
    ensures |Actions(c)| == |Actions(b)| - 1
  {
    ResultRemovesAction(b, a);
    Result(b, a).board
  }

  /**
    The loop of `max_value` over the children's values in enumeration order,
    starting from value v and best index `best`: an entry replaces the best
    only when it is strictly greater, so the first maximal entry is kept.
   */
  function MaxLoop(vals: seq<int>, k: nat, v: int, best: Option<nat>): (r: (int, Option<nat>))
    requires k <= |vals|
    ensures r.0 >= v
    ensures forall n | k <= n < |vals| :: vals[n] <= r.0
    ensures r.0 == v ==> r.1 == best
    ensures r.0 > v ==> && r.1.Some? && k <= r.1.value < |vals| && vals[r.1.value] == r.0
                        && forall n | k <= n < r.1.value :: vals[n] < r.0
    decreases |vals| - k
  {
    if k == |vals| then (v, best)
    else if vals[k] > v then MaxLoop(vals, k + 1, vals[k], Some(k))
    else MaxLoop(vals, k + 1, v, best)
  }

  /** The loop of `min_value`: the mirror image of `MaxLoop`, keeping the first minimal entry. */
  function MinLoop(vals: seq<int>, k: nat, v: int, best: Option<nat>): (r: (int, Option<nat>))
    requires k <= |vals|
    ensures r.0 <= v
    ensures forall n | k <= n < |vals| :: vals[n] >= r.0
    ensures r.0 == v ==> r.1 == best
    ensures r.0 < v ==> && r.1.Some? && k <= r.1.value < |vals| && vals[r.1.value] == r.0
                        && forall n | k <= n < r.1.value :: vals[n] > r.0
    decreases |vals| - k
  {
    if k == |vals| then (v, best)
    else if vals[k] < v then MinLoop(vals, k + 1, vals[k], Some(k))
    else MinLoop(vals, k + 1, v, best)
  }

  /**
    The largest of a non-empty sequence of values and the position of its
    first occurrence, as the loop finds them when it starts from minus
    infinity with no move chosen.
   */
  function FirstMax(vals: seq<Value>): (r: (Value, nat))
    requires |vals| > 0
    ensures r.1 < |vals| && vals[r.1] == r.0
    ensures forall n | 0 <= n < |vals| :: vals[n] <= r.0
    ensures forall n | 0 <= n < r.1 :: vals[n] < r.0
  {
    var (v, best) := MaxLoop(vals, 0, NegInf, None);
    assert vals[0] <= v;
    (v, best.value)
  }

  /**
    Off a finished game, the largest `MinValue` over the children and the
    first move, in enumeration order, reaching it; on a finished game, the
    utility and no move.
   */
  function MaxValue(b: Board): (r: (Value, Option<Action>))
    ensures Terminal(b) ==> r == (Utility(b), None)
    ensures !Terminal(b) ==> r.1.Some? && r.1.value in Actions(b)
    decreases |Actions(b)|, 1, 0
  {
    if Terminal(b) then (Utility(b), None)
    else
      var acts := ActionOrder(b);
      NonTerminalHasMove(b);
      var (v, k) := FirstMax(MinValuesOf(b, acts));
      (v, Some(acts[k]))
  }

  /** `MinValue` of each child, in the order of `acts`. */
  function MinValuesOf(b: Board, acts: seq<Action>): (vals: seq<Value>)
    requires forall a | a in acts :: a in Actions(b)
    ensures |vals| == |acts|
    decreases |Actions(b)|, 0, |acts|
  {
    seq(|acts|, k requires 0 <= k < |acts| => MinValue(Child(b, acts[k])).0)
  }

  /**
    The smallest of a non-empty sequence of values and the position of its
    first occurrence, as the loop finds them when it starts from plus
    infinity with no move chosen.
   */
  function FirstMin(vals: seq<Value>): (r: (Value, nat))
    requires |vals| > 0
    ensures r.1 < |vals| && vals[r.1] == r.0
    ensures forall n | 0 <= n < |vals| :: vals[n] >= r.0
    ensures forall n | 0 <= n < r.1 :: vals[n] > r.0
  {
    var (v, best) := MinLoop(vals, 0, PosInf, None);
    assert vals[0] >= v;
    (v, best.value)
  }

  /**
    Off a finished game, the smallest `MaxValue` over the children and the
    first move, in enumeration order, reaching it; on a finished game, the
    utility and no move.
   */
  function MinValue(b: Board): (r: (Value, Option<Action>))
    ensures Terminal(b) ==> r == (Utility(b), None)
    ensures !Terminal(b) ==> r.1.Some? && r.1.value in Actions(b)
    decreases |Actions(b)|, 1, 0
  {
    if Terminal(b) then (Utility(b), None)
    else
      var acts := ActionOrder(b);
      NonTerminalHasMove(b);
      var (v, k) := FirstMin(MaxValuesOf(b, acts));
      (v, Some(acts[k]))
  }

  /** `MaxValue` of each child, in the order of `acts`. */
  function MaxValuesOf(b: Board, acts: seq<Action>): (vals: seq<Value>)
    requires forall a | a in acts :: a in Actions(b)
    ensures |vals| == |acts|
    decreases |Actions(b)|, 0, |acts|
  {
    seq(|acts|, k requires 0 <= k < |acts| => MaxValue(Child(b, acts[k])).0)
  }

  /**
    The move for the player to act: none once the game is over, otherwise
    X maximises and O minimises.
   */
  function Minimax(b: Board): (a: Option<Action>)
    ensures a.None? <==> Terminal(b)
    ensures a.Some? ==> a.value in Actions(b) && Result(b, a.value).Moved?
    ensures !Terminal(b) && Player(b) == X ==> a == MaxValue(b).1
    ensures !Terminal(b) && Player(b) == O ==> a == MinValue(b).1
  {
    if Terminal(b) then None
    else
      var currentPlayer := Player(b);
      if currentPlayer == X then MaxValue(b).1 else MinValue(b).1
  }

  /**
    The chosen move is best for the mover one ply down: X's move leads to a
    child whose `MinValue` is as large as any, O's to one whose `MaxValue` is
    as small as any.
   */
  lemma MinimaxIsLocallyOptimal(b: Board)
    requires !Terminal(b)
    ensures Minimax(b).Some?
    ensures Player(b) == X ==>
      forall a | a in Actions(b) :: MinValue(Child(b, a)).0 <= MinValue(Child(b, Minimax(b).value)).0
    ensures Player(b) == O ==>
      forall a | a in Actions(b) :: MaxValue(Child(b, a)).0 >= MaxValue(Child(b, Minimax(b).value)).0
  {
    MaxValueIsBestChild(b);
    MinValueIsBestChild(b);
  }

  /** `MaxValue` off a terminal board, unfolded. */
  lemma MaxValueUnfold(b: Board)
    requires !Terminal(b)
    ensures |ActionOrder(b)| > 0
    ensures MaxValue(b).0 == FirstMax(MinValuesOf(b, ActionOrder(b))).0
    ensures MaxValue(b).1 == Some(ActionOrder(b)[FirstMax(MinValuesOf(b, ActionOrder(b))).1])
  {
    NonTerminalHasMove(b);
  }

  /** The move `MaxValue` returns leads to a child whose `MinValue` is the returned value. */
  lemma MaxValueAchieved(b: Board)
    requires !Terminal(b)
    ensures MinValue(Child(b, MaxValue(b).1.value)).0 == MaxValue(b).0
  {
    MaxValueUnfold(b);
    var acts := ActionOrder(b);
    MinValuesOfAt(b, acts, FirstMax(MinValuesOf(b, acts)).1);
  }

  /** No legal move leads to a child with a larger `MinValue` than the one `MaxValue` returns. */
  lemma MaxValueBoundsChild(b: Board, a: Action)
    requires !Terminal(b) && a in Actions(b)
    ensures MinValue(Child(b, a)).0 <= MaxValue(b).0
  {
    MaxValueUnfold(b);
    var acts := ActionOrder(b);
    var n :| 0 <= n < |acts| && acts[n] == a;
    MinValuesOfAt(b, acts, n);
  }

  /** Every move enumerated before the one `MaxValue` returns leads to a strictly smaller value. */
  lemma MaxValueFirstBest(b: Board, m: nat, n: nat)
    requires !Terminal(b)
    requires m < n < |ActionOrder(b)| && ActionOrder(b)[n] == MaxValue(b).1.value
    ensures MinValue(Child(b, ActionOrder(b)[m])).0 < MaxValue(b).0
  {
    MaxValueUnfold(b);
    var acts := ActionOrder(b);
    assert n == FirstMax(MinValuesOf(b, acts)).1;
    MinValuesOfAt(b, acts, m);
  }

  /**
    Off a terminal board, `MaxValue` is the largest `MinValue` over the
    children, reached by the move it returns, and every move enumerated before
    that one leads to a strictly smaller value.
   */
  lemma MaxValueIsBestChild(b: Board)
    requires !Terminal(b)
    ensures MinValue(Child(b, MaxValue(b).1.value)).0 == MaxValue(b).0
    ensures forall a | a in Actions(b) :: MinValue(Child(b, a)).0 <= MaxValue(b).0
    ensures forall m, n | 0 <= m < n < |ActionOrder(b)| && ActionOrder(b)[n] == MaxValue(b).1.value ::
      MinValue(Child(b, ActionOrder(b)[m])).0 < MaxValue(b).0
  {
    MaxValueAchieved(b);
    forall a | a in Actions(b)
      ensures MinValue(Child(b, a)).0 <= MaxValue(b).0
    {
      MaxValueBoundsChild(b, a);
    }
    forall m, n | 0 <= m < n < |ActionOrder(b)| && ActionOrder(b)[n] == MaxValue(b).1.value
      ensures MinValue(Child(b, ActionOrder(b)[m])).0 < MaxValue(b).0
    {
      MaxValueFirstBest(b, m, n);
    }
  }

  /** `MinValue` off a terminal board, unfolded. */
  lemma MinValueUnfold(b: Board)
    requires !Terminal(b)
    ensures |ActionOrder(b)| > 0
    ensures MinValue(b).0 == FirstMin(MaxValuesOf(b, ActionOrder(b))).0
    ensures MinValue(b).1 == Some(ActionOrder(b)[FirstMin(MaxValuesOf(b, ActionOrder(b))).1])
  {
    NonTerminalHasMove(b);
  }

  /** The move `MinValue` returns leads to a child whose `MaxValue` is the returned value. */
  lemma MinValueAchieved(b: Board)
    requires !Terminal(b)
    ensures MaxValue(Child(b, MinValue(b).1.value)).0 == MinValue(b).0
  {
    MinValueUnfold(b);
    var acts := ActionOrder(b);
    MaxValuesOfAt(b, acts, FirstMin(MaxValuesOf(b, acts)).1);
  }

  /** No legal move leads to a child with a smaller `MaxValue` than the one `MinValue` returns. */
  lemma MinValueBoundsChild(b: Board, a: Action)
    requires !Terminal(b) && a in Actions(b)
    ensures MaxValue(Child(b, a)).0 >= MinValue(b).0
  {
    MinValueUnfold(b);
    var acts := ActionOrder(b);
    var n :| 0 <= n < |acts| && acts[n] == a;
    MaxValuesOfAt(b, acts, n);
  }

  /** Every move enumerated before the one `MinValue` returns leads to a strictly larger value. */
  lemma MinValueFirstBest(b: Board, m: nat, n: nat)
    requires !Terminal(b)
    requires m < n < |ActionOrder(b)| && ActionOrder(b)[n] == MinValue(b).1.value
    ensures MaxValue(Child(b, ActionOrder(b)[m])).0 > MinValue(b).0
  {
    MinValueUnfold(b);
    var acts := ActionOrder(b);
    assert n == FirstMin(MaxValuesOf(b, acts)).1;
    MaxValuesOfAt(b, acts, m);
  }

  /**
    Off a terminal board, `MinValue` is the smallest `MaxValue` over the
    children, reached by the move it returns, and every move enumerated before
    that one leads to a strictly larger value.
   */
  lemma MinValueIsBestChild(b: Board)
    requires !Terminal(b)
    ensures MaxValue(Child(b, MinValue(b).1.value)).0 == MinValue(b).0
    ensures forall a | a in Actions(b) :: MaxValue(Child(b, a)).0 >= MinValue(b).0
    ensures forall m, n | 0 <= m < n < |ActionOrder(b)| && ActionOrder(b)[n] == MinValue(b).1.value ::
      MaxValue(Child(b, ActionOrder(b)[m])).0 > MinValue(b).0
  {
    MinValueAchieved(b);
    forall a | a in Actions(b)
      ensures MaxValue(Child(b, a)).0 >= MinValue(b).0
    {
      MinValueBoundsChild(b, a);
    }
    forall m, n | 0 <= m < n < |ActionOrder(b)| && ActionOrder(b)[n] == MinValue(b).1.value
      ensures MaxValue(Child(b, ActionOrder(b)[m])).0 > MinValue(b).0
    {
      MinValueFirstBest(b, m, n);
    }
  }

  /** Entry n of `MinValuesOf` is the `MinValue` of the child reached by move n. */
  lemma MinValuesOfAt(b: Board, acts: seq<Action>, n: nat)
    requires forall a | a in acts :: a in Actions(b)
    requires n < |acts|
    ensures MinValuesOf(b, acts)[n] == MinValue(Child(b, acts[n])).0
  {
  }

  /** Entry n of `MaxValuesOf` is the `MaxValue` of the child reached by move n. */
  lemma MaxValuesOfAt(b: Board, acts: seq<Action>, n: nat)
    requires forall a | a in acts :: a in Actions(b)
    requires n < |acts|
    ensures MaxValuesOf(b, acts)[n] == MaxValue(Child(b, acts[n])).0
  {
  }
}
