/** Exhaustive minimax over the game tree: X maximises the utility, O
    minimises it. The two value functions recurse into each other on boards
    with one fewer empty square, so the recursion ends after at most nine
    plies. */
module Search {

  import opened Wrappers
  import opened Game

  /** A board that is not over has a move. */
  lemma NotOverHasMoves(b: Board)
    requires !Terminal(b)
    ensures |Moves(b)| > 0
  {
    NoEmptyNoMoves(b);
  }

  // ---------------------------------------------------------------------------
  // The two accumulating loops, over the values of the successors
  // ---------------------------------------------------------------------------

  /** The loop `v = max(v, ...)` started from minus infinity, over a non-empty
      sequence of values. */
  function MaxOf(vs: seq<int>): int
    requires vs != []
  {
    if |vs| == 1 then vs[0]
    else
      var rest := MaxOf(vs[1..]);
      if vs[0] < rest then rest else vs[0]
  }

  /** The loop `v = min(v, ...)` started from plus infinity, over a non-empty
      sequence of values. */
  function MinOf(vs: seq<int>): int
    requires vs != []
  {
    if |vs| == 1 then vs[0]
    else
      var rest := MinOf(vs[1..]);
      if rest < vs[0] then rest else vs[0]
  }

  /** `MaxOf` bounds every value from above and is one of them. */
  lemma {:induction false} MaxOfIsMaximum(vs: seq<int>)
    requires vs != []
    ensures forall i :: 0 <= i < |vs| ==> vs[i] <= MaxOf(vs)
    ensures exists i :: 0 <= i < |vs| && vs[i] == MaxOf(vs)
  {
    if |vs| > 1 {
      MaxOfIsMaximum(vs[1..]);
      forall i | 1 <= i < |vs|
        ensures vs[i] <= MaxOf(vs)
      {
        assert vs[i] == vs[1..][i - 1];
      }
      var j :| 0 <= j < |vs[1..]| && vs[1..][j] == MaxOf(vs[1..]);
      if vs[0] < MaxOf(vs[1..]) {
        assert vs[j + 1] == MaxOf(vs);
      } else {
        assert vs[0] == MaxOf(vs);
      }
    } else {
      assert vs[0] == MaxOf(vs);
    }
  }

  /** `MinOf` bounds every value from below and is one of them. */
  lemma {:induction false} MinOfIsMinimum(vs: seq<int>)
    requires vs != []
    ensures forall i :: 0 <= i < |vs| ==> MinOf(vs) <= vs[i]
    ensures exists i :: 0 <= i < |vs| && vs[i] == MinOf(vs)
  {
    if |vs| > 1 {
      MinOfIsMinimum(vs[1..]);
      forall i | 1 <= i < |vs|
        ensures MinOf(vs) <= vs[i]
      {
        assert vs[i] == vs[1..][i - 1];
      }
      var j :| 0 <= j < |vs[1..]| && vs[1..][j] == MinOf(vs[1..]);
      if MinOf(vs[1..]) < vs[0] {
        assert vs[j + 1] == MinOf(vs);
      } else {
        assert vs[0] == MinOf(vs);
      }
    } else {
      assert vs[0] == MinOf(vs);
    }
  }

  /** The head of a stable sort by value, descending: the first position
      holding the greatest value. */
  function FirstMax(vs: seq<int>): (i: nat)
    requires vs != []
    ensures i < |vs| && vs[i] == MaxOf(vs)
    ensures forall j :: 0 <= j < i ==> vs[j] < vs[i]
  {
    if |vs| == 1 || MaxOf(vs[1..]) <= vs[0] then 0
    else
      var k := FirstMax(vs[1..]);
      assert forall j :: 1 <= j <= k ==> vs[j] == vs[1..][j - 1];
      1 + k
  }

  /** The head of a stable sort by value, ascending: the first position
      holding the least value. */
  function FirstMin(vs: seq<int>): (i: nat)
    requires vs != []
    ensures i < |vs| && vs[i] == MinOf(vs)
    ensures forall j :: 0 <= j < i ==> vs[i] < vs[j]
  {
    if |vs| == 1 || vs[0] <= MinOf(vs[1..]) then 0
    else
      var k := FirstMin(vs[1..]);
      assert forall j :: 1 <= j <= k ==> vs[j] == vs[1..][j - 1];
      1 + k
  }

  // ---------------------------------------------------------------------------
  // minValue, maxValue
  // ---------------------------------------------------------------------------

  /** `MinValue` of every successor of `b`, in the order of `Moves(b)`. */
  function MinReplies(b: Board): seq<int>
    decreases EmptyCount(b), 0
  {
    var moves := Moves(b);
    seq(|moves|, i requires 0 <= i < |moves| => MinValue(Apply(b, moves[i])))
  }

  /** `MaxValue` of every successor of `b`, in the order of `Moves(b)`. */
  function MaxReplies(b: Board): seq<int>
    decreases EmptyCount(b), 0
  {
    var moves := Moves(b);
    seq(|moves|, i requires 0 <= i < |moves| => MaxValue(Apply(b, moves[i])))
  }

  /** `maxValue`: the value of `b` with X to choose, under best play by both
      sides (see `MaxValueIsBestReply`). */
  function MaxValue(b: Board): (v: int)
    ensures -1 <= v <= 1
    decreases EmptyCount(b), 1
  {
    if Terminal(b) then Utility(b)
    else
      NotOverHasMoves(b);
      var vs := MinReplies(b);
      MaxOfIsMaximum(vs);
      MaxOf(vs)
  }

  /** `minValue`: the value of `b` with O to choose, under best play by both
      sides (see `MinValueIsBestReply`). */
  function MinValue(b: Board): (v: int)
    ensures -1 <= v <= 1
    decreases EmptyCount(b), 1
  {
    if Terminal(b) then Utility(b)
    else
      NotOverHasMoves(b);
      var vs := MaxReplies(b);
      MinOfIsMinimum(vs);
      MinOf(vs)
  }

  /** Where a legal move sits in `Moves(b)`. */
  lemma PositionOfMove(b: Board, a: Action) returns (i: nat)
    requires a in Actions(b)
    ensures i < |Moves(b)| && Moves(b)[i] == a
  {
    i :| 0 <= i < |Moves(b)| && Moves(b)[i] == a;
  }

  lemma RepliesAt(b: Board, i: nat)
    requires i < |Moves(b)|
    ensures MinReplies(b)[i] == MinValue(Apply(b, Moves(b)[i]))
    ensures MaxReplies(b)[i] == MaxValue(Apply(b, Moves(b)[i]))
  {
  }

  /** The recurrence of `maxValue`: a finished board is worth its utility;
      otherwise X's value is the greatest `MinValue` among the successors. */
  lemma MaxValueIsBestReply(b: Board)
    ensures Terminal(b) ==> MaxValue(b) == Utility(b)
    ensures !Terminal(b) ==>
              && (forall a :: a in Actions(b) ==> MinValue(Apply(b, a)) <= MaxValue(b))
              && (exists a :: a in Actions(b) && MinValue(Apply(b, a)) == MaxValue(b))
  {
    if !Terminal(b) {
      NotOverHasMoves(b);
      var vs := MinReplies(b);
      MaxOfIsMaximum(vs);
      assert MaxValue(b) == MaxOf(vs);
      forall a | a in Actions(b)
        ensures MinValue(Apply(b, a)) <= MaxValue(b)
      {
        var i := PositionOfMove(b, a);
        RepliesAt(b, i);
      }
      var i :| 0 <= i < |vs| && vs[i] == MaxOf(vs);
      RepliesAt(b, i);
      assert Moves(b)[i] in Actions(b);
    }
  }

  /** The recurrence of `minValue`: a finished board is worth its utility;
      otherwise O's value is the least `MaxValue` among the successors. */
  lemma MinValueIsBestReply(b: Board)
    ensures Terminal(b) ==> MinValue(b) == Utility(b)
    ensures !Terminal(b) ==>
              && (forall a :: a in Actions(b) ==> MinValue(b) <= MaxValue(Apply(b, a)))
              && (exists a :: a in Actions(b) && MaxValue(Apply(b, a)) == MinValue(b))
  {
    if !Terminal(b) {
      NotOverHasMoves(b);
      var vs := MaxReplies(b);
      MinOfIsMinimum(vs);
      assert MinValue(b) == MinOf(vs);
      forall a | a in Actions(b)
        ensures MinValue(b) <= MaxValue(Apply(b, a))
      {
        var i := PositionOfMove(b, a);
        RepliesAt(b, i);
      }
      var i :| 0 <= i < |vs| && vs[i] == MinOf(vs);
      RepliesAt(b, i);
      assert Moves(b)[i] in Actions(b);
    }
  }

  // ---------------------------------------------------------------------------
  // minimax
  // ---------------------------------------------------------------------------

  /** `minimax`: no move on a finished board; otherwise, for X the first move
      whose successor has the greatest `MinValue`, for O the first whose
      successor has the least `MaxValue` (see `MinimaxIsOptimal`). */
  function Minimax(b: Board): (r: Option<Action>)
    ensures r.None? <==> Terminal(b)
    ensures r.Some? ==> r.value in Actions(b)
  {
    if Terminal(b) then None
    else
      NotOverHasMoves(b);
      var moves := Moves(b);
      if Player(b) == Some(X) then Some(moves[FirstMax(MinReplies(b))])
      else Some(moves[FirstMin(MaxReplies(b))])
  }

  /** The move `minimax` returns, as a position in `Moves(b)`. */
  lemma MinimaxChoice(b: Board)
    requires !Terminal(b)
    ensures |Moves(b)| > 0
    ensures Player(b) == Some(X) ==> Minimax(b) == Some(Moves(b)[FirstMax(MinReplies(b))])
    ensures Player(b) != Some(X) ==> Minimax(b) == Some(Moves(b)[FirstMin(MaxReplies(b))])
  {
    NotOverHasMoves(b);
  }

  /** With X to move, `minimax` picks a move no other legal move beats: its
      successor's `MinValue` is the greatest, and equals the board's
      `MaxValue`. */
  lemma MinimaxIsOptimalForX(b: Board)
    requires !Terminal(b) && Player(b) == Some(X)
    ensures forall a :: a in Actions(b) ==> MinValue(Apply(b, a)) <= MinValue(Apply(b, Minimax(b).value))
    ensures MinValue(Apply(b, Minimax(b).value)) == MaxValue(b)
  {
    MinimaxChoice(b);
    RepliesAt(b, FirstMax(MinReplies(b)));
    MaxValueIsBestReply(b);
  }

  /** With O to move, `minimax` picks a move no other legal move beats: its
      successor's `MaxValue` is the least, and equals the board's
      `MinValue`. */
  lemma MinimaxIsOptimalForO(b: Board)
    requires !Terminal(b) && Player(b) == Some(O)
    ensures forall a :: a in Actions(b) ==> MaxValue(Apply(b, Minimax(b).value)) <= MaxValue(Apply(b, a))
    ensures MaxValue(Apply(b, Minimax(b).value)) == MinValue(b)
  {
    MinimaxChoice(b);
    RepliesAt(b, FirstMin(MaxReplies(b)));
    MinValueIsBestReply(b);
  }
}
