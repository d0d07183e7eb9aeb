/** The board-state model of the tic-tac-toe engine: the empty board, whose
    turn it is, the legal moves, applying a move, the winner, the end of the
    game and its value for X. Boards are immutable values: applying a move
    builds a new board and leaves its input as it was. */
module Game {

  import opened Wrappers
  import opened Counting

  datatype Mark = X | O

  datatype Cell = Empty | Filled(mark: Mark)

  /** A 3x3 grid indexed `b[row][col]`, rows and columns numbered 0 to 2. */
  type Board = b: seq<seq<Cell>> | |b| == 3 && |b[0]| == 3 && |b[1]| == 3 && |b[2]| == 3
    witness [[Empty, Empty, Empty], [Empty, Empty, Empty], [Empty, Empty, Empty]]

  /** A move `(row, col)`. Any pair of integers can be asked for; only an
      empty square on the board is a legal one. */
  datatype Action = Action(row: int, col: int)

  predicate OnBoard(a: Action) {
    0 <= a.row < 3 && 0 <= a.col < 3
  }

  function At(b: Board, a: Action): Cell
    requires OnBoard(a)
  {
    b[a.row][a.col]
  }

  /** A legal move on `b`: an empty square of the board. */
  predicate Legal(b: Board, a: Action) {
    OnBoard(a) && At(b, a) == Empty
  }

  /** Position of a square in row-major order, 0 to 8. */
  function Index(a: Action): nat
    requires OnBoard(a)
  {
    3 * a.row + a.col
  }

  /** The square at row-major position `k`. */
  function Square(k: nat): (a: Action)
    requires k < 9
    ensures OnBoard(a) && Index(a) == k
  {
    Action(k / 3, k % 3)
  }

  lemma SquareOfIndex(a: Action)
    requires OnBoard(a)
    ensures Square(Index(a)) == a
  {
    assert a.row == Index(a) / 3 && a.col == Index(a) % 3 by {
      if a.row == 0 {} else if a.row == 1 {} else {}
    }
  }

  /** The nine cells in row-major order: the order of the engine's nested
      loops over rows and then columns. */
  function Cells(b: Board): (s: seq<Cell>)
    ensures |s| == 9
    ensures forall a :: OnBoard(a) ==> s[Index(a)] == At(b, a)
  {
    b[0] + b[1] + b[2]
  }

  lemma CellAtSquare(b: Board, k: nat)
    requires k < 9
    ensures Cells(b)[k] == At(b, Square(k))
  {
  }

  /** Number of squares holding `m`. */
  function Marks(b: Board, m: Mark): nat {
    Count(Cells(b), Filled(m))
  }

  /** Number of empty squares; the search's termination measure. */
  function EmptyCount(b: Board): nat {
    Count(Cells(b), Empty)
  }

  /** Every square is empty, X, or O. */
  lemma {:induction false} CountsPartition(s: seq<Cell>)
    ensures Count(s, Empty) + Count(s, Filled(X)) + Count(s, Filled(O)) == |s|
  {
    if |s| > 0 {
      CountsPartition(s[1..]);
      assert s[0] == Empty || s[0] == Filled(X) || s[0] == Filled(O) by {
        if s[0].Filled? { assert s[0].mark == X || s[0].mark == O; }
      }
    }
  }

  lemma SquaresAddUp(b: Board)
    ensures EmptyCount(b) + Marks(b, X) + Marks(b, O) == 9
  {
    CountsPartition(Cells(b));
  }

  // ---------------------------------------------------------------------------
  // initial_state, actions, player
  // ---------------------------------------------------------------------------

  function InitialState(): (b: Board)
    ensures forall a :: OnBoard(a) ==> At(b, a) == Empty
  {
    [[Empty, Empty, Empty], [Empty, Empty, Empty], [Empty, Empty, Empty]]
  }

  /** The game starts with nine legal moves, X to move, and is not over. */
  lemma InitialStateStartsGame()
    ensures |Actions(InitialState())| == 9
    ensures Player(InitialState()) == Some(X)
    ensures !Terminal(InitialState())
  {
    EmptyBoardStartsGame(InitialState());
  }

  /** Any board with every square empty: nine moves, X to move, not over. */
  lemma EmptyBoardStartsGame(b: Board)
    requires forall a :: OnBoard(a) ==> At(b, a) == Empty
    ensures |Actions(b)| == 9
    ensures Player(b) == Some(X)
    ensures !Terminal(b)
  {
    EmptyBoardHasNoMarks(b);
    EmptyBoardIsNotOver(b);
    SquaresAddUp(b);
  }

  lemma EmptyBoardHasNoMarks(b: Board)
    requires forall a :: OnBoard(a) ==> At(b, a) == Empty
    ensures Marks(b, X) == 0 && Marks(b, O) == 0
  {
    forall k | 0 <= k < 9
      ensures Cells(b)[k] == Empty
    {
      CellAtSquare(b, k);
    }
    CountZero(Cells(b), Filled(X));
    CountZero(Cells(b), Filled(O));
  }

  lemma EmptyBoardIsNotOver(b: Board)
    requires forall a :: OnBoard(a) ==> At(b, a) == Empty
    ensures !Terminal(b)
  {
    assert b[0] == [Empty, Empty, Empty] by {
      assert At(b, Action(0, 0)) == At(b, Action(0, 1)) == At(b, Action(0, 2)) == Empty;
    }
    assert b[1] == [Empty, Empty, Empty] by {
      assert At(b, Action(1, 0)) == At(b, Action(1, 1)) == At(b, Action(1, 2)) == Empty;
    }
    assert b[2] == [Empty, Empty, Empty] by {
      assert At(b, Action(2, 0)) == At(b, Action(2, 1)) == At(b, Action(2, 2)) == Empty;
    }
    assert Winner(b) == None;
    assert Cells(b)[0] == Empty;
  }

  /** The empty squares at row-major positions `k` to 8, in the order the
      engine's loops visit them. */
  function EmptySquaresFrom(b: Board, k: nat): (s: seq<Action>)
    requires k <= 9
    ensures forall a :: a in s <==> OnBoard(a) && k <= Index(a) && At(b, a) == Empty
    ensures Distinct(s)
    ensures |s| == Count(Cells(b)[k..], Empty)
    decreases 9 - k
  {
    if k == 9 then []
    else
      var rest := EmptySquaresFrom(b, k + 1);
      CellAtSquare(b, k);
      assert forall a :: OnBoard(a) && Index(a) == k ==> a == Square(k) by {
        forall a | OnBoard(a) && Index(a) == k { SquareOfIndex(a); }
      }
      assert Cells(b)[k..][1..] == Cells(b)[k + 1..];
      if Cells(b)[k] == Empty then [Square(k)] + rest else rest
  }

  /** The legal moves of `b` enumerated in row-major order. */
  function Moves(b: Board): (s: seq<Action>)
    ensures forall a {:trigger a in s} :: a in s <==> Legal(b, a)
    ensures forall i :: 0 <= i < |s| ==> Legal(b, s[i])
    ensures |s| == EmptyCount(b)
  {
    assert Cells(b)[0..] == Cells(b);
    var s := EmptySquaresFrom(b, 0);
    assert forall i :: 0 <= i < |s| ==> s[i] in s;
    s
  }

  /** The set of legal moves: exactly the empty squares of the board, one per
      empty cell. */
  function Actions(b: Board): (acts: set<Action>)
    ensures forall a :: a in acts <==> Legal(b, a)
    ensures |acts| == EmptyCount(b)
  {
    var s := Moves(b);
    DistinctCard(s);
    set a | a in s
  }

  /** An empty square exists exactly when the board has an empty cell. */
  lemma {:induction false} NoEmptyNoMoves(b: Board)
    ensures EmptyCount(b) == 0 <==> Empty !in Cells(b)
  {
    CountZero(Cells(b), Empty);
  }

  /** Every square is either a legal move or holds a mark, and a board with
      no empty cell has no legal move. */
  lemma ActionsAndMarks(b: Board)
    ensures |Actions(b)| + Marks(b, X) + Marks(b, O) == 9
    ensures Empty !in Cells(b) ==> Actions(b) == {}
  {
    SquaresAddUp(b);
    NoEmptyNoMoves(b);
  }

  /** Whose turn it is: none on a full board, O when X has more marks, X
      otherwise (see `PlayerSpec`). */
  function Player(b: Board): (p: Option<Mark>)
    ensures p.None? <==> EmptyCount(b) == 0
  {
    var xs, os := Marks(b, X), Marks(b, O);
    SquaresAddUp(b);
    if xs + os == 9 then None
    else if xs > os then Some(O)
    else Some(X)
  }

  /** No one moves once every square is taken; otherwise O moves exactly when
      X has placed more marks, and X moves when the counts are level. */
  lemma PlayerSpec(b: Board)
    ensures Player(b).None? <==> Marks(b, X) + Marks(b, O) == 9
    ensures Player(b).None? <==> Actions(b) == {}
    ensures Player(b) == Some(O) <==> Actions(b) != {} && Marks(b, X) > Marks(b, O)
    ensures Player(b) == Some(X) <==> Actions(b) != {} && Marks(b, X) <= Marks(b, O)
  {
    SquaresAddUp(b);
    assert Actions(b) == {} <==> |Actions(b)| == 0;
  }

  /** The board invariant of alternating play with X moving first. */
  predicate Alternating(b: Board) {
    Marks(b, X) == Marks(b, O) || Marks(b, X) == Marks(b, O) + 1
  }

  /** On an alternating board that is not full, X moves exactly when the
      mark counts are equal. */
  lemma PlayerAlternates(b: Board)
    requires Alternating(b) && Actions(b) != {}
    ensures Player(b) == Some(X) <==> Marks(b, X) == Marks(b, O)
    ensures Player(b) == Some(O) <==> Marks(b, X) == Marks(b, O) + 1
  {
    PlayerSpec(b);
  }

  // ---------------------------------------------------------------------------
  // result
  // ---------------------------------------------------------------------------

  /** What `result` produces: the successor board, or the "Invalid move"
      error. */
  datatype MoveOutcome = Moved(board: Board) | InvalidMove

  /** Writes mark `m` into square `a`, leaving every other square alone. */
  function Place(b: Board, a: Action, m: Mark): (r: Board)
    requires OnBoard(a)
    ensures forall a' :: OnBoard(a') ==> At(r, a') == if a' == a then Filled(m) else At(b, a')
    ensures Cells(r) == Cells(b)[Index(a) := Filled(m)]
  {
    var r: Board := b[a.row := b[a.row][a.col := Filled(m)]];
    assert forall k :: 0 <= k < 9 ==> Cells(r)[k] == Cells(b)[Index(a) := Filled(m)][k] by {
      forall k | 0 <= k < 9
        ensures Cells(r)[k] == Cells(b)[Index(a) := Filled(m)][k]
      {
        CellAtSquare(r, k);
        CellAtSquare(b, k);
      }
    }
    r
  }

  /** A legal move: the player to move fills the chosen empty square. */
  function Apply(b: Board, a: Action): (r: Board)
    requires Legal(b, a)
    ensures EmptyCount(r) == EmptyCount(b) - 1
  {
    var s := Cells(b);
    assert s[Index(a)] == Empty;
    CountZero(s, Empty);
    var m := Player(b).value;
    CountUpdate(s, Index(a), Filled(m), Empty);
    Place(b, a, m)
  }

  /** A legal move is made by the player to move: that player's mark fills the
      chosen square, nothing else on the board changes, one empty square fewer
      and one more mark of the mover's. */
  lemma ApplySpec(b: Board, a: Action)
    requires Legal(b, a)
    ensures Player(b).Some?
    ensures forall a' :: OnBoard(a') ==>
              At(Apply(b, a), a') == if a' == a then Filled(Player(b).value) else At(b, a')
    ensures Marks(Apply(b, a), X) == Marks(b, X) + (if Player(b) == Some(X) then 1 else 0)
    ensures Marks(Apply(b, a), O) == Marks(b, O) + (if Player(b) == Some(O) then 1 else 0)
  {
    var s := Cells(b);
    assert s[Index(a)] == Empty;
    CountZero(s, Empty);
    var m := Player(b).value;
    CountUpdate(s, Index(a), Filled(m), Filled(X));
    CountUpdate(s, Index(a), Filled(m), Filled(O));
  }

  /** `result`: the move fails exactly when it names a square off the board
      or one already taken; otherwise it is `Apply`. */
  function Result(b: Board, a: Action): (r: MoveOutcome)
    ensures r == InvalidMove <==> !OnBoard(a) || At(b, a) != Empty
    ensures r.Moved? ==> Legal(b, a) && r.board == Apply(b, a)
  {
    if a !in Actions(b) then InvalidMove else Moved(Apply(b, a))
  }

  /** A legal move takes exactly its own square out of the legal moves. */
  lemma ApplyRemovesAction(b: Board, a: Action)
    requires Legal(b, a)
    ensures Actions(Apply(b, a)) == Actions(b) - {a}
  {
    ApplySpec(b, a);
    forall a' | OnBoard(a')
      ensures Legal(Apply(b, a), a') <==> Legal(b, a') && a' != a
    {
    }
  }

  /** A legal move keeps the alternation invariant. */
  lemma ApplyKeepsAlternation(b: Board, a: Action)
    requires Alternating(b) && Legal(b, a)
    ensures Alternating(Apply(b, a))
  {
    PlayerAlternates(b);
    ApplySpec(b, a);
  }

  // ---------------------------------------------------------------------------
  // winner, terminal, utility
  // ---------------------------------------------------------------------------

  /** Three squares in a straight line. */
  datatype Line = Line(p: Action, q: Action, r: Action)

  const MainDiagonal: Line := Line(Action(0, 0), Action(1, 1), Action(2, 2))
  const AntiDiagonal: Line := Line(Action(0, 2), Action(1, 1), Action(2, 0))

  /** The eight lines in the order the engine checks them: rows, columns, the
      main diagonal, the anti-diagonal. */
  const Lines: seq<Line> := [
    Line(Action(0, 0), Action(0, 1), Action(0, 2)),
    Line(Action(1, 0), Action(1, 1), Action(1, 2)),
    Line(Action(2, 0), Action(2, 1), Action(2, 2)),
    Line(Action(0, 0), Action(1, 0), Action(2, 0)),
    Line(Action(0, 1), Action(1, 1), Action(2, 1)),
    Line(Action(0, 2), Action(1, 2), Action(2, 2)),
    MainDiagonal,
    AntiDiagonal
  ]

  /** All three squares of `l` hold `m`. */
  predicate Completes(b: Board, l: Line, m: Mark) {
    && OnBoard(l.p) && OnBoard(l.q) && OnBoard(l.r)
    && At(b, l.p) == Filled(m) && At(b, l.q) == Filled(m) && At(b, l.r) == Filled(m)
  }

  /** `m` has three in a row somewhere on the board. */
  predicate Won(b: Board, m: Mark) {
    exists k :: 0 <= k < |Lines| && Completes(b, Lines[k], m)
  }

  /** Three equal, non-empty cells. */
  predicate Same(c0: Cell, c1: Cell, c2: Cell) {
    c0 == c1 == c2 && c0 != Empty
  }

  /** `winner`, branch for branch: rows, then columns, then the main diagonal,
      and the anti-diagonal only when the main diagonal's cells are not all
      equal. */
  function Winner(b: Board): Option<Mark> {
    if Same(b[0][0], b[0][1], b[0][2]) then Some(b[0][0].mark)
    else if Same(b[1][0], b[1][1], b[1][2]) then Some(b[1][0].mark)
    else if Same(b[2][0], b[2][1], b[2][2]) then Some(b[2][0].mark)
    else if Same(b[0][0], b[1][0], b[2][0]) then Some(b[0][0].mark)
    else if Same(b[0][1], b[1][1], b[2][1]) then Some(b[0][1].mark)
    else if Same(b[0][2], b[1][2], b[2][2]) then Some(b[0][2].mark)
    else if b[0][0] == b[1][1] == b[2][2] then
      (if b[0][0].Filled? then Some(b[0][0].mark) else None)
    else if b[0][2] == b[1][1] == b[2][0] && b[0][2].Filled? then Some(b[0][2].mark)
    else None
  }

  /** `winner` names a mark only when that mark has three in a row, and names
      none only when neither has. */
  lemma WinnerSpec(b: Board)
    ensures Winner(b).Some? ==> Won(b, Winner(b).value)
    ensures Winner(b).None? <==> !Won(b, X) && !Won(b, O)
  {
    WinnerIsFirstCompletedLine(b);
    FirstWinFindsLine(b, 0);
  }

  /** The scan from line `k` on reports a mark only for a completed line, and
      reports none only when no line from `k` on is complete. */
  lemma {:induction false} FirstWinFindsLine(b: Board, k: nat)
    requires k <= |Lines|
    ensures FirstWin(b, k).Some? ==>
              exists j :: k <= j < |Lines| && Completes(b, Lines[j], FirstWin(b, k).value)
    ensures FirstWin(b, k).None? ==>
              forall j, m :: k <= j < |Lines| ==> !Completes(b, Lines[j], m)
    decreases |Lines| - k
  {
    if k < |Lines| {
      FirstWinFindsLine(b, k + 1);
      if FirstWin(b, k).None? {
        forall j, m | k <= j < |Lines|
          ensures !Completes(b, Lines[j], m)
        {
          if j == k { assert m == X || m == O; }
        }
      }
    }
  }

  /** `Won` spelled out line by line. */
  lemma WonUnfolded(b: Board, m: Mark)
    ensures Won(b, m) <==>
      || Completes(b, Lines[0], m) || Completes(b, Lines[1], m)
      || Completes(b, Lines[2], m) || Completes(b, Lines[3], m)
      || Completes(b, Lines[4], m) || Completes(b, Lines[5], m)
      || Completes(b, Lines[6], m) || Completes(b, Lines[7], m)
  {
    if Won(b, m) {
      var k :| 0 <= k < |Lines| && Completes(b, Lines[k], m);
      assert k in {0, 1, 2, 3, 4, 5, 6, 7};
    }
  }

  /** The mark of the first completed line among `Lines[k..]`, in check
      order: a plain scan of all eight lines, with no short cuts. */
  function FirstWin(b: Board, k: nat): Option<Mark>
    requires k <= |Lines|
    decreases |Lines| - k
  {
    if k == |Lines| then None
    else if Completes(b, Lines[k], X) then Some(X)
    else if Completes(b, Lines[k], O) then Some(O)
    else FirstWin(b, k + 1)
  }

  /** The if/elif diagonal check loses nothing: `winner` reports the mark of
      the first completed line, exactly as the plain scan does. */
  lemma WinnerIsFirstCompletedLine(b: Board)
    ensures Winner(b) == FirstWin(b, 0)
  {
    FirstWinStep(b, 0);
    FirstWinStep(b, 1);
    FirstWinStep(b, 2);
    FirstWinStep(b, 3);
    FirstWinStep(b, 4);
    FirstWinStep(b, 5);
    FirstWinStep(b, 6);
    FirstWinStep(b, 7);
    assert FirstWin(b, 8) == None;
    if b[0][0] == b[1][1] == b[2][2] && b[0][0] == Empty {
      SkippedAntiDiagonalIsEmpty(b);
    }
  }

  /** One step of the scan: a line whose three cells are equal and filled
      decides it, any other line passes the scan on. */
  lemma FirstWinStep(b: Board, k: nat)
    requires k < |Lines|
    ensures OnBoard(Lines[k].p) && OnBoard(Lines[k].q) && OnBoard(Lines[k].r)
    ensures FirstWin(b, k) ==
      if Same(At(b, Lines[k].p), At(b, Lines[k].q), At(b, Lines[k].r))
      then Some(At(b, Lines[k].p).mark)
      else FirstWin(b, k + 1)
  {
    assert forall c: Cell :: c.Filled? ==> c.mark == X || c.mark == O;
  }

  /** When the main diagonal's three cells are equal the anti-diagonal test
      is skipped; that never hides a win, because the two diagonals share the
      centre square: a won anti-diagonal then makes the main diagonal a win
      for the same mark. */
  lemma SkippedAntiDiagonalIsMainDiagonalWin(b: Board, m: Mark)
    requires b[0][0] == b[1][1] == b[2][2]
    requires Completes(b, AntiDiagonal, m)
    ensures Completes(b, MainDiagonal, m)
  {
    assert At(b, Action(1, 1)) == Filled(m);
  }

  /** The skipped branch is the one where the main diagonal is all empty; the
      anti-diagonal cannot then be complete for either mark. */
  lemma SkippedAntiDiagonalIsEmpty(b: Board)
    requires b[0][0] == b[1][1] == b[2][2] == Empty
    ensures !Completes(b, AntiDiagonal, X) && !Completes(b, AntiDiagonal, O)
  {
    assert At(b, Action(1, 1)) == Empty;
  }

  /** `terminal`: the game is over when someone has three in a row or no
      square is empty. */
  predicate Terminal(b: Board) {
    Winner(b).Some? || Empty !in Cells(b)
  }

  /** The game is over exactly when a mark has three in a row or no legal
      move is left. */
  lemma TerminalSpec(b: Board)
    ensures Terminal(b) <==> Won(b, X) || Won(b, O) || Actions(b) == {}
  {
    WinnerSpec(b);
    NoEmptyNoMoves(b);
    assert Actions(b) == {} <==> |Actions(b)| == 0;
  }

  /** `utility` of a finished game: +1 when X won, -1 when O won, 0 for a
      draw, which is always a full board with no line. */
  function Utility(b: Board): (u: int)
    requires Terminal(b)
    ensures -1 <= u <= 1
  {
    var w := Winner(b);
    if w == Some(X) then 1
    else if w == Some(O) then -1
    else 0
  }

  /** The value of a finished game for X: +1 when X won, -1 when O won, and 0
      exactly when neither has a line, which happens only on a full board. */
  lemma UtilitySpec(b: Board)
    requires Terminal(b)
    ensures Utility(b) == 1 <==> Winner(b) == Some(X)
    ensures Utility(b) == -1 <==> Winner(b) == Some(O)
    ensures Utility(b) == 0 <==> !Won(b, X) && !Won(b, O)
    ensures Utility(b) == 0 ==> Actions(b) == {}
  {
    WinnerSpec(b);
    TerminalSpec(b);
    var w := Winner(b);
    assert w.Some? ==> w.value == X || w.value == O;
  }
}
