/**
 * Tic-tac-toe rules and alpha-beta minimax.
 *
 * The board is a 3x3 grid of cells; a cell holds a mark or is EMPTY (None).
 * The rules (player, actions, result, winner, terminal, utility) are total
 * functions of a board. The two search routines max_value and min_value are
 * mutually recursive methods that loop over the available actions with
 * alpha-beta pruning; they are proved against the unpruned minimax value.
 */
module TicTacToe {
  import opened Wrappers

  datatype Mark = X | O

  /** A cell of the board: `None` is EMPTY. */
  type Cell = Option<Mark>

  predicate IsBoard(b: seq<seq<Cell>>) {
    |b| == 3 && forall i :: 0 <= i < 3 ==> |b[i]| == 3
  }

  type Board = b: seq<seq<Cell>> | IsBoard(b)
    witness [[None, None, None], [None, None, None], [None, None, None]]

  /** A move (i, j): row i, column j. */
  type Action = (int, int)

  datatype MoveError = InvalidAction

  /** Sentinels standing for -infinity and +infinity; every utility lies strictly between them. */
  const NegInf: int := -2
  const PosInf: int := 2

  function Max(a: int, b: int): int { if a < b then b else a }
  function Min(a: int, b: int): int { if a < b then a else b }

  // ---------------------------------------------------------------------------
  // Cells in row-major order

  /** The nine cells in the order the nested loops of `player` and `actions` visit them. */
  function CellAt(k: nat): Action { (k / 3, k % 3) }

  predicate InRange(a: Action) { 0 <= a.0 < 3 && 0 <= a.1 < 3 }

  function Index(a: Action): int { 3 * a.0 + a.1 }

  lemma IndexOfCell(a: Action)
    requires InRange(a)
    ensures 0 <= Index(a) < 9 && CellAt(Index(a)) == a
  {
    assert a.0 == 0 || a.0 == 1 || a.0 == 2;
    assert a.1 == 0 || a.1 == 1 || a.1 == 2;
  }

  lemma CellOfIndex(k: nat)
    requires k < 9
    ensures InRange(CellAt(k)) && Index(CellAt(k)) == k
  {
  }

  function At(b: Board, a: Action): Cell
    requires InRange(a)
  {
    b[a.0][a.1]
  }

  /** The number of cells among AllCells[k..] that hold `m`. */
  function CountFrom(b: Board, m: Cell, k: nat): nat
    requires k <= 9
    decreases 9 - k
  {
    if k == 9 then 0 else (if At(b, CellAt(k)) == m then 1 else 0) + CountFrom(b, m, k + 1)
  }

  function Count(b: Board, m: Cell): nat { CountFrom(b, m, 0) }

  function EmptyCount(b: Board): nat { Count(b, None) }

  lemma {:induction false} CountsSum(b: Board, k: nat)
    requires k <= 9
    ensures CountFrom(b, None, k) + CountFrom(b, Some(X), k) + CountFrom(b, Some(O), k) == 9 - k
    decreases 9 - k
  {
    if k < 9 {
      CountsSum(b, k + 1);
      match At(b, CellAt(k))
      case None =>
      case Some(m) => assert m == X || m == O;
    }
  }

  // ---------------------------------------------------------------------------
  // Rules

  function InitialState(): (b: Board)
    ensures forall a :: InRange(a) ==> At(b, a) == None
  {
    [[None, None, None], [None, None, None], [None, None, None]]
  }

  /**
   * The player to move, from the parity of the EMPTY cells. On a balanced
   * board it is X's turn exactly when both players have made the same number
   * of moves.
   */
  function Player(b: Board): (p: Mark)
    ensures Balanced(b) ==> (p == X <==> Count(b, Some(X)) == Count(b, Some(O)))
  {
    CountsSum(b, 0);
    Parity(EmptyCount(b), Count(b, Some(X)), Count(b, Some(O)));
    if EmptyCount(b) % 2 == 0 then O else X
  }

  /** The set of all (i, j) whose cell is EMPTY: as many actions as EMPTY cells, the count `player` is computed from. */
  function Actions(b: Board): (r: set<Action>)
    ensures |r| == EmptyCount(b)
  {
    ActionsFromAll(b);
    ActionsFromCount(b, 0);
    set i, j | 0 <= i < 3 && 0 <= j < 3 && b[i][j] == None :: (i, j)
  }

  /** The board with mark p written at a, and every other cell as before. */
  function Put(b: Board, a: Action, p: Mark): Board
    requires InRange(a)
  {
    b[a.0 := b[a.0][a.1 := Some(p)]]
  }

  lemma {:induction false} CountAfterPut(b: Board, a: Action, p: Mark, m: Cell, k: nat)
    requires InRange(a) && At(b, a) == None && k <= 9
    ensures CountFrom(Put(b, a, p), m, k)
            == CountFrom(b, m, k)
               + (if Index(a) >= k && m == Some(p) then 1 else 0)
               - (if Index(a) >= k && m == None then 1 else 0)
    decreases 9 - k
  {
    IndexOfCell(a);
    if k < 9 {
      CountAfterPut(b, a, p, m, k + 1);
      CellAfterPut(b, a, p, k);
      var r := Put(b, a, p);
      assert CountFrom(r, m, k) == (if At(r, CellAt(k)) == m then 1 else 0) + CountFrom(r, m, k + 1);
      assert CountFrom(b, m, k) == (if At(b, CellAt(k)) == m then 1 else 0) + CountFrom(b, m, k + 1);
    }
  }

  lemma CellAfterPut(b: Board, a: Action, p: Mark, k: nat)
    requires InRange(a) && k < 9
    ensures InRange(CellAt(k))
    ensures At(Put(b, a, p), CellAt(k)) == if k == Index(a) then Some(p) else At(b, CellAt(k))
  {
    CellOfIndex(k);
    IndexOfCell(a);
    assert CellAt(k) == a <==> k == Index(a);
  }

  /** The successful branch of `result`: the player to move writes their mark at a. */
  function Play(b: Board, a: Action): (r: Board)
    requires a in Actions(b)
    ensures EmptyCount(r) == EmptyCount(b) - 1
  {
    CountAfterPut(b, a, Player(b), None, 0);
    Put(b, a, Player(b))
  }

  /** A move writes the mark of the player to move at a and leaves every other cell as it was. */
  lemma PlayCells(b: Board, a: Action)
    requires a in Actions(b)
    ensures At(Play(b, a), a) == Some(Player(b))
    ensures forall c :: InRange(c) && c != a ==> At(Play(b, a), c) == At(b, c)
  {
  }

  /**
   * `result`: raises (here Err) when a row or column lies outside 0..2 or the
   * cell is taken; otherwise a new board. The input is a value and is never changed.
   */
  function Result(b: Board, a: Action): (r: Result<Board, MoveError>)
    ensures r.Ok? <==> InRange(a) && At(b, a) == None
    ensures r.Ok? ==> At(r.value, a) == Some(Player(b))
    ensures r.Ok? ==> forall c :: InRange(c) && c != a ==> At(r.value, c) == At(b, c)
  {
    if !(0 <= a.0 < 3) || !(0 <= a.1 < 3) || b[a.0][a.1] != None then
      Err(InvalidAction)
    else
      PlayCells(b, a);
      Ok(Play(b, a))
  }

  /** The eight lines, in the order `winner` checks them: rows, columns, main diagonal, anti-diagonal. */
  const Lines: seq<seq<Action>> := [
    [(0, 0), (0, 1), (0, 2)], [(1, 0), (1, 1), (1, 2)], [(2, 0), (2, 1), (2, 2)],
    [(0, 0), (1, 0), (2, 0)], [(0, 1), (1, 1), (2, 1)], [(0, 2), (1, 2), (2, 2)],
    [(0, 0), (1, 1), (2, 2)], [(0, 2), (1, 1), (2, 0)]
  ]

  /** Player p holds all three cells of line number n. */
  predicate Owns(b: Board, p: Mark, n: nat)
    requires n < 8
  {
    var l := Lines[n];
    b[l[0].0][l[0].1] == Some(p) && b[l[1].0][l[1].1] == Some(p) && b[l[2].0][l[2].1] == Some(p)
  }

  /** Reference definition: some row, column or diagonal is all p. */
  predicate HasLine(b: Board, p: Mark) {
    exists n :: 0 <= n < 8 && Owns(b, p, n)
  }

  /**
   * The scan of `winner` from line n on: within each line X is checked
   * before O. It reports only a player who holds one of these lines, and
   * nobody only when none of them is held.
   */
  function WinnerFrom(b: Board, n: nat): (r: Option<Mark>)
    requires n <= 8
    ensures r.Some? ==> exists n' :: n <= n' < 8 && Owns(b, r.value, n')
    ensures r.None? ==> forall n' :: n <= n' < 8 ==> !Owns(b, X, n') && !Owns(b, O, n')
    decreases 8 - n
  {
    if n == 8 then None
    else if Owns(b, X, n) then Some(X)
    else if Owns(b, O, n) then Some(O)
    else WinnerFrom(b, n + 1)
  }

  /** `winner` reports only a player who holds a line, and reports nobody exactly when no line is complete. */
  function Winner(b: Board): (r: Option<Mark>)
    ensures r.Some? ==> HasLine(b, r.value)
    ensures r.None? <==> !HasLine(b, X) && !HasLine(b, O)
  {
    WinnerFrom(b, 0)
  }

  /** From line n on, if only p has complete lines and one of them lies ahead, the scan reports p. */
  lemma {:induction false} WinnerFromOnlyLine(b: Board, n: nat, p: Mark)
    requires n <= 8
    requires exists m :: n <= m < 8 && Owns(b, p, m)
    requires !HasLine(b, if p == X then O else X)
    ensures WinnerFrom(b, n) == Some(p)
    decreases 8 - n
  {
    if !Owns(b, p, n) {
      WinnerFromOnlyLine(b, n + 1, p);
    }
  }

  /** When only one player has a complete line, that player is the winner. */
  lemma WinnerOfOneLine(b: Board, p: Mark)
    requires HasLine(b, p)
    requires !HasLine(b, if p == X then O else X)
    ensures Winner(b) == Some(p)
  {
    WinnerFromOnlyLine(b, 0, p);
  }

  predicate NoEmptyCell(b: Board) {
    forall i, j :: 0 <= i < 3 && 0 <= j < 3 ==> b[i][j] != None
  }

  /** No EMPTY cell remains exactly when no action is left. */
  lemma NoEmptyCellMeaning(b: Board)
    ensures NoEmptyCell(b) <==> Actions(b) == {}
  {
    if !NoEmptyCell(b) {
      var i, j :| 0 <= i < 3 && 0 <= j < 3 && b[i][j] == None;
      assert (i, j) in Actions(b);
    }
  }

  /** The game is over exactly when a line is complete or no action is left. */
  function Terminal(b: Board): (r: bool)
    ensures r <==> HasLine(b, X) || HasLine(b, O) || Actions(b) == {}
  {
    NoEmptyCellMeaning(b);
    Winner(b) != None || NoEmptyCell(b)
  }

  /** 1 if X has won, -1 if O has won, 0 otherwise. */
  function Utility(b: Board): (r: int)
    ensures -1 <= r <= 1
  {
    if Winner(b) == Some(X) then 1
    else if Winner(b) == Some(O) then -1
    else 0
  }

  /** `utility` follows the winner: 1 for X, -1 for O, 0 when no line is complete. */
  lemma UtilityMeaning(b: Board)
    ensures Utility(b) == 1 <==> Winner(b) == Some(X)
    ensures Utility(b) == -1 <==> Winner(b) == Some(O)
    ensures Utility(b) == 0 <==> !HasLine(b, X) && !HasLine(b, O)
  {
  }

  // ---------------------------------------------------------------------------
  // Properties of the rules

  /** On the initial board X moves first, and every cell is available. */
  lemma InitialStateFacts()
    ensures Player(InitialState()) == X
    ensures Actions(InitialState()) == set k | 0 <= k < 9 :: CellAt(k)
    ensures !Terminal(InitialState())
  {
    var b := InitialState();
    assert EmptyCount(b) == 9;
    assert forall k :: 0 <= k < 9 ==> CellAt(k) in Actions(b);
    forall a | a in Actions(b) ensures a in set k | 0 <= k < 9 :: CellAt(k) {
      IndexOfCell(a);
    }
    assert (0, 0) in Actions(b);
  }

  /** The EMPTY cells with index at least k, as a set of actions. */
  function ActionsFrom(b: Board, k: nat): set<Action>
    requires k <= 9
  {
    set k' | k <= k' < 9 && At(b, CellAt(k')) == None :: CellAt(k')
  }

  lemma {:induction false} ActionsFromCount(b: Board, k: nat)
    requires k <= 9
    ensures |ActionsFrom(b, k)| == CountFrom(b, None, k)
    decreases 9 - k
  {
    if k < 9 {
      ActionsFromCount(b, k + 1);
      CellOfIndex(k);
      assert CellAt(k) !in ActionsFrom(b, k + 1);
      if At(b, CellAt(k)) == None {
        assert ActionsFrom(b, k) == ActionsFrom(b, k + 1) + {CellAt(k)};
      } else {
        assert ActionsFrom(b, k) == ActionsFrom(b, k + 1);
      }
    }
  }

  /** The EMPTY cells gathered row by row are those gathered in row-major index order. */
  lemma ActionsFromAll(b: Board)
    ensures (set i, j | 0 <= i < 3 && 0 <= j < 3 && b[i][j] == None :: (i, j)) == ActionsFrom(b, 0)
  {
    var all := set i, j | 0 <= i < 3 && 0 <= j < 3 && b[i][j] == None :: (i, j);
    forall a | a in all ensures a in ActionsFrom(b, 0) {
      IndexOfCell(a);
    }
    forall a | a in ActionsFrom(b, 0) ensures a in all {
      var k :| 0 <= k < 9 && At(b, CellAt(k)) == None && CellAt(k) == a;
      CellOfIndex(k);
    }
  }

  /** A board reachable by alternating moves from the initial state: X has as many marks as O, or one more. */
  predicate Balanced(b: Board) {
    Count(b, Some(X)) == Count(b, Some(O)) || Count(b, Some(X)) == Count(b, Some(O)) + 1
  }

  lemma Parity(e: nat, x: nat, o: nat)
    requires e + x + o == 9
    ensures (x == o || x == o + 1) ==> (e % 2 == 0 <==> x != o)
  {
    if x == o {
      assert e == 2 * (4 - x) + 1;
    } else if x == o + 1 {
      assert e == 2 * (4 - o);
    }
  }

  /** Every move keeps a board balanced; so every board reached from the initial state is balanced. */
  lemma PlayKeepsBalance(b: Board, a: Action)
    requires Balanced(b) && a in Actions(b)
    ensures Balanced(Play(b, a))
  {
    CountAfterPut(b, a, Player(b), Some(X), 0);
    CountAfterPut(b, a, Player(b), Some(O), 0);
  }

  /** A board that is not over has at least one action. */
  lemma LiveBoardHasAction(b: Board)
    requires !Terminal(b)
    ensures Actions(b) != {}
    ensures exists a :: a in Actions(b) && Index(a) >= 0
  {
    var a :| a in Actions(b);
    IndexOfCell(a);
  }

  // ---------------------------------------------------------------------------
  // The unpruned minimax value

  /** The minimax value of b with the maximising player to move. */
  function MaxSpec(b: Board): (v: int)
    ensures -1 <= v <= 1
    decreases EmptyCount(b), 1, 0
  {
    if Terminal(b) then Utility(b) else LiveBoardHasAction(b); MaxFrom(b, 0)
  }

  /** The minimax value of b with the minimising player to move. */
  function MinSpec(b: Board): (v: int)
    ensures -1 <= v <= 1
    decreases EmptyCount(b), 1, 0
  {
    if Terminal(b) then Utility(b) else LiveBoardHasAction(b); MinFrom(b, 0)
  }

  /** The largest MinSpec of a successor through an EMPTY cell among AllCells[k..]; NegInf if there is none. */
  function MaxFrom(b: Board, k: nat): (v: int)
    requires k <= 9
    ensures v == NegInf || -1 <= v <= 1
    ensures (exists a :: a in Actions(b) && Index(a) >= k) ==> -1 <= v <= 1
    decreases EmptyCount(b), 0, 9 - k
  {
    if k == 9 then
      assert forall a :: a in Actions(b) ==> Index(a) < 9;
      NegInf
    else
      CellOfIndex(k);
      var rest := MaxFrom(b, k + 1);
      if At(b, CellAt(k)) == None then
        assert CellAt(k) in Actions(b);
        Max(MinSpec(Play(b, CellAt(k))), rest)
      else
        assert forall a :: a in Actions(b) && Index(a) >= k ==> Index(a) >= k + 1 by {
          forall a | a in Actions(b) && Index(a) >= k ensures Index(a) >= k + 1 {
            IndexOfCell(a);
          }
        }
        rest
  }

  /** The smallest MaxSpec of a successor through an EMPTY cell among AllCells[k..]; PosInf if there is none. */
  function MinFrom(b: Board, k: nat): (v: int)
    requires k <= 9
    ensures v == PosInf || -1 <= v <= 1
    ensures (exists a :: a in Actions(b) && Index(a) >= k) ==> -1 <= v <= 1
    decreases EmptyCount(b), 0, 9 - k
  {
    if k == 9 then
      assert forall a :: a in Actions(b) ==> Index(a) < 9;
      PosInf
    else
      CellOfIndex(k);
      var rest := MinFrom(b, k + 1);
      if At(b, CellAt(k)) == None then
        assert CellAt(k) in Actions(b);
        Min(MaxSpec(Play(b, CellAt(k))), rest)
      else
        assert forall a :: a in Actions(b) && Index(a) >= k ==> Index(a) >= k + 1 by {
          forall a | a in Actions(b) && Index(a) >= k ensures Index(a) >= k + 1 {
            IndexOfCell(a);
          }
        }
        rest
  }

  lemma {:induction false} MaxFromIsMaximum(b: Board, k: nat)
    requires k <= 9
    ensures forall a :: a in Actions(b) && Index(a) >= k ==> MinSpec(Play(b, a)) <= MaxFrom(b, k)
    ensures MaxFrom(b, k) != NegInf ==>
              exists a :: a in Actions(b) && Index(a) >= k && MinSpec(Play(b, a)) == MaxFrom(b, k)
    decreases 9 - k
  {
    if k < 9 {
      MaxFromIsMaximum(b, k + 1);
      CellOfIndex(k);
      forall a | a in Actions(b) && Index(a) >= k ensures MinSpec(Play(b, a)) <= MaxFrom(b, k) {
        IndexOfCell(a);
        if a == CellAt(k) {
          assert MaxFrom(b, k) == Max(MinSpec(Play(b, a)), MaxFrom(b, k + 1));
        } else {
          assert Index(a) >= k + 1;
        }
      }
    }
  }

  lemma {:induction false} MinFromIsMinimum(b: Board, k: nat)
    requires k <= 9
    ensures forall a :: a in Actions(b) && Index(a) >= k ==> MinFrom(b, k) <= MaxSpec(Play(b, a))
    ensures MinFrom(b, k) != PosInf ==>
              exists a :: a in Actions(b) && Index(a) >= k && MaxSpec(Play(b, a)) == MinFrom(b, k)
    decreases 9 - k
  {
    if k < 9 {
      MinFromIsMinimum(b, k + 1);
      CellOfIndex(k);
      forall a | a in Actions(b) && Index(a) >= k ensures MinFrom(b, k) <= MaxSpec(Play(b, a)) {
        IndexOfCell(a);
        if a == CellAt(k) {
          assert MinFrom(b, k) == Min(MaxSpec(Play(b, a)), MinFrom(b, k + 1));
        } else {
          assert Index(a) >= k + 1;
        }
      }
    }
  }

  /** On a live board the maximiser's value is the largest value of a successor, and some action attains it. */
  lemma MaxSpecIsBestMove(b: Board)
    requires !Terminal(b)
    ensures forall a :: a in Actions(b) ==> MinSpec(Play(b, a)) <= MaxSpec(b)
    ensures exists a :: a in Actions(b) && MinSpec(Play(b, a)) == MaxSpec(b)
  {
    MaxFromIsMaximum(b, 0);
    LiveBoardHasAction(b);
    forall a | a in Actions(b) ensures Index(a) >= 0 { IndexOfCell(a); }
  }

  /** On a live board the minimiser's value is the smallest value of a successor, and some action attains it. */
  lemma MinSpecIsBestMove(b: Board)
    requires !Terminal(b)
    ensures forall a :: a in Actions(b) ==> MinSpec(b) <= MaxSpec(Play(b, a))
    ensures exists a :: a in Actions(b) && MaxSpec(Play(b, a)) == MinSpec(b)
  {
    MinFromIsMinimum(b, 0);
    LiveBoardHasAction(b);
    forall a | a in Actions(b) ensures Index(a) >= 0 { IndexOfCell(a); }
  }

  // ---------------------------------------------------------------------------
  // Alpha-beta search

  /**
   * What a fail-soft alpha-beta search promises about its result r for a
   * position of true value value, searched with the window (lo, hi): a result
   * at or below lo is an upper bound, one at or above hi a lower bound, and one
   * strictly inside the window is exact.
   */
  predicate FailSoft(r: int, value: int, lo: int, hi: int) {
    && (r <= lo ==> value <= r)
    && (hi <= r ==> r <= value)
    && (lo < r < hi ==> r == value)
  }

  /**
   * One round of max_value's loop, on the numbers alone: v and lo before the
   * round, nv the value the search of the child returned, c the child's true value.
   */
  lemma MaxRound(alpha: int, beta: int, v: int, lo: int, nv: int, c: int)
    requires alpha < beta && lo < beta && -1 <= nv <= 1
    requires (v == NegInf && lo == alpha) || (-1 <= v <= 1 && lo == Max(alpha, v))
    requires FailSoft(nv, c, lo, beta)
    ensures var v' := if nv > v then nv else v;
            && Max(lo, v') == Max(alpha, v')
            && (Max(lo, v') < beta ==> c <= v')
            && (Max(lo, v') < beta && nv > v && alpha < v' ==> c == v')
            && (beta <= Max(lo, v') ==> nv > v && beta <= v' <= c)
  {
  }

  /** One round of min_value's loop, on the numbers alone (the mirror image of MaxRound). */
  lemma MinRound(alpha: int, beta: int, v: int, hi: int, nv: int, c: int)
    requires alpha < beta && alpha < hi && -1 <= nv <= 1
    requires (v == PosInf && hi == beta) || (-1 <= v <= 1 && hi == Min(beta, v))
    requires FailSoft(nv, c, alpha, hi)
    ensures var v' := if nv < v then nv else v;
            && Min(hi, v') == Min(beta, v')
            && (alpha < Min(hi, v') ==> v' <= c)
            && (alpha < Min(hi, v') && nv < v && v' < beta ==> c == v')
            && (Min(hi, v') <= alpha ==> nv < v && c <= v' <= alpha)
  {
  }

  /** Once child a is searched, the bound on the children searched so far covers a too. */
  lemma MaxSeenStep(b: Board, before: set<Action>, a: Action, w: int, v: int)
    requires a in before && a in Actions(b)
    requires forall a' :: a' in Actions(b) && a' !in before ==> MinSpec(Play(b, a')) <= w
    requires w <= v && MinSpec(Play(b, a)) <= v
    ensures forall a' :: a' in Actions(b) && a' !in before - {a} ==> MinSpec(Play(b, a')) <= v
  {
  }

  /** The mirror image of MaxSeenStep for the minimiser. */
  lemma MinSeenStep(b: Board, before: set<Action>, a: Action, w: int, v: int)
    requires a in before && a in Actions(b)
    requires forall a' :: a' in Actions(b) && a' !in before ==> w <= MaxSpec(Play(b, a'))
    requires v <= w && v <= MaxSpec(Play(b, a))
    ensures forall a' :: a' in Actions(b) && a' !in before - {a} ==> v <= MaxSpec(Play(b, a'))
  {
  }

  /** max_value: the maximiser's value of b and a move, with alpha-beta pruning over the actions in any order. */
  method MaxValue(b: Board, alpha: int, beta: int) returns (v: int, best: Option<Action>)
    ensures -1 <= v <= 1
    ensures Terminal(b) ==> v == Utility(b) && best == None
    ensures !Terminal(b) ==> best.Some? && best.value in Actions(b)
    ensures alpha < beta ==> FailSoft(v, MaxSpec(b), alpha, beta)
    ensures !Terminal(b) && alpha < v < beta ==> MinSpec(Play(b, best.value)) == MaxSpec(b)
    decreases EmptyCount(b)
  {
    if Terminal(b) {
      return Utility(b), None;
    }
    MaxSpecIsBestMove(b);
    LiveBoardHasAction(b);
    v, best := NegInf, None;
    var lo := alpha;
    var remaining := Actions(b);
    while remaining != {}
      invariant remaining <= Actions(b)
      invariant best.None? ==> v == NegInf && lo == alpha && remaining == Actions(b)
      invariant best.Some? ==> -1 <= v <= 1 && lo == Max(alpha, v) && best.value in Actions(b)
      invariant alpha < beta ==> lo < beta
      invariant alpha < beta ==>
                  forall a :: a in Actions(b) && a !in remaining ==> MinSpec(Play(b, a)) <= v
      invariant alpha < beta && alpha < v && best.Some? ==> MinSpec(Play(b, best.value)) == v
      decreases remaining
    {
      var a :| a in remaining;
      ghost var before, w := remaining, v;
      remaining := remaining - {a};
      var nv, _ := MinValue(Play(b, a), lo, beta);
      if alpha < beta {
        MaxRound(alpha, beta, v, lo, nv, MinSpec(Play(b, a)));
      }
      if nv > v {
        v, best := nv, Some(a);
      }
      lo := Max(lo, v);
      if beta <= lo {
        break;
      }
      if alpha < beta {
        MaxSeenStep(b, before, a, w, v);
      }
    }
  }

  /** min_value: the minimiser's value of b and a move, with alpha-beta pruning over the actions in any order. */
  method MinValue(b: Board, alpha: int, beta: int) returns (v: int, best: Option<Action>)
    ensures -1 <= v <= 1
    ensures Terminal(b) ==> v == Utility(b) && best == None
    ensures !Terminal(b) ==> best.Some? && best.value in Actions(b)
    ensures alpha < beta ==> FailSoft(v, MinSpec(b), alpha, beta)
    ensures !Terminal(b) && alpha < v < beta ==> MaxSpec(Play(b, best.value)) == MinSpec(b)
    decreases EmptyCount(b)
  {
    if Terminal(b) {
      return Utility(b), None;
    }
    MinSpecIsBestMove(b);
    LiveBoardHasAction(b);
    v, best := PosInf, None;
    var hi := beta;
    var remaining := Actions(b);
    while remaining != {}
      invariant remaining <= Actions(b)
      invariant best.None? ==> v == PosInf && hi == beta && remaining == Actions(b)
      invariant best.Some? ==> -1 <= v <= 1 && hi == Min(beta, v) && best.value in Actions(b)
      invariant alpha < beta ==> alpha < hi
      invariant alpha < beta ==>
                  forall a :: a in Actions(b) && a !in remaining ==> v <= MaxSpec(Play(b, a))
      invariant alpha < beta && v < beta && best.Some? ==> MaxSpec(Play(b, best.value)) == v
      decreases remaining
    {
      var a :| a in remaining;
      ghost var before, w := remaining, v;
      remaining := remaining - {a};
      var nv, _ := MaxValue(Play(b, a), alpha, hi);
      if alpha < beta {
        MinRound(alpha, beta, v, hi, nv, MaxSpec(Play(b, a)));
      }
      if nv < v {
        v, best := nv, Some(a);
      }
      hi := Min(hi, v);
      if hi <= alpha {
        break;
      }
      if alpha < beta {
        MinSeenStep(b, before, a, w, v);
      }
    }
  }

  /**
   * minimax: no move on a finished board; otherwise a move of the player to
   * move that attains the board's minimax value.
   */
  method Minimax(b: Board) returns (action: Option<Action>)
    ensures action.None? <==> Terminal(b)
    ensures action.Some? ==> action.value in Actions(b)
    ensures action.Some? && Player(b) == X ==> MinSpec(Play(b, action.value)) == MaxSpec(b)
    ensures action.Some? && Player(b) == O ==> MaxSpec(Play(b, action.value)) == MinSpec(b)
  {
    if Terminal(b) {
      return None;
    }
    if Player(b) == X {
      var _, a := MaxValue(b, NegInf, PosInf);
      action := a;
    } else {
      var _, a := MinValue(b, NegInf, PosInf);
      action := a;
    }
  }
}
