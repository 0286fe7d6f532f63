/**
 * The single-player tic-tac-toe engine of src/components/TicTacToe.js:
 * the terminal-state check `checkWinner`, the exhaustive game-tree search
 * `getBestMove`/`minimax` (which probes a shared 9-cell array and restores
 * it), and the session state that `handleClick`, `makeAIMove` and
 * `resetGame` update.
 */
module TicTacToe {
  import opened Options

  datatype Mark = X | O

  /** A cell is `null` or a mark; a board is the 9 cells in row-major order. */
  type Cell = Option<Mark>
  type Board = seq<Cell>
  type Index = i: nat | i < 9

  /** What `checkWinner` returns: a mark, `"draw"`, or `null`. */
  datatype Verdict = Won(mark: Mark) | Draw | Undecided

  /** The singleplayer difficulty selector. */
  datatype Difficulty = Easy | Hard

  function Other(m: Mark): (r: Mark)
    ensures r != m
  {
    if m == X then O else X
  }

  /** The mark placed at a `minimax` level: the AI's when maximizing, the opponent's otherwise. */
  function Mover(isMax: bool, player: Mark): Mark
  {
    if isMax then player else Other(player)
  }

  function EmptyBoard(): (b: Board)
    ensures |b| == 9 && forall i :: 0 <= i < 9 ==> b[i] == None
  {
    seq(9, i => None)
  }

  // ---------------------------------------------------------------------
  // checkWinner
  // ---------------------------------------------------------------------

  /** The eight lines in the order `checkWinner` scans them: rows, columns, diagonals. */
  const Lines: seq<(Index, Index, Index)> :=
    [(0, 1, 2), (3, 4, 5), (6, 7, 8),
     (0, 3, 6), (1, 4, 7), (2, 5, 8),
     (0, 4, 8), (2, 4, 6)]

  /** The test `b[a] && b[a] === b[b1] && b[a] === b[c]` for line k. */
  predicate LineComplete(b: Board, k: nat)
    requires |b| == 9 && k < 8
  {
    var (p, q, r) := Lines[k];
    b[p].Some? && b[p] == b[q] && b[p] == b[r]
  }

  /** All three cells of line k hold mark m. */
  predicate LineHeldBy(b: Board, k: nat, m: Mark)
    requires |b| == 9 && k < 8
  {
    var (p, q, r) := Lines[k];
    b[p] == Some(m) && b[q] == Some(m) && b[r] == Some(m)
  }

  predicate NoLineComplete(b: Board)
    requires |b| == 9
  {
    forall k :: 0 <= k < 8 ==> !LineComplete(b, k)
  }

  /** `b.every(Boolean)`: no cell is empty. */
  predicate Full(b: Board)
  {
    forall i :: 0 <= i < |b| ==> b[i].Some?
  }

  /** The scan of lines k.. with early return: the first complete line, if any. */
  function FirstCompleteLine(b: Board, k: nat): (r: Option<nat>)
    requires |b| == 9 && k <= 8
    ensures r.Some? ==> k <= r.value < 8 && LineComplete(b, r.value)
    ensures r.Some? ==> forall j :: k <= j < r.value ==> !LineComplete(b, j)
    ensures r.None? <==> forall j :: k <= j < 8 ==> !LineComplete(b, j)
    decreases 8 - k
  {
    if k == 8 then None
    else if LineComplete(b, k) then Some(k)
    else FirstCompleteLine(b, k + 1)
  }

  /**
   * `checkWinner`: the mark of the first complete line in scan order;
   * otherwise a draw exactly when every cell is filled, and undecided
   * (`null`) when some cell is empty.
   */
  function CheckWinner(b: Board): (r: Verdict)
    requires |b| == 9
    ensures r.Won? ==> exists k :: 0 <= k < 8 && LineHeldBy(b, k, r.mark) &&
                                   forall j :: 0 <= j < k ==> !LineComplete(b, j)
    ensures r == Draw <==> NoLineComplete(b) && Full(b)
    ensures r == Undecided <==> NoLineComplete(b) && !Full(b)
  {
    match FirstCompleteLine(b, 0)
    case Some(k) =>
      var m := b[Lines[k].0].value;
      assert LineHeldBy(b, k, m);
      Won(m)
    case None => if Full(b) then Draw else Undecided
  }

  // ---------------------------------------------------------------------
  // Empty cells
  // ---------------------------------------------------------------------

  /** The number of empty cells among the first n. */
  function EmptyIn(b: Board, n: nat): (k: nat)
    requires n <= |b|
    ensures k <= n
  {
    if n == 0 then 0 else EmptyIn(b, n - 1) + (if b[n - 1].None? then 1 else 0)
  }

  function EmptyCount(b: Board): nat
  {
    EmptyIn(b, |b|)
  }

  lemma {:induction false} EmptyInPositive(b: Board, n: nat, j: nat)
    requires j < n <= |b| && b[j].None?
    ensures EmptyIn(b, n) > 0
  {
    if j < n - 1 {
      EmptyInPositive(b, n - 1, j);
    }
  }

  /** Placing a mark on an empty cell removes exactly one empty cell. */
  lemma {:induction false} EmptyInPlace(b: Board, n: nat, j: nat, m: Mark)
    requires n <= |b| && j < |b| && b[j].None?
    ensures EmptyIn(b[j := Some(m)], n) == if j < n then EmptyIn(b, n) - 1 else EmptyIn(b, n)
  {
    if n > 0 {
      EmptyInPlace(b, n - 1, j, m);
    }
  }

  /** An undecided board has an empty cell, so `minimax` always has a move to try. */
  lemma UndecidedHasEmpty(b: Board)
    requires |b| == 9 && CheckWinner(b) == Undecided
    ensures EmptyCount(b) > 0
  {
    var j :| 0 <= j < 9 && b[j].None?;
    EmptyInPositive(b, 9, j);
  }

  /**
   * The indices of the empty cells among the first n, in increasing order
   * (`currentBoard.map((v, i) => v === null ? i : null).filter(i => i !== null)`).
   */
  function EmptyCellsIn(b: Board, n: nat): (r: seq<nat>)
    requires n <= |b|
    ensures |r| == EmptyIn(b, n)
    ensures forall k :: 0 <= k < |r| ==> r[k] < n && b[r[k]].None?
    ensures forall j :: 0 <= j < n && b[j].None? ==> j in r
    ensures forall k, l :: 0 <= k < l < |r| ==> r[k] < r[l]
  {
    if n == 0 then []
    else if b[n - 1].None? then EmptyCellsIn(b, n - 1) + [n - 1]
    else EmptyCellsIn(b, n - 1)
  }

  function EmptyCells(b: Board): seq<nat>
  {
    EmptyCellsIn(b, |b|)
  }

  // ---------------------------------------------------------------------
  // minimax and getBestMove
  // ---------------------------------------------------------------------

  function MaxOf(s: seq<int>): (m: int)
    requires |s| > 0
    ensures m in s && forall k :: 0 <= k < |s| ==> s[k] <= m
  {
    if |s| == 1 then s[0]
    else
      var t := MaxOf(s[1..]);
      if s[0] > t then s[0] else t
  }

  function MinOf(s: seq<int>): (m: int)
    requires |s| > 0
    ensures m in s && forall k :: 0 <= k < |s| ==> m <= s[k]
  {
    if |s| == 1 then s[0]
    else
      var t := MinOf(s[1..]);
      if s[0] < t then s[0] else t
  }

  /**
   * The value of `minimax(b, depth, isMaximizing)` for the AI playing `player`:
   * 10 - depth for a win of `player`, depth - 10 for a win of the opponent,
   * 0 for a draw, and otherwise the maximum (or minimum) over the children.
   * Each level fills one empty cell, so the search depth is bounded by the
   * empty cells and the score by 10 - depth.
   */
  function Score(b: Board, depth: nat, isMax: bool, player: Mark): (v: int)
    requires |b| == 9
    ensures depth + EmptyCount(b) <= 10 ==> depth - 10 <= v <= 10 - depth
    decreases EmptyCount(b), 1, 0
  {
    match CheckWinner(b)
    case Won(m) => if m == player then 10 - depth else depth - 10
    case Draw => 0
    case Undecided =>
      var scores := ChildScores(b, 9, depth, isMax, player);
      UndecidedHasEmpty(b);
      if isMax then MaxOf(scores) else MinOf(scores)
  }

  /**
   * The `scores` list of one `minimax` call after its loop has visited the
   * first n cells: for each empty cell in index order, the score of the
   * board with the mover's mark there.
   */
  function ChildScores(b: Board, n: nat, depth: nat, isMax: bool, player: Mark): (s: seq<int>)
    requires |b| == 9 && n <= 9
    ensures |s| == EmptyIn(b, n)
    ensures depth + EmptyCount(b) <= 10 ==> forall k :: 0 <= k < |s| ==> depth - 10 <= s[k] <= 10 - depth
    decreases EmptyCount(b), 0, n
  {
    if n == 0 then []
    else if b[n - 1].None? then
      var m := Mover(isMax, player);
      EmptyInPlace(b, 9, n - 1, m);
      ChildScores(b, n - 1, depth, isMax, player) + [Score(b[n - 1 := Some(m)], depth + 1, !isMax, player)]
    else ChildScores(b, n - 1, depth, isMax, player)
  }

  /** One more visited cell appends that cell's score when it is empty. */
  lemma ChildScoresStep(b: Board, n: nat, depth: nat, isMax: bool, player: Mark)
    requires |b| == 9 && n < 9
    ensures ChildScores(b, n + 1, depth, isMax, player) ==
            ChildScores(b, n, depth, isMax, player) +
            (if b[n].None? then [Score(b[n := Some(Mover(isMax, player))], depth + 1, !isMax, player)] else [])
  {
  }

  lemma ScoreUndecided(b: Board, depth: nat, isMax: bool, player: Mark)
    requires |b| == 9 && CheckWinner(b) == Undecided
    ensures |ChildScores(b, 9, depth, isMax, player)| > 0
    ensures Score(b, depth, isMax, player) ==
            if isMax then MaxOf(ChildScores(b, 9, depth, isMax, player))
            else MinOf(ChildScores(b, 9, depth, isMax, player))
  {
    UndecidedHasEmpty(b);
  }

  /**
   * `minimax`, searching in place: every probe `a[i] := mark` is undone by
   * `a[i] := null` before the next one, so the array is as it was on return.
   */
  method Minimax(a: array<Cell>, depth: nat, isMax: bool, player: Mark) returns (score: int)
    requires a.Length == 9
    modifies a
    ensures a[..] == old(a[..])
    ensures score == Score(old(a[..]), depth, isMax, player)
    decreases EmptyCount(a[..]), 1
  {
    ghost var b := a[..];
    var result := CheckWinner(a[..]);
    if result.Won? {
      // `result === player` gives a win, otherwise it is the opponent's
      return if result.mark == player then 10 - depth else depth - 10;
    }
    if result == Draw {
      return 0;
    }
    var scores := ProbeChildren(a, depth, isMax, player);
    ScoreUndecided(b, depth, isMax, player);
    score := if isMax then MaxOf(scores) else MinOf(scores);
  }

  /**
   * The loop of `minimax`: for each empty cell in index order, place the
   * mover's mark, push the score of the deeper search, and clear the cell.
   */
  method ProbeChildren(a: array<Cell>, depth: nat, isMax: bool, player: Mark) returns (scores: seq<int>)
    requires a.Length == 9
    modifies a
    ensures a[..] == old(a[..])
    ensures scores == ChildScores(old(a[..]), 9, depth, isMax, player)
    decreases EmptyCount(a[..]), 0
  {
    ghost var b := a[..];
    scores := [];
    var i := 0;
    while i < a.Length
      invariant 0 <= i <= 9
      invariant a[..] == b
      invariant scores == ChildScores(b, i, depth, isMax, player)
    {
      ChildScoresStep(b, i, depth, isMax, player);
      if a[i] == None {
        var m := Mover(isMax, player);
        a[i] := Some(m);
        assert a[..] == b[i := Some(m)];
        EmptyInPlace(b, 9, i, m);
        var s := Minimax(a, depth + 1, !isMax, player);
        scores := scores + [s];
        a[i] := None;
        assert a[..] == b;
      }
      i := i + 1;
    }
  }

  /** The score `getBestMove` obtains by probing cell i for `player`. */
  function ProbeScore(b: Board, i: nat, player: Mark): int
    requires |b| == 9 && i < 9
  {
    Score(b[i := Some(player)], 0, false, player)
  }

  /**
   * Cell i is what `getBestMove` returns: an empty cell of maximal probe
   * score, and (because the comparison is a strict `>`) the lowest such index.
   */
  predicate IsBestMove(b: Board, i: nat, player: Mark)
    requires |b| == 9
  {
    && i < 9 && b[i].None?
    && (forall j :: 0 <= j < 9 && b[j].None? ==> ProbeScore(b, j, player) <= ProbeScore(b, i, player))
    && (forall j :: 0 <= j < i && b[j].None? ==> ProbeScore(b, j, player) < ProbeScore(b, i, player))
  }

  /**
   * `getBestMove`: `null` exactly when no cell is empty, otherwise the first
   * best-scoring empty cell; the board is left as it was found.
   */
  method GetBestMove(a: array<Cell>, player: Mark) returns (best: Option<nat>)
    requires a.Length == 9
    modifies a
    ensures a[..] == old(a[..])
    ensures best.None? <==> Full(old(a[..]))
    ensures best.Some? ==> IsBestMove(old(a[..]), best.value, player)
  {
    ghost var b := a[..];
    var bestScore := 0;  // stands for -Infinity while best is None
    best := None;
    var i := 0;
    while i < a.Length
      invariant 0 <= i <= 9 && a[..] == b
      invariant best.None? <==> forall j :: 0 <= j < i ==> b[j].Some?
      invariant best.Some? ==> best.value < i && b[best.value].None? &&
                               bestScore == ProbeScore(b, best.value, player)
      invariant best.Some? ==> forall j :: 0 <= j < i && b[j].None? ==> ProbeScore(b, j, player) <= bestScore
      invariant best.Some? ==> forall j :: 0 <= j < best.value && b[j].None? ==> ProbeScore(b, j, player) < bestScore
    {
      if a[i] == None {
        a[i] := Some(player);
        assert a[..] == b[i := Some(player)];
        var score := Minimax(a, 0, false, player);
        a[i] := None;
        assert a[..] == b;
        if best.None? || score > bestScore {
          bestScore := score;
          best := Some(i);
        }
      }
      i := i + 1;
    }
  }

  // ---------------------------------------------------------------------
  // The single-player session
  // ---------------------------------------------------------------------

  /**
   * The cell `makeAIMove` takes for O: `getBestMove` on hard, an arbitrary
   * empty cell on easy (standing for the random pick). `proceed` is the
   * `move !== null` guard: only a hard search on a full board fails it,
   * since an easy pick on a full board is `undefined`, which passes the
   * guard and then writes no cell (`move` is None).
   */
  method ChooseAIMove(difficulty: Difficulty, current: Board) returns (move: Option<nat>, proceed: bool)
    requires |current| == 9
    ensures proceed <==> !(difficulty == Hard && Full(current))
    ensures move.None? <==> Full(current)
    ensures move.Some? ==> move.value < 9 && current[move.value].None?
    ensures move.Some? && difficulty == Hard ==> IsBestMove(current, move.value, O)
  {
    if difficulty == Hard {
      var a := new Cell[9](k requires 0 <= k < 9 => current[k]);
      assert a[..] == current;
      move := GetBestMove(a, O);
      proceed := move.Some?;
    } else {
      var empty := EmptyCells(current);
      if |empty| > 0 {
        var k :| 0 <= k < |empty|;
        move := Some(empty[k]);
      } else {
        move := None;
      }
      proceed := true;
    }
  }

  /** The score table after a result: a win adds one to the winner's count. */
  function Tally(score: map<Mark, nat>, v: Verdict): (r: map<Mark, nat>)
    requires X in score && O in score
    ensures X in r && O in r
    ensures forall m :: m in score ==> m in r && r[m] == if v == Won(m) then score[m] + 1 else score[m]
  {
    match v
    case Won(X) => score[X := score[X] + 1]
    case Won(O) => score[O := score[O] + 1]
    case _ => score
  }

  class Game {
    var board: Board
    var symbol: Mark
    var isPlayerTurn: bool
    var turn: Mark
    var winner: Verdict  // Undecided stands for `null`
    var score: map<Mark, nat>
    var difficulty: Difficulty

    ghost predicate Valid()
      reads this
    {
      |board| == 9 && X in score && O in score
    }

    /** The initial state of the component. */
    constructor ()
      ensures Valid()
      ensures board == EmptyBoard() && symbol == X && isPlayerTurn && turn == X
      ensures winner == Undecided && score == map[X := 0, O := 0] && difficulty == Easy
    {
      board := EmptyBoard();
      symbol := X;
      isPlayerTurn := true;
      turn := X;
      winner := Undecided;
      score := map[X := 0, O := 0];
      difficulty := Easy;
    }

    method SetDifficulty(d: Difficulty)
      modifies this`difficulty
      ensures difficulty == d
    {
      difficulty := d;
    }

    /**
     * The step both move handlers share: the new board is shown and, when
     * `checkWinner` reports a result, it is recorded and a win is counted.
     */
    method Settle(newBoard: Board) returns (decided: bool)
      requires Valid() && |newBoard| == 9
      modifies this`board, this`winner, this`score
      ensures Valid() && board == newBoard
      ensures decided <==> CheckWinner(newBoard) != Undecided
      ensures decided ==> winner == CheckWinner(newBoard) && score == Tally(old(score), winner)
      ensures !decided ==> winner == old(winner) && score == old(score)
    {
      board := newBoard;
      var result := CheckWinner(newBoard);
      decided := result != Undecided;
      if decided {
        winner := result;
        score := Tally(score, result);
      }
    }

    /**
     * `handleClick(index)` in single-player mode. A click on an occupied cell,
     * after a result, or out of turn changes nothing. Otherwise X is placed;
     * a result is recorded and the turn stays, or the turn passes to O and the
     * new board is handed to the scheduled `makeAIMove` (returned as `pending`).
     */
    method HandleClick(index: nat) returns (pending: Option<Board>)
      requires Valid() && index < 9
      modifies this
      ensures Valid() && symbol == old(symbol) && difficulty == old(difficulty)
      ensures old(board[index].Some? || winner != Undecided || !isPlayerTurn) ==>
                unchanged(this) && pending == None
      ensures !old(board[index].Some? || winner != Undecided || !isPlayerTurn) ==>
                && board == old(board)[index := Some(X)]
                && winner == CheckWinner(board)
                && (winner != Undecided ==>
                      isPlayerTurn && turn == old(turn) && score == Tally(old(score), winner) && pending == None)
                && (winner == Undecided ==>
                      !isPlayerTurn && turn == O && score == old(score) && pending == Some(board))
    {
      pending := None;
      if board[index].Some? || winner != Undecided {
        return;
      }
      if !isPlayerTurn {
        return;
      }
      var newBoard := board[index := Some(X)];
      var decided := Settle(newBoard);
      if !decided {
        isPlayerTurn := false;
        turn := O;
        pending := Some(newBoard);
      }
    }

    /**
     * `makeAIMove(currentBoard)`: O is placed on the cell `ChooseAIMove`
     * picks (nothing changes when the hard search finds none). A result is
     * recorded and the turn stays; otherwise the turn passes back to X.
     */
    method MakeAIMove(current: Board)
      requires Valid() && |current| == 9
      modifies this
      ensures Valid() && symbol == old(symbol) && difficulty == old(difficulty)
      ensures old(difficulty) == Hard && Full(current) ==> unchanged(this)
      ensures !(old(difficulty) == Hard && Full(current)) ==>
                && (Full(current) ==> board == current)
                && (!Full(current) ==>
                      exists i :: 0 <= i < 9 && current[i].None? && board == current[i := Some(O)] &&
                                  (difficulty == Hard ==> IsBestMove(current, i, O)))
                && (CheckWinner(board) != Undecided ==>
                      winner == CheckWinner(board) && score == Tally(old(score), winner) &&
                      isPlayerTurn == old(isPlayerTurn) && turn == old(turn))
                && (CheckWinner(board) == Undecided ==>
                      winner == old(winner) && score == old(score) && isPlayerTurn && turn == X)
    {
      var move, proceed := ChooseAIMove(difficulty, current);
      if !proceed {
        return;
      }
      var newBoard := if move.Some? then current[move.value := Some(O)] else current;
      var decided := Settle(newBoard);
      if !decided {
        isPlayerTurn := true;
        turn := X;
      }
    }

    /** `resetGame`: an empty board, no result, X to move; the score is kept. */
    method ResetGame()
      requires Valid()
      modifies this
      ensures Valid()
      ensures board == EmptyBoard() && winner == Undecided && turn == X && isPlayerTurn == (symbol == X)
      ensures symbol == old(symbol) && score == old(score) && difficulty == old(difficulty)
    {
      board := EmptyBoard();
      winner := Undecided;
      turn := X;
      isPlayerTurn := symbol == X;
    }
  }
}
