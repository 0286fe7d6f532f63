/**
 * The draughts engine: the 8 x 8 board, the legality test for a human move,
 * move application, the computer's forward-step generator, and the
 * click/turn gate that ties them together.
 *
 * A board is a two-dimensional array of cells during computation and a
 * `Grid` (rows of cells) in specifications; `View` relates the two.
 */
module Draughts {
  import opened Options

  /** BOARD_SIZE. */
  const Size: nat := 8

  datatype Colour = Red | Black

  type Cell = Option<Colour>

  type Grid = seq<seq<Cell>>

  datatype Square = Square(row: int, col: int)

  datatype Move = Move(from: Square, to: Square)

  function Opponent(c: Colour): (r: Colour)
    ensures r != c
  {
    if c == Red then Black else Red
  }

  /** With two colours, a piece that is not of colour `c` is of the opponent's. */
  lemma OtherColour(cell: Cell, c: Colour)
    ensures cell.Some? && cell != Some(c) <==> cell == Some(Opponent(c))
  {
    if cell.Some? {
      assert cell.value.Red? || cell.value.Black?;
    }
  }

  function Abs(x: int): nat {
    if x < 0 then -x else x
  }

  /** 1 for a true fact, 0 otherwise; the unit of the piece counts. */
  function Ind(b: bool): (r: nat)
    ensures r <= 1 && (r == 1 <==> b)
  {
    if b then 1 else 0
  }

  predicate InBounds(row: int, col: int) {
    0 <= row < Size && 0 <= col < Size
  }

  predicate WellFormed(g: Grid) {
    |g| == Size && forall r :: 0 <= r < Size ==> |g[r]| == Size
  }

  /** The grid with one cell replaced. */
  function Set(g: Grid, row: int, col: int, v: Cell): (h: Grid)
    requires WellFormed(g) && InBounds(row, col)
    ensures WellFormed(h)
  {
    g[row := g[row][col := v]]
  }

  /** The cells of an array board, row by row. */
  function View(a: array2<Cell>): (g: Grid)
    requires a.Length0 == Size && a.Length1 == Size
    reads a
    ensures WellFormed(g)
    ensures forall r, c :: InBounds(r, c) ==> g[r][c] == a[r, c]
  {
    seq(Size, r requires 0 <= r < Size reads a => seq(Size, c requires 0 <= c < Size reads a => a[r, c]))
  }

  /** Two grids that agree on every square are the same grid. */
  lemma ViewIs(a: array2<Cell>, g: Grid)
    requires a.Length0 == Size && a.Length1 == Size && WellFormed(g)
    requires forall r, c :: InBounds(r, c) ==> a[r, c] == g[r][c]
    ensures View(a) == g
  {
    var v := View(a);
    forall r | 0 <= r < Size
      ensures v[r] == g[r]
    {
      assert forall c :: 0 <= c < Size ==> v[r][c] == g[r][c];
    }
  }

  // ---------------------------------------------------------------------
  // Piece counts
  // ---------------------------------------------------------------------

  /** Cells holding colour `x` among the first `n` cells of a row. */
  function CountRow(row: seq<Cell>, x: Colour, n: nat): (k: nat)
    requires n <= |row|
    ensures k <= n
  {
    if n == 0 then 0 else CountRow(row, x, n - 1) + Ind(row[n - 1] == Some(x))
  }

  /** Cells holding colour `x` in the first `n` rows. */
  function CountRows(g: Grid, x: Colour, n: nat): nat
    requires n <= |g|
  {
    if n == 0 then 0 else CountRows(g, x, n - 1) + CountRow(g[n - 1], x, |g[n - 1]|)
  }

  /** The number of pieces of colour `x` on the board. */
  function Count(g: Grid, x: Colour): nat {
    CountRows(g, x, |g|)
  }

  lemma {:induction false} CountRowSet(row: seq<Cell>, x: Colour, n: nat, j: nat, v: Cell)
    requires n <= |row| && j < |row|
    ensures CountRow(row[j := v], x, n) as int ==
            CountRow(row, x, n) + (if j < n then Ind(v == Some(x)) - Ind(row[j] == Some(x)) else 0)
    decreases n
  {
    if n > 0 {
      CountRowSet(row, x, n - 1, j, v);
    }
  }

  lemma {:induction false} CountRowsSet(g: Grid, x: Colour, n: nat, i: nat, j: nat, v: Cell)
    requires n <= |g| && i < |g| && j < |g[i]|
    ensures CountRows(g[i := g[i][j := v]], x, n) as int ==
            CountRows(g, x, n) + (if i < n then Ind(v == Some(x)) - Ind(g[i][j] == Some(x)) else 0)
    decreases n
  {
    if n > 0 {
      CountRowsSet(g, x, n - 1, i, j, v);
      if i == n - 1 {
        CountRowSet(g[i], x, |g[i]|, j, v);
      }
    }
  }

  /** Writing one cell changes a colour's count only by what was removed and what was written. */
  lemma CountSet(g: Grid, x: Colour, row: int, col: int, v: Cell)
    requires WellFormed(g) && InBounds(row, col)
    ensures Count(Set(g, row, col, v), x) as int == Count(g, x) + Ind(v == Some(x)) - Ind(g[row][col] == Some(x))
  {
    CountRowsSet(g, x, |g|, row, col, v);
  }

  // ---------------------------------------------------------------------
  // initializeBoard
  // ---------------------------------------------------------------------

  /** The opening layout: black on the dark squares of rows 0-2, red on those of rows 5-7. */
  function InitialCell(row: int, col: int): Cell {
    if (row + col) % 2 == 1 then
      if row < 3 then Some(Black) else if row > 4 then Some(Red) else None
    else None
  }

  function InitialGrid(): (g: Grid)
    ensures WellFormed(g)
  {
    seq(Size, r => seq(Size, c => InitialCell(r, c)))
  }

  /** Builds the opening board by filling an empty array square by square. */
  method InitializeBoard() returns (b: array2<Cell>)
    ensures fresh(b) && b.Length0 == Size && b.Length1 == Size
    ensures View(b) == InitialGrid()
  {
    b := new Cell[Size, Size]((r, c) => None);
    for row := 0 to Size
      invariant forall r, c :: InBounds(r, c) ==> b[r, c] == if r < row then InitialCell(r, c) else None
    {
      for col := 0 to Size
        invariant forall r, c :: InBounds(r, c) ==>
          b[r, c] == if r < row || (r == row && c < col) then InitialCell(r, c) else None
      {
        if (row + col) % 2 == 1 {
          if row < 3 {
            b[row, col] := Some(Black);
          } else if row > 4 {
            b[row, col] := Some(Red);
          }
        }
      }
    }
    ViewIs(b, InitialGrid());
  }

  /** A row of the opening board whose pieces, all of colour `y`, sit where `(c + p)` is odd. */
  lemma {:induction false} CountPatternRow(row: seq<Cell>, x: Colour, y: Option<Colour>, p: nat, n: nat)
    requires n <= |row| && p < 2
    requires forall c :: 0 <= c < |row| ==> row[c] == if (c + p) % 2 == 1 then y else None
    ensures CountRow(row, x, n) == if y == Some(x) then (n + p) / 2 else 0
    decreases n
  {
    if n > 0 {
      CountPatternRow(row, x, y, p, n - 1);
    }
  }

  /** Row `r` of the opening board holds four pieces of its colour and none of the other. */
  lemma InitialRowCount(x: Colour, r: nat)
    requires r < Size
    ensures CountRow(InitialGrid()[r], x, Size) == if (r < 3 && x == Black) || (r > 4 && x == Red) then 4 else 0
  {
    var y: Option<Colour> := if r < 3 then Some(Black) else if r > 4 then Some(Red) else None;
    CountPatternRow(InitialGrid()[r], x, y, r % 2, Size);
  }

  lemma {:induction false} InitialRowsCount(x: Colour, n: nat)
    requires n <= Size
    ensures CountRows(InitialGrid(), x, n) ==
      if x == Black then 4 * (if n < 3 then n else 3) else 4 * (if n > 5 then n - 5 else 0)
    decreases n
  {
    if n > 0 {
      InitialRowsCount(x, n - 1);
      InitialRowCount(x, n - 1);
    }
  }

  /**
   * The opening board holds twelve pieces of each colour: black only in
   * rows 0-2, red only in rows 5-7, none in rows 3-4, and every piece on a
   * square whose coordinates sum to an odd number.
   */
  lemma InitialLayout()
    ensures var g := InitialGrid();
      Count(g, Black) == 12 && Count(g, Red) == 12 &&
      (forall r, c :: InBounds(r, c) && g[r][c] == Some(Black) ==> r < 3) &&
      (forall r, c :: InBounds(r, c) && g[r][c] == Some(Red) ==> r > 4) &&
      (forall r, c :: InBounds(r, c) && g[r][c].Some? ==> (r + c) % 2 == 1)
  {
    InitialRowsCount(Black, Size);
    InitialRowsCount(Red, Size);
  }

  // ---------------------------------------------------------------------
  // isValidMove
  // ---------------------------------------------------------------------

  /** The row a colour's ordinary step goes to: red moves up the board, black down. */
  function Forward(c: Colour): int {
    if c == Red then -1 else 1
  }

  /** A one-column diagonal step in the colour's own direction. */
  predicate IsStep(piece: Colour, pr: int, pc: int, r: int, c: int) {
    r - pr == Forward(piece) && Abs(c - pc) == 1
  }

  /** A two-square diagonal jump, in either direction, over a piece of the other colour. */
  predicate IsJump(g: Grid, piece: Colour, pr: int, pc: int, r: int, c: int)
    requires WellFormed(g) && InBounds(pr, pc) && InBounds(r, c)
  {
    Abs(r - pr) == 2 && Abs(c - pc) == 2 && g[(pr + r) / 2][(pc + c) / 2] == Some(Opponent(piece))
  }

  /**
   * Whether the piece at (pr, pc) may move to (r, c): the origin must hold a
   * piece, the destination must be empty, and the move is either a step in
   * the piece's direction or a jump over an opposing piece.
   */
  function IsValidMove(g: Grid, pr: int, pc: int, r: int, c: int): (ok: bool)
    requires WellFormed(g) && InBounds(pr, pc) && InBounds(r, c)
    ensures g[pr][pc].None? || g[r][c].Some? ==> !ok
    ensures ok <==> g[pr][pc].Some? && g[r][c].None? &&
                    (IsStep(g[pr][pc].value, pr, pc, r, c) || IsJump(g, g[pr][pc].value, pr, pc, r, c))
    ensures g[pr][pc].Some? && r - pr == Forward(g[pr][pc].value) && Abs(c - pc) != 1 ==> !ok
  {
    var piece := g[pr][pc];
    if piece.None? || g[r][c].Some? then false
    else
      var rowDiff := r - pr;
      var colDiff := Abs(c - pc);
      if (piece == Some(Red) && rowDiff == -1) || (piece == Some(Black) && rowDiff == 1) then
        colDiff == 1 && g[r][c].None?
      else if colDiff == 2 && Abs(rowDiff) == 2 then
        var mid := g[(pr + r) / 2][(pc + c) / 2];
        OtherColour(mid, piece.value);
        mid.Some? && mid != piece
      else false
  }

  // ---------------------------------------------------------------------
  // makeMove
  // ---------------------------------------------------------------------

  /**
   * The board after moving the piece at (pr, pc) to (r, c): the destination
   * gets the origin's contents, the origin is emptied, and on a two-row move
   * the midpoint is emptied. When the two columns have an odd sum the
   * midpoint column is fractional, names no cell, and nothing is removed.
   */
  function Moved(g: Grid, pr: int, pc: int, r: int, c: int): (h: Grid)
    requires WellFormed(g) && InBounds(pr, pc) && InBounds(r, c)
    ensures WellFormed(h)
  {
    var placed := Set(Set(g, r, c, g[pr][pc]), pr, pc, None);
    if Abs(r - pr) == 2 && (pc + c) % 2 == 0 then Set(placed, (pr + r) / 2, (pc + c) / 2, None)
    else placed
  }

  /** Whether (i, j) is the cell a two-row move from (pr, pc) to (r, c) clears. */
  predicate Jumped(pr: int, pc: int, r: int, c: int, i: int, j: int) {
    Abs(r - pr) == 2 && (pc + c) % 2 == 0 && i == (pr + r) / 2 && j == (pc + c) / 2
  }

  /** Move application touches the origin, the destination and a jumped cell, and nothing else. */
  lemma MovedCells(g: Grid, pr: int, pc: int, r: int, c: int)
    requires WellFormed(g) && InBounds(pr, pc) && InBounds(r, c)
    ensures forall i, j :: InBounds(i, j) ==>
      Moved(g, pr, pc, r, c)[i][j] ==
        if i == pr && j == pc then None
        else if i == r && j == c then g[pr][pc]
        else if Jumped(pr, pc, r, c, i, j) then None
        else g[i][j]
  {
  }

  /**
   * A valid step keeps both colours' counts; a valid jump keeps the mover's
   * count and removes exactly one opposing piece.
   */
  lemma ValidMoveCounts(g: Grid, pr: int, pc: int, r: int, c: int)
    requires WellFormed(g) && InBounds(pr, pc) && InBounds(r, c)
    requires IsValidMove(g, pr, pc, r, c)
    ensures var piece := g[pr][pc].value; var h := Moved(g, pr, pc, r, c);
      Count(h, piece) == Count(g, piece) &&
      Count(h, Opponent(piece)) == Count(g, Opponent(piece)) - (if Abs(r - pr) == 2 then 1 else 0)
  {
    var piece := g[pr][pc];
    var g1 := Set(g, r, c, piece);
    var g2 := Set(g1, pr, pc, None);
    forall x: Colour
      ensures Count(g2, x) == Count(g, x)
    {
      CountSet(g, x, r, c, piece);
      CountSet(g1, x, pr, pc, None);
    }
    if Abs(r - pr) == 2 {
      assert (pc + c) % 2 == 0;
      var mr, mc := (pr + r) / 2, (pc + c) / 2;
      forall x: Colour
        ensures Count(Set(g2, mr, mc, None), x) as int == Count(g2, x) - Ind(g[mr][mc] == Some(x))
      {
        CountSet(g2, x, mr, mc, None);
      }
    }
  }

  /** makeMove: a deep copy of the board with the move applied; the old board is left as it was. */
  method MakeMove(a: array2<Cell>, pr: int, pc: int, r: int, c: int) returns (b: array2<Cell>)
    requires a.Length0 == Size && a.Length1 == Size && InBounds(pr, pc) && InBounds(r, c)
    ensures fresh(b) && b.Length0 == Size && b.Length1 == Size
    ensures View(b) == Moved(View(a), pr, pc, r, c)
  {
    ghost var g := View(a);
    b := new Cell[Size, Size]((i, j) reads a => if 0 <= i < Size && 0 <= j < Size then a[i, j] else None);
    b[r, c] := b[pr, pc];
    b[pr, pc] := None;
    if Abs(r - pr) == 2 && (pc + c) % 2 == 0 {
      b[(pr + r) / 2, (pc + c) / 2] := None;
    }
    MovedCells(g, pr, pc, r, c);
    ViewIs(b, Moved(g, pr, pc, r, c));
  }

  // ---------------------------------------------------------------------
  // The computer's moves
  // ---------------------------------------------------------------------

  /** A black piece stepping down one row and one column into an empty square on the board. */
  predicate IsAIStep(g: Grid, m: Move)
    requires WellFormed(g)
  {
    InBounds(m.from.row, m.from.col) && InBounds(m.to.row, m.to.col) &&
    g[m.from.row][m.from.col] == Some(Black) &&
    m.to.row == m.from.row + 1 && (m.to.col == m.from.col - 1 || m.to.col == m.from.col + 1) &&
    g[m.to.row][m.to.col].None?
  }

  /** The candidate step from (row, col) to (nr, nc), if the target is on the board and empty. */
  function Target(g: Grid, row: int, col: int, nr: int, nc: int): seq<Move>
    requires WellFormed(g) && 0 <= nr
  {
    if nr < Size && nc >= 0 && nc < Size && g[nr][nc].None? then [Move(Square(row, col), Square(nr, nc))] else []
  }

  /** The steps of the piece at (row, col): down-left first, then down-right; none unless it is black. */
  function SquareMoves(g: Grid, row: int, col: int): seq<Move>
    requires WellFormed(g) && InBounds(row, col)
  {
    if g[row][col] == Some(Black) then
      Target(g, row, col, row + 1, col - 1) + Target(g, row, col, row + 1, col + 1)
    else []
  }

  /** The steps of the pieces on the rows above `row` and on the first `col` squares of row `row`. */
  function MovesBefore(g: Grid, row: nat, col: nat): seq<Move>
    requires WellFormed(g) && row <= Size && col <= Size && (row == Size ==> col == 0)
    decreases row, col
  {
    if col == 0 then
      if row == 0 then [] else MovesBefore(g, row - 1, Size)
    else MovesBefore(g, row, col - 1) + SquareMoves(g, row, col - 1)
  }

  lemma MovesBeforeStep(g: Grid, row: nat, col: nat)
    requires WellFormed(g) && row < Size && col < Size
    ensures MovesBefore(g, row, col + 1) == MovesBefore(g, row, col) + SquareMoves(g, row, col)
  {
  }

  /** Every candidate step of the computer, in board order. */
  function AIMoves(g: Grid): seq<Move>
    requires WellFormed(g)
  {
    MovesBefore(g, Size, 0)
  }

  lemma TargetMembers(g: Grid, row: int, col: int, nr: int, nc: int, m: Move)
    requires WellFormed(g) && 0 <= nr
    ensures m in Target(g, row, col, nr, nc) <==>
      m == Move(Square(row, col), Square(nr, nc)) && nr < Size && 0 <= nc < Size && g[nr][nc].None?
  {
  }

  /** The steps listed for a square are exactly the computer's steps from that square. */
  lemma SquareMovesMembers(g: Grid, row: int, col: int, m: Move)
    requires WellFormed(g) && InBounds(row, col)
    ensures m in SquareMoves(g, row, col) <==> IsAIStep(g, m) && m.from == Square(row, col)
  {
    TargetMembers(g, row, col, row + 1, col - 1, m);
    TargetMembers(g, row, col, row + 1, col + 1, m);
    if IsAIStep(g, m) && m.from == Square(row, col) {
      assert m == Move(Square(row, col), Square(m.to.row, m.to.col));
    }
  }

  lemma {:induction false} MovesBeforeMembers(g: Grid, row: nat, col: nat, m: Move)
    requires WellFormed(g) && row <= Size && col <= Size && (row == Size ==> col == 0)
    ensures m in MovesBefore(g, row, col) <==>
      IsAIStep(g, m) && (m.from.row < row || (m.from.row == row && m.from.col < col))
    decreases row, col
  {
    if col == 0 {
      if row > 0 {
        MovesBeforeMembers(g, row - 1, Size, m);
      }
    } else {
      MovesBeforeMembers(g, row, col - 1, m);
      SquareMovesMembers(g, row, col - 1, m);
    }
  }

  /** The enumeration lists exactly the computer's legal forward steps. */
  lemma AIMovesMembers(g: Grid, m: Move)
    requires WellFormed(g)
    ensures m in AIMoves(g) <==> IsAIStep(g, m)
  {
    MovesBeforeMembers(g, Size, 0, m);
  }

  /** The callback that records the step to (nr, nc) when that square is on the board and empty. */
  method PushStep(a: array2<Cell>, row: int, col: int, nr: int, nc: int, moves: seq<Move>) returns (next: seq<Move>)
    requires a.Length0 == Size && a.Length1 == Size && 0 <= nr
    ensures next == moves + Target(View(a), row, col, nr, nc)
  {
    next := moves;
    if nr < Size && nc >= 0 && nc < Size && a[nr, nc].None? {
      next := next + [Move(Square(row, col), Square(nr, nc))];
    }
  }

  /** One square of the enumeration: a black piece offers its down-left, then its down-right step. */
  method ScanSquare(a: array2<Cell>, row: int, col: int, moves: seq<Move>) returns (next: seq<Move>)
    requires a.Length0 == Size && a.Length1 == Size && InBounds(row, col)
    ensures next == moves + SquareMoves(View(a), row, col)
  {
    next := moves;
    if a[row, col] == Some(Black) {
      next := PushStep(a, row, col, row + 1, col - 1, next);
      next := PushStep(a, row, col, row + 1, col + 1, next);
      assert next == moves + (Target(View(a), row, col, row + 1, col - 1) + Target(View(a), row, col, row + 1, col + 1));
    }
  }

  /** The enumeration loop inside makeAIMove. */
  method EnumerateAIMoves(a: array2<Cell>) returns (moves: seq<Move>)
    requires a.Length0 == Size && a.Length1 == Size
    ensures moves == AIMoves(View(a))
  {
    ghost var g := View(a);
    moves := [];
    for row := 0 to Size
      invariant moves == MovesBefore(g, row, 0)
    {
      for col := 0 to Size
        invariant moves == MovesBefore(g, row, col)
      {
        MovesBeforeStep(g, row, col);
        moves := ScanSquare(a, row, col, moves);
      }
      assert MovesBefore(g, row + 1, 0) == MovesBefore(g, row, Size);
    }
  }

  /**
   * The random pick of makeAIMove: an arbitrary one of the enumerated
   * steps, or none when there is no step at all.
   */
  method ChooseAIStep(a: array2<Cell>) returns (choice: Option<Move>)
    requires a.Length0 == Size && a.Length1 == Size
    ensures choice.None? <==> forall m :: !IsAIStep(View(a), m)
    ensures choice.Some? ==> IsAIStep(View(a), choice.value)
  {
    ghost var g := View(a);
    var moves := EnumerateAIMoves(a);
    if |moves| > 0 {
      var k :| 0 <= k < |moves|;
      AIMovesMembers(g, moves[k]);
      choice := Some(moves[k]);
    } else {
      choice := None;
      forall m
        ensures !IsAIStep(g, m)
      {
        AIMovesMembers(g, m);
      }
    }
  }

  /** The computer's write: black at the target, the origin emptied. */
  function AIApplied(g: Grid, m: Move): (h: Grid)
    requires WellFormed(g) && InBounds(m.from.row, m.from.col) && InBounds(m.to.row, m.to.col)
    ensures WellFormed(h)
  {
    Set(Set(g, m.to.row, m.to.col, Some(Black)), m.from.row, m.from.col, None)
  }

  /**
   * Every computer step is one the human rules would also accept, and
   * writing it is the same as applying it with makeMove, so it keeps both
   * colours' counts.
   */
  lemma AIStepIsValidMove(g: Grid, m: Move)
    requires WellFormed(g) && IsAIStep(g, m)
    ensures IsValidMove(g, m.from.row, m.from.col, m.to.row, m.to.col)
    ensures AIApplied(g, m) == Moved(g, m.from.row, m.from.col, m.to.row, m.to.col)
    ensures Count(AIApplied(g, m), Black) == Count(g, Black)
    ensures Count(AIApplied(g, m), Red) == Count(g, Red)
  {
    ValidMoveCounts(g, m.from.row, m.from.col, m.to.row, m.to.col);
  }

  /** A computer step leaves every red piece where it was. */
  lemma AIStepKeepsRed(g: Grid, m: Move, s: Square)
    requires WellFormed(g) && IsAIStep(g, m)
    requires InBounds(s.row, s.col) && g[s.row][s.col] == Some(Red)
    ensures AIApplied(g, m)[s.row][s.col] == Some(Red)
  {
  }

  /** The board update inside makeAIMove for the chosen move. */
  method ApplyAIMove(a: array2<Cell>, m: Move) returns (b: array2<Cell>)
    requires a.Length0 == Size && a.Length1 == Size
    requires InBounds(m.from.row, m.from.col) && InBounds(m.to.row, m.to.col)
    ensures fresh(b) && b.Length0 == Size && b.Length1 == Size
    ensures View(b) == AIApplied(View(a), m)
  {
    b := new Cell[Size, Size]((i, j) reads a => if 0 <= i < Size && 0 <= j < Size then a[i, j] else None);
    b[m.to.row, m.to.col] := Some(Black);
    b[m.from.row, m.from.col] := None;
    ViewIs(b, AIApplied(View(a), m));
  }

  /**
   * The board update of makeAIMove: the previous board itself when the
   * computer has no step, otherwise a copy with an arbitrary one of the
   * enumerated steps applied. Red pieces never move.
   */
  method AITurn(a: array2<Cell>) returns (b: array2<Cell>)
    requires a.Length0 == Size && a.Length1 == Size
    ensures b.Length0 == Size && b.Length1 == Size
    ensures (forall m :: !IsAIStep(View(a), m)) ==> b == a
    ensures (exists m :: IsAIStep(View(a), m)) ==>
      fresh(b) && exists m :: IsAIStep(View(a), m) && View(b) == AIApplied(View(a), m)
    ensures forall r, c :: InBounds(r, c) && a[r, c] == Some(Red) ==> b[r, c] == Some(Red)
  {
    ghost var g := View(a);
    var choice := ChooseAIStep(a);
    if choice.Some? {
      var m := choice.value;
      b := ApplyAIMove(a, m);
      forall r, c | InBounds(r, c) && a[r, c] == Some(Red)
        ensures b[r, c] == Some(Red)
      {
        AIStepKeepsRed(g, m, Square(r, c));
        assert View(b)[r][c] == b[r, c];
      }
    } else {
      b := a;
    }
  }

  // ---------------------------------------------------------------------
  // The game: selection and turns
  // ---------------------------------------------------------------------

  class DraughtsGame {
    var board: array2<Cell>
    /** The square of the red piece picked by the first click, if any. */
    var selected: Option<Square>
    var isAIsTurn: bool

    /** The board is 8 x 8 and a selection always names a red piece. */
    predicate Valid()
      reads this, board
    {
      board.Length0 == Size && board.Length1 == Size &&
      (selected.Some? ==>
        InBounds(selected.value.row, selected.value.col) &&
        board[selected.value.row, selected.value.col] == Some(Red))
    }

    constructor()
      ensures Valid()
      ensures View(board) == InitialGrid() && selected.None? && !isAIsTurn
    {
      var b := InitializeBoard();
      board := b;
      selected := None;
      isAIsTurn := false;
    }

    /**
     * handleSquareClick: ignored during the computer's turn; with a
     * selection, a valid move is made, the selection cleared and the turn
     * passed, while an invalid one changes nothing; without a selection, a
     * red piece becomes selected and any other square changes nothing.
     */
    method HandleSquareClick(row: int, col: int)
      requires Valid() && InBounds(row, col)
      modifies this
      ensures Valid()
      ensures old(isAIsTurn) ==> unchanged(this)
      ensures !old(isAIsTurn) && old(selected).Some? ==>
        var s := old(selected).value;
        if old(IsValidMove(View(board), s.row, s.col, row, col)) then
          fresh(board) && View(board) == old(Moved(View(board), s.row, s.col, row, col)) &&
          selected.None? && isAIsTurn
        else unchanged(this)
      ensures !old(isAIsTurn) && old(selected).None? ==>
        if old(board[row, col]) == Some(Red) then
          board == old(board) && selected == Some(Square(row, col)) && isAIsTurn == old(isAIsTurn)
        else unchanged(this)
    {
      if isAIsTurn {
        return;
      }
      if selected.Some? {
        var s := selected.value;
        ghost var g := View(board);
        if IsValidMove(View(board), s.row, s.col, row, col) {
          board := MakeMove(board, s.row, s.col, row, col);
          selected := None;
          isAIsTurn := true;
        }
      } else if board[row, col] == Some(Red) {
        selected := Some(Square(row, col));
      }
    }

    /**
     * makeAIMove: an arbitrary one of the enumerated steps is written to a
     * copy of the board; with no step the board is kept. Either way the turn
     * returns to the human.
     */
    method MakeAIMove()
      requires Valid()
      modifies this
      ensures Valid() && !isAIsTurn && selected == old(selected)
      ensures (forall m :: !old(IsAIStep(View(board), m))) ==> board == old(board)
      ensures (exists m :: old(IsAIStep(View(board), m))) ==>
        fresh(board) &&
        exists m :: old(IsAIStep(View(board), m)) && View(board) == old(AIApplied(View(board), m))
    {
      board := AITurn(board);
      isAIsTurn := false;
    }
  }
}
