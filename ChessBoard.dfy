/**
 * The chess helpers that do not depend on the rules library: square names,
 * the material evaluation, and the computer's choice among candidate moves
 * at the three difficulty levels. Move generation and the position after a
 * move come from the rules library and enter here as inputs.
 */
module ChessBoard {
  import opened Options

  /** The file letters, indexed by column. */
  const Files: string := "abcdefgh"

  /** The digit character for a rank from 1 to 8. */
  function RankChar(rank: int): (c: char)
    requires 1 <= rank <= 8
    ensures '1' <= c <= '8' && c as int - '0' as int == rank
  {
    ('0' as int + rank) as char
  }

  /** A two-character name: a file letter followed by a rank digit. */
  predicate IsSquareName(s: string) {
    |s| == 2 && s[0] in Files && '1' <= s[1] <= '8'
  }

  lemma FilesDistinct()
    ensures |Files| == 8
    ensures forall i, j :: 0 <= i < 8 && 0 <= j < 8 && Files[i] == Files[j] ==> i == j
  {
    assert Files == ['a', 'b', 'c', 'd', 'e', 'f', 'g', 'h'];
  }

  /** squareId: the name of the square in board row `row` (rank 8 at row 0) and column `col`. */
  function SquareId(row: int, col: int): (s: string)
    requires 0 <= row < 8 && 0 <= col < 8
    ensures IsSquareName(s)
    ensures s[0] == Files[col] && s[1] as int - '0' as int == 8 - row
  {
    [Files[col], RankChar(8 - row)]
  }

  /** Distinct squares have distinct names. */
  lemma SquareIdInjective(r1: int, c1: int, r2: int, c2: int)
    requires 0 <= r1 < 8 && 0 <= c1 < 8 && 0 <= r2 < 8 && 0 <= c2 < 8
    requires SquareId(r1, c1) == SquareId(r2, c2)
    ensures r1 == r2 && c1 == c2
  {
    FilesDistinct();
    assert SquareId(r1, c1)[0] == SquareId(r2, c2)[0];
    assert SquareId(r1, c1)[1] == SquareId(r2, c2)[1];
  }

  // ---------------------------------------------------------------------
  // Material
  // ---------------------------------------------------------------------

  datatype PieceType = Pawn | Knight | Bishop | Rook | Queen | King

  datatype Side = White | Black

  datatype Piece = Piece(kind: PieceType, side: Side)

  /** A position as the rules library lists it: rows of squares, each empty or holding a piece. */
  type Board = seq<seq<Option<Piece>>>

  /** materialScore: the conventional piece values; the king is not counted. */
  function MaterialScore(t: PieceType): (v: nat)
    ensures v <= 9
    ensures v == 0 <==> t == King
  {
    match t
    case Pawn => 1
    case Knight => 3
    case Bishop => 3
    case Rook => 5
    case Queen => 9
    case King => 0
  }

  /** The value of the pieces of `side` among the first `n` squares of a row. */
  function RowMaterial(row: seq<Option<Piece>>, side: Side, n: nat): nat
    requires n <= |row|
  {
    if n == 0 then 0
    else
      RowMaterial(row, side, n - 1) +
      (if row[n - 1].Some? && row[n - 1].value.side == side then MaterialScore(row[n - 1].value.kind) else 0)
  }

  /** The value of the pieces of `side` in the first `n` rows. */
  function RowsMaterial(b: Board, side: Side, n: nat): nat
    requires n <= |b|
  {
    if n == 0 then 0 else RowsMaterial(b, side, n - 1) + RowMaterial(b[n - 1], side, |b[n - 1]|)
  }

  /** The total value of the pieces of `side`. */
  function Material(b: Board, side: Side): nat {
    RowsMaterial(b, side, |b|)
  }

  /** The evaluation the computer maximises: black material minus white material. */
  function Evaluation(b: Board): int {
    Material(b, Black) - Material(b, White)
  }

  /** evaluateBoard: visits every square, adding black pieces' values and subtracting white ones'. */
  method EvaluateBoard(board: Board) returns (score: int)
    ensures score == Evaluation(board)
  {
    score := 0;
    for i := 0 to |board|
      invariant score == RowsMaterial(board, Black, i) - RowsMaterial(board, White, i)
    {
      var row := board[i];
      for j := 0 to |row|
        invariant score == RowsMaterial(board, Black, i) - RowsMaterial(board, White, i) +
                           RowMaterial(row, Black, j) - RowMaterial(row, White, j)
      {
        var cell := row[j];
        if cell.Some? {
          var value: int := MaterialScore(cell.value.kind);
          score := score + if cell.value.side == Black then value else -value;
        }
      }
    }
  }

  function SwapSide(s: Side): (r: Side)
    ensures r != s
  {
    if s == White then Black else White
  }

  function SwapCell(cell: Option<Piece>): Option<Piece> {
    match cell
    case None => None
    case Some(p) => Some(Piece(p.kind, SwapSide(p.side)))
  }

  /** The same position with every piece's colour exchanged. */
  function SwapColours(b: Board): (s: Board)
    ensures |s| == |b|
    ensures forall i :: 0 <= i < |b| ==> |s[i]| == |b[i]|
    ensures forall i, j :: 0 <= i < |b| && 0 <= j < |b[i]| ==> s[i][j] == SwapCell(b[i][j])
  {
    seq(|b|, i requires 0 <= i < |b| => seq(|b[i]|, j requires 0 <= j < |b[i]| => SwapCell(b[i][j])))
  }

  lemma {:induction false} RowMaterialSwap(row: seq<Option<Piece>>, swapped: seq<Option<Piece>>, side: Side, n: nat)
    requires n <= |row| == |swapped|
    requires forall j :: 0 <= j < |row| ==> swapped[j] == SwapCell(row[j])
    ensures RowMaterial(swapped, side, n) == RowMaterial(row, SwapSide(side), n)
    decreases n
  {
    if n > 0 {
      RowMaterialSwap(row, swapped, side, n - 1);
    }
  }

  lemma {:induction false} RowsMaterialSwap(b: Board, side: Side, n: nat)
    requires n <= |b|
    ensures RowsMaterial(SwapColours(b), side, n) == RowsMaterial(b, SwapSide(side), n)
    decreases n
  {
    if n > 0 {
      RowsMaterialSwap(b, side, n - 1);
      var s := SwapColours(b);
      RowMaterialSwap(b[n - 1], s[n - 1], side, |b[n - 1]|);
    }
  }

  /** Exchanging the colours of all pieces negates the evaluation. */
  lemma SwapNegates(b: Board)
    ensures Evaluation(SwapColours(b)) == -Evaluation(b)
  {
    RowsMaterialSwap(b, Black, |b|);
    RowsMaterialSwap(b, White, |b|);
  }

  /** Every piece on the board, if any, is a king. */
  predicate KingsOnly(b: Board) {
    forall i, j :: 0 <= i < |b| && 0 <= j < |b[i]| && b[i][j].Some? ==> b[i][j].value.kind == King
  }

  lemma {:induction false} KingsOnlyRows(b: Board, side: Side, n: nat)
    requires n <= |b| && KingsOnly(b)
    ensures RowsMaterial(b, side, n) == 0
    decreases n
  {
    if n > 0 {
      KingsOnlyRows(b, side, n - 1);
      KingsOnlyRow(b[n - 1], side, |b[n - 1]|);
    }
  }

  lemma {:induction false} KingsOnlyRow(row: seq<Option<Piece>>, side: Side, n: nat)
    requires n <= |row|
    requires forall j :: 0 <= j < |row| && row[j].Some? ==> row[j].value.kind == King
    ensures RowMaterial(row, side, n) == 0
    decreases n
  {
    if n > 0 {
      KingsOnlyRow(row, side, n - 1);
    }
  }

  /** A board with no pieces but kings, the empty board included, evaluates to 0 for both sides. */
  lemma KingsOnlyScoresZero(b: Board)
    requires KingsOnly(b)
    ensures Material(b, Black) == 0 && Material(b, White) == 0 && Evaluation(b) == 0
  {
    KingsOnlyRows(b, Black, |b|);
    KingsOnlyRows(b, White, |b|);
  }

  // ---------------------------------------------------------------------
  // The computer's move
  // ---------------------------------------------------------------------

  /** A legal move as the rules library reports it: its notation, its side, and what it captures. */
  datatype Move = Move(san: string, side: Side, captured: Option<PieceType>)

  datatype Difficulty = Easy | Medium | Hard

  /** The moves made by black, in their original order. */
  function BlackMoves(ms: seq<Move>): (r: seq<Move>)
    ensures |r| <= |ms|
    ensures forall m :: m in r <==> m in ms && m.side == Black
  {
    if |ms| == 0 then []
    else BlackMoves(ms[..|ms| - 1]) + (if ms[|ms| - 1].side == Black then [ms[|ms| - 1]] else [])
  }

  /** The moves that capture a piece, in their original order. */
  function Captures(ms: seq<Move>): (r: seq<Move>)
    ensures |r| <= |ms|
    ensures forall m :: m in r <==> m in ms && m.captured.Some?
  {
    if |ms| == 0 then []
    else Captures(ms[..|ms| - 1]) + (if ms[|ms| - 1].captured.Some? then [ms[|ms| - 1]] else [])
  }

  /** Filtering black's moves out of a concatenation filters each part and keeps their order. */
  lemma {:induction false} BlackMovesAppend(a: seq<Move>, b: seq<Move>)
    ensures BlackMoves(a + b) == BlackMoves(a) + BlackMoves(b)
    decreases |b|
  {
    if |b| == 0 {
      assert a + b == a;
    } else {
      var last := (if b[|b| - 1].side == Black then [b[|b| - 1]] else []);
      assert (a + b)[..|a + b| - 1] == a + b[..|b| - 1];
      assert BlackMoves(a + b) == BlackMoves(a + b[..|b| - 1]) + last;
      BlackMovesAppend(a, b[..|b| - 1]);
      assert BlackMoves(b) == BlackMoves(b[..|b| - 1]) + last;
    }
  }

  /** A single move survives black's filter exactly when black makes it. */
  lemma BlackMovesOne(m: Move)
    ensures BlackMoves([m]) == if m.side == Black then [m] else []
  {
    assert [m][..0] == [];
  }

  /** Filtering the captures out of a concatenation filters each part and keeps their order. */
  lemma {:induction false} CapturesAppend(a: seq<Move>, b: seq<Move>)
    ensures Captures(a + b) == Captures(a) + Captures(b)
    decreases |b|
  {
    if |b| == 0 {
      assert a + b == a;
    } else {
      var last := (if b[|b| - 1].captured.Some? then [b[|b| - 1]] else []);
      assert (a + b)[..|a + b| - 1] == a + b[..|b| - 1];
      assert Captures(a + b) == Captures(a + b[..|b| - 1]) + last;
      CapturesAppend(a, b[..|b| - 1]);
      assert Captures(b) == Captures(b[..|b| - 1]) + last;
    }
  }

  /** A single move survives the capture filter exactly when it captures. */
  lemma CapturesOne(m: Move)
    ensures Captures([m]) == if m.captured.Some? then [m] else []
  {
    assert [m][..0] == [];
  }

  /**
   * The moves the capture-preferring rule draws from: the captures if there
   * are any, else every move. A move is in the pool exactly when it is one of
   * the moves and, should any capture exist, is itself a capture.
   */
  function CapturePool(ms: seq<Move>): (r: seq<Move>)
    ensures r == [] <==> ms == []
    ensures forall m :: m in r <==> m in ms && (Captures(ms) != [] ==> m.captured.Some?)
  {
    var captures := Captures(ms);
    if |captures| > 0 then captures else ms
  }

  /** Black has a capturing move among the legal ones. */
  predicate HasBlackCapture(legal: seq<Move>) {
    exists m :: m in legal && m.side == Black && m.captured.Some?
  }

  /** The filtered capture list is non-empty exactly when black has a capture. */
  lemma BlackCapturesIff(legal: seq<Move>)
    ensures Captures(BlackMoves(legal)) != [] <==> HasBlackCapture(legal)
  {
    var captures := Captures(BlackMoves(legal));
    if HasBlackCapture(legal) {
      var m :| m in legal && m.side == Black && m.captured.Some?;
      assert m in captures;
    }
    if captures != [] {
      assert captures[0] in captures;
    }
  }

  /** The move at `k` has the largest score of all, and every earlier move's score is strictly smaller. */
  predicate IsFirstMax(scores: seq<int>, k: nat) {
    k < |scores| &&
    (forall j :: 0 <= j < |scores| ==> scores[j] <= scores[k]) &&
    (forall j :: 0 <= j < k ==> scores[j] < scores[k])
  }

  /** The evaluation of the position after each move. */
  function Scores(ms: seq<Move>, after: Move -> Board): (s: seq<int>)
    ensures |s| == |ms|
    ensures forall i :: 0 <= i < |ms| ==> s[i] == Evaluation(after(ms[i]))
  {
    seq(|ms|, i requires 0 <= i < |ms| => Evaluation(after(ms[i])))
  }

  /**
   * The hard level: evaluates the position after each move and keeps the
   * first move whose score beats every score seen before it, starting from
   * minus infinity (no move yet).
   */
  method PickHard(ms: seq<Move>, after: Move -> Board) returns (best: Option<nat>)
    ensures best.None? <==> ms == []
    ensures best.Some? ==> IsFirstMax(Scores(ms, after), best.value)
  {
    ghost var scores := Scores(ms, after);
    best := None;
    var bestScore := 0;
    for i := 0 to |ms|
      invariant best.None? <==> i == 0
      invariant best.Some? ==> best.value < i && bestScore == scores[best.value]
      invariant best.Some? ==> forall j :: 0 <= j < i ==> scores[j] <= bestScore
      invariant best.Some? ==> forall j :: 0 <= j < best.value ==> scores[j] < bestScore
    {
      var score := EvaluateBoard(after(ms[i]));
      if best.None? || score > bestScore {
        bestScore := score;
        best := Some(i);
      }
    }
  }

  /**
   * makeAIMove's choice: nothing once the game is over; otherwise, among
   * black's moves, an arbitrary one (easy), an arbitrary capture whenever a
   * capture exists (medium), or the first best-scoring one (hard). With no
   * move for black nothing is chosen.
   */
  method ChooseAIMove(level: Difficulty, legal: seq<Move>, after: Move -> Board, gameOver: bool)
    returns (chosen: Option<Move>)
    ensures chosen.None? <==> gameOver || BlackMoves(legal) == []
    ensures chosen.Some? ==> chosen.value in legal && chosen.value.side == Black
    ensures chosen.Some? && level == Medium && HasBlackCapture(legal) ==>
      chosen.value.captured.Some?
    ensures chosen.Some? && level == Hard ==>
      exists k: nat :: IsFirstMax(Scores(BlackMoves(legal), after), k) && chosen.value == BlackMoves(legal)[k]
  {
    if gameOver {
      return None;
    }
    var moves := BlackMoves(legal);
    match level
    case Easy =>
      if |moves| > 0 {
        var k :| 0 <= k < |moves|;
        chosen := Some(moves[k]);
      } else {
        chosen := None;
      }
    case Medium =>
      var pool := CapturePool(moves);
      if |pool| > 0 {
        var k :| 0 <= k < |pool|;
        assert pool[k] in pool;
        chosen := Some(pool[k]);
        BlackCapturesIff(legal);
      } else {
        chosen := None;
      }
    case Hard =>
      var best := PickHard(moves, after);
      if best.Some? {
        chosen := Some(moves[best.value]);
        assert moves[best.value] in moves;
      } else {
        chosen := None;
      }
  }
}
