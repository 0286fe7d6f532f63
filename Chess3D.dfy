/**
 * The square naming of the three-dimensional board, where a square is given
 * as (x, z) with x the file and z the row from black's side, together with
 * its decoder and the computer's capture-preferring move choice.
 */
module Chess3D {
  import opened Options
  import ChessBoard

  /** squareId(x, z): the name of file x on row z; the same name the flat board gives to row z, column x. */
  function SquareId(x: int, z: int): (s: string)
    requires 0 <= x < 8 && 0 <= z < 8
    ensures ChessBoard.IsSquareName(s)
    ensures s[0] == ChessBoard.Files[x] && s[1] as int - '0' as int == 8 - z
  {
    ChessBoard.SquareId(z, x)
  }

  /** Distinct squares have distinct names. */
  lemma SquareIdInjective(x1: int, z1: int, x2: int, z2: int)
    requires 0 <= x1 < 8 && 0 <= z1 < 8 && 0 <= x2 < 8 && 0 <= z2 < 8
    requires SquareId(x1, z1) == SquareId(x2, z2)
    ensures x1 == x2 && z1 == z2
  {
    ChessBoard.SquareIdInjective(z1, x1, z2, x2);
  }

  /** The position of the first occurrence of `c` in `s` at or after `k`, or -1 when there is none. */
  function IndexFrom(s: string, c: char, k: nat): (i: int)
    requires k <= |s|
    ensures i == -1 || k <= i < |s|
    ensures i == -1 <==> forall j :: k <= j < |s| ==> s[j] != c
    ensures i >= 0 ==> s[i] == c && forall j :: k <= j < i ==> s[j] != c
    decreases |s| - k
  {
    if k == |s| then -1 else if s[k] == c then k else IndexFrom(s, c, k + 1)
  }

  /** indexOf: the first position of `c` in `s`, or -1. */
  function IndexOf(s: string, c: char): (i: int)
    ensures -1 <= i < |s|
    ensures i == -1 <==> c !in s
    ensures i >= 0 ==> s[i] == c && forall j :: 0 <= j < i ==> s[j] != c
  {
    IndexFrom(s, c, 0)
  }

  /** parseInt of a one-character string: its digit value, or `None` for the not-a-number result. */
  function ParseDigit(c: char): (r: Option<int>)
    ensures r.Some? <==> '0' <= c <= '9'
    ensures r.Some? ==> 0 <= r.value <= 9 && r.value == c as int - '0' as int
  {
    if '0' <= c <= '9' then Some(c as int - '0' as int) else None
  }

  /**
   * coordsFromSquare: the file index of the first character (-1 when it is
   * no file letter or the name is empty) and 8 minus the digit of the second
   * (`None`, the not-a-number result, when there is no second character or
   * it is no digit).
   */
  function CoordsFromSquare(sq: string): (r: (int, Option<int>))
    ensures -1 <= r.0 < 8
    ensures r.0 == -1 <==> |sq| == 0 || sq[0] !in ChessBoard.Files
    ensures r.1.Some? <==> |sq| >= 2 && '0' <= sq[1] <= '9'
  {
    var file := if |sq| == 0 then -1 else IndexOf(ChessBoard.Files, sq[0]);
    var rank := if |sq| < 2 then None else ParseDigit(sq[1]);
    (file, if rank.Some? then Some(8 - rank.value) else None)
  }

  /** Decoding the name of a square gives back its coordinates. */
  lemma DecodeEncode(x: int, z: int)
    requires 0 <= x < 8 && 0 <= z < 8
    ensures CoordsFromSquare(SquareId(x, z)) == (x, Some(z))
  {
    ChessBoard.FilesDistinct();
    var s := SquareId(x, z);
    assert IndexOf(ChessBoard.Files, s[0]) == x;
  }

  /** Encoding the coordinates decoded from a square name gives back the name. */
  lemma EncodeDecode(sq: string)
    requires ChessBoard.IsSquareName(sq)
    ensures var (x, z) := CoordsFromSquare(sq);
      0 <= x < 8 && z.Some? && 0 <= z.value < 8 && SquareId(x, z.value) == sq
  {
    var (x, z) := CoordsFromSquare(sq);
    assert ChessBoard.Files[x] == sq[0];
    var s := SquareId(x, z.value);
    assert s[0] == sq[0] && s[1] == sq[1];
  }

  /**
   * makeAIMove's choice: among black's moves, the capture at position
   * `pick` when captures exist, otherwise the move at position `pick`;
   * nothing when black has no move. `pick` stands for the random index.
   */
  function ChooseAIMove(legal: seq<ChessBoard.Move>, pick: nat): (r: Option<ChessBoard.Move>)
    requires var pool := ChessBoard.CapturePool(ChessBoard.BlackMoves(legal)); pool == [] || pick < |pool|
    ensures r.None? <==> ChessBoard.BlackMoves(legal) == []
    ensures r.Some? ==> r.value in legal && r.value.side == ChessBoard.Black
    ensures r.Some? && ChessBoard.HasBlackCapture(legal) ==> r.value.captured.Some?
  {
    var pool := ChessBoard.CapturePool(ChessBoard.BlackMoves(legal));
    ChessBoard.BlackCapturesIff(legal);
    if pool == [] then None
    else
      assert pool[pick] in pool;
      Some(pool[pick])
  }

  /**
   * Every move the rule may draw is drawn for some random index: each of
   * black's captures when black has one, and otherwise each of black's moves.
   */
  lemma EveryPoolMoveReachable(legal: seq<ChessBoard.Move>)
    ensures forall m :: m in legal && m.side == ChessBoard.Black && (ChessBoard.HasBlackCapture(legal) ==> m.captured.Some?) ==>
              exists pick: nat ::
                pick < |ChessBoard.CapturePool(ChessBoard.BlackMoves(legal))| && ChooseAIMove(legal, pick) == Some(m)
  {
    var pool := ChessBoard.CapturePool(ChessBoard.BlackMoves(legal));
    ChessBoard.BlackCapturesIff(legal);
    forall m | m in legal && m.side == ChessBoard.Black && (ChessBoard.HasBlackCapture(legal) ==> m.captured.Some?)
      ensures exists pick: nat :: pick < |pool| && ChooseAIMove(legal, pick) == Some(m)
    {
      assert m in pool;
      var k :| 0 <= k < |pool| && pool[k] == m;
      assert ChooseAIMove(legal, k) == Some(m);
    }
  }
}
