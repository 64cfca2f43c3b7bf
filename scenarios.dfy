/** Concrete positions: the opening board, which cells the legality check
    accepts there for X, and the effect of X's opening move at (2, 3). */
module Scenarios {
  import opened Board

  const E: seq<Cell> := [Empty, Empty, Empty, Empty, Empty, Empty, Empty, Empty]
  const R3: seq<Cell> := [Empty, Empty, Empty, O, X, Empty, Empty, Empty]
  const R4: seq<Cell> := [Empty, Empty, Empty, X, O, Empty, Empty, Empty]

  /** The opening position, row by row. */
  lemma InitialRows()
    ensures InitialBoard() == [E, E, E, R3, R4, E, E, E]
  {
    var l: Board := [E, E, E, R3, R4, E, E, E];
    BoardExt(InitialBoard(), l);
  }

  /** The opening position holds two discs of each side and 60 empty cells,
      and the game is not over. */
  lemma OpeningCounts()
    ensures Count(InitialBoard(), X) == 2 && Count(InitialBoard(), O) == 2
    ensures Count(InitialBoard(), Empty) == 60
    ensures GameOver(InitialBoard()) == None
  {
    InitialRows();
    assert RowCount(E, X, 8) == 0 && RowCount(E, O, 8) == 0 && RowCount(E, Empty, 8) == 8;
    assert RowCount(R3, X, 8) == 1 && RowCount(R3, O, 8) == 1 && RowCount(R3, Empty, 8) == 6;
    assert RowCount(R4, X, 8) == 1 && RowCount(R4, O, 8) == 1 && RowCount(R4, Empty, 8) == 6;
  }

  /** The cells where the legality check accepts X on the opening board:
      besides the four textbook moves, six cells next to an X disc, because
      the check does not ask for an O disc in between. */
  const OpeningLegal: set<(int, int)> :=
    {(2, 3), (2, 4), (2, 5), (3, 2), (3, 5), (4, 2), (4, 5), (5, 2), (5, 3), (5, 4)}

  lemma OpeningLegalCells(r: int, c: int)
    requires InBounds(r, c)
    ensures ValidMove(InitialBoard(), r, c, X) <==> (r, c) in OpeningLegal
  {
    if (r, c) in OpeningLegal {
      OpeningLegalIn(r, c);
    } else {
      OpeningLegalOut(r, c);
    }
  }

  lemma OpeningLegalIn(r: int, c: int)
    requires (r, c) in OpeningLegal
    ensures InBounds(r, c) && ValidMove(InitialBoard(), r, c, X)
  {
    var b := InitialBoard();
    var d :=
      if (r, c) == (3, 2) || (r, c) == (4, 2) then 0
      else if (r, c) == (2, 3) || (r, c) == (2, 4) then 1
      else if (r, c) == (3, 5) || (r, c) == (4, 5) then 2
      else if (r, c) == (5, 3) || (r, c) == (5, 4) then 3
      else if (r, c) == (2, 5) then 5
      else 6;
    var (dr, dc) := DirOf(d);
    if b[r + dr][c + dc] == O {
      assert Walk(b, r + 2 * dr, c + 2 * dc, X, dr, dc) == Some(0);
    }
    assert WalkDir(b, r, c, X, d).Some?;
  }

  lemma OpeningLegalOut(r: int, c: int)
    requires InBounds(r, c) && (r, c) !in OpeningLegal
    ensures !ValidMove(InitialBoard(), r, c, X)
  {
    var b := InitialBoard();
    if b[r][c] == Empty {
      forall d | 0 <= d < 8 ensures WalkDir(b, r, c, X, d).None? {
        OpeningWalkNone(r, c, d);
      }
    }
  }

  lemma OpeningWalkNone(r: int, c: int, d: int)
    requires InBounds(r, c) && (r, c) !in OpeningLegal && 0 <= d < 8
    requires InitialBoard()[r][c] == Empty
    ensures WalkDir(InitialBoard(), r, c, X, d).None?
  {
    var b := InitialBoard();
    var (dr, dc) := DirOf(d);
    if InBounds(r + dr, c + dc) && b[r + dr][c + dc] != Empty {
      // only (2, 2) and (5, 5) see a disc: the O on their diagonal, then another
      assert (r, c) == (2, 2) || (r, c) == (5, 5);
      assert Walk(b, r + 3 * dr, c + 3 * dc, X, dr, dc) == None;
      assert Walk(b, r + 2 * dr, c + 2 * dc, X, dr, dc) == None;
    }
  }

  /** X's textbook opening move at (2, 3) flips the O disc at (3, 3) and
      nothing else: X then has four discs and O one. */
  lemma OpeningMoveAt23()
    ensures AfterMove(InitialBoard(), 2, 3, X)[2][3] == X
    ensures AfterMove(InitialBoard(), 2, 3, X)[3][3] == X
    ensures AfterMove(InitialBoard(), 2, 3, X)[4][4] == O
    ensures Count(AfterMove(InitialBoard(), 2, 3, X), X) == 4
    ensures Count(AfterMove(InitialBoard(), 2, 3, X), O) == 1
  {
    var b := InitialBoard();
    var a := AfterMove(b, 2, 3, X);
    OpeningCounts();
    Flips33();
    OnlyFlip33();
    GridTurnedSingle(b, a, O, 3, 3, 8);
    MoveCounts(b, 2, 3, X);
  }

  /** The move at (2, 3) turns the O disc at (3, 3), closed by X at (4, 3). */
  lemma Flips33()
    ensures AfterMove(InitialBoard(), 2, 3, X)[2][3] == X
    ensures AfterMove(InitialBoard(), 2, 3, X)[3][3] == X
  {
    var b := InitialBoard();
    assert Walk(b, 4, 3, X, 1, 0) == Some(0);
    assert BracketedDir(b, 2, 3, X, 1, 1);
    assert Captured(b, 2, 3, X, 3, 3);
    AfterMoveCells(b, 2, 3, X, 3, 3);
  }

  /** No O disc other than (3, 3) is turned by the move at (2, 3). */
  lemma OnlyFlip33()
    ensures forall i, j :: InBounds(i, j) && (i, j) != (3, 3) ==>
      !(InitialBoard()[i][j] == O && AfterMove(InitialBoard(), 2, 3, X)[i][j] != O)
  {
    var b := InitialBoard();
    forall i, j | InBounds(i, j) && (i, j) != (3, 3)
      ensures !(b[i][j] == O && AfterMove(b, 2, 3, X)[i][j] != O)
    {
      AfterMoveCells(b, 2, 3, X, i, j);
      if Captured(b, 2, 3, X, i, j) {
        NotCaptured44(i, j);
      }
    }
  }

  /** The O disc at (4, 4) lies on no ray from (2, 3). */
  lemma NotCaptured44(i: int, j: int)
    requires Captured(InitialBoard(), 2, 3, X, i, j) && InBounds(i, j)
    ensures (i, j) != (4, 4)
  {
    var d, k, n: nat :| 0 <= d < 8 && 1 <= k <= n && BracketedDir(InitialBoard(), 2, 3, X, d, n)
      && i == Ray(2, DirOf(d).0, k) && j == Ray(3, DirOf(d).1, k);
    RayClosed(2, DirOf(d).0, k);
    RayClosed(3, DirOf(d).1, k);
  }
}
