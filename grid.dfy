/** The board as the program holds it: a mutable 8x8 array. Each operation
    here is proved against the value model in module Board. */
module Grid {
  import opened Board

  predicate Square(a: array2<Cell>) {
    a.Length0 == 8 && a.Length1 == 8
  }

  /** The value of the array. */
  function Snap(a: array2<Cell>): (b: Board)
    requires Square(a)
    reads a
    ensures forall i, j :: InBounds(i, j) ==> b[i][j] == a[i, j]
  {
    seq(8, i requires 0 <= i < 8 reads a => seq(8, j requires 0 <= j < 8 reads a => a[i, j]))
  }

  /** A fresh array holding the opening position. */
  method CreateBoard() returns (a: array2<Cell>)
    ensures fresh(a) && Square(a)
    ensures Snap(a) == InitialBoard()
  {
    a := new Cell[8, 8]((i, j) => Empty);
    a[3, 3], a[3, 4], a[4, 3], a[4, 4] := O, X, X, O;
    BoardExt(Snap(a), InitialBoard());
  }

  /** A fresh array with the same cells as a. */
  method CopyBoard(a: array2<Cell>) returns (c: array2<Cell>)
    requires Square(a)
    ensures fresh(c) && Square(c)
    ensures Snap(c) == Snap(a)
  {
    c := new Cell[8, 8]((i, j) reads a => if 0 <= i < 8 && 0 <= j < 8 then a[i, j] else Empty);
    BoardExt(Snap(c), Snap(a));
  }

  /** The array a holds the board b. */
  ghost predicate Holds(a: array2<Cell>, b: Board)
    requires Square(a)
    reads a
  {
    forall i, j :: InBounds(i, j) ==> a[i, j] == b[i][j]
  }

  /** The legality check: false on an occupied cell; otherwise true as soon
      as, in some direction, the walk over non-empty cells meets a disc of
      the player before an empty cell or the edge. */
  method IsValidMove(a: array2<Cell>, row: int, col: int, player: Player) returns (valid: bool)
    requires Square(a) && InBounds(row, col)
    ensures valid == ValidMove(Snap(a), row, col, player)
  {
    ghost var b := Snap(a);
    if a[row, col] != Empty {
      return false;
    }
    for d := 0 to 8
      invariant NoneBelow(b, row, col, player, d)
    {
      var _, closed := WalkRun(a, b, row, col, player, DirOf(d).0, DirOf(d).1);
      if closed {
        assert WalkDir(b, row, col, player, d).Some?;
        return true;
      }
      NoneBelowNext(b, row, col, player, d);
    }
    return false;
  }

  /** No direction before d closes a run. */
  ghost predicate NoneBelow(b: Board, row: int, col: int, p: Player, d: int)
    requires InBounds(row, col) && 0 <= d <= 8
  {
    forall e :: 0 <= e < d ==> WalkDir(b, row, col, p, e).None?
  }

  lemma NoneBelowNext(b: Board, row: int, col: int, p: Player, d: int)
    requires InBounds(row, col) && 0 <= d < 8
    requires NoneBelow(b, row, col, p, d) && WalkDir(b, row, col, p, d).None?
    ensures NoneBelow(b, row, col, p, d + 1)
  {
  }

  /** The walk from (row, col) along (dr, dc), shared by the legality check
      and the move: it collects the cells it passes over in temp, stops with
      closed false at an empty cell or the edge, and with closed true at a
      disc of the player. */
  method WalkRun(a: array2<Cell>, ghost g: Board, row: int, col: int, player: Player, dr: int, dc: int)
    returns (temp: seq<(int, int)>, closed: bool)
    requires Square(a) && Holds(a, g) && IsDir(dr, dc)
    ensures closed == Walk(g, row + dr, col + dc, player, dr, dc).Some?
    ensures closed ==> Walk(g, row + dr, col + dc, player, dr, dc) == Some(|temp|)
    ensures temp == RunCells(row, col, dr, dc, |temp|)
  {
    var r, c := row + dr, col + dc;
    temp := [];
    while InBounds(r, c)
      invariant Walking(g, row, col, player, dr, dc, temp, r, c)
      decreases Span(r, dr) + Span(c, dc)
    {
      if a[r, c] == Empty {
        return temp, false;
      }
      if a[r, c] == player {
        return temp, true;
      }
      WalkingNext(g, row, col, player, dr, dc, temp, r, c);
      temp := temp + [(r, c)];
      r, c := r + dr, c + dc;
    }
    return temp, false;
  }

  /** The state of the walk at (r, c): the cells passed so far are the ray's
      first |temp| cells, (r, c) is the next one, and the walk from the first
      neighbour counts them before continuing from (r, c). */
  ghost predicate Walking(g: Board, row: int, col: int, p: Player, dr: int, dc: int, temp: seq<(int, int)>, r: int, c: int)
    requires IsDir(dr, dc)
  {
    r == Ray(row, dr, |temp| + 1) && c == Ray(col, dc, |temp| + 1)
    && temp == RunCells(row, col, dr, dc, |temp|)
    && Walk(g, row + dr, col + dc, p, dr, dc) == Shifted(Walk(g, r, c, p, dr, dc), |temp|)
  }

  lemma WalkingNext(g: Board, row: int, col: int, p: Player, dr: int, dc: int, temp: seq<(int, int)>, r: int, c: int)
    requires IsDir(dr, dc) && Walking(g, row, col, p, dr, dc, temp, r, c)
    requires InBounds(r, c) && g[r][c] != Empty && g[r][c] != p
    ensures Walking(g, row, col, p, dr, dc, temp + [(r, c)], r + dr, c + dc)
    ensures Span(r + dr, dr) + Span(c + dc, dc) < Span(r, dr) + Span(c, dc)
  {
    WalkPast(g, r, c, p, dr, dc, |temp| + 1);
    SpanStep(r, c, dr, dc);
  }

  /** Passing a disc that is not p lengthens the walk's count by one. */
  lemma WalkPast(b: Board, r: int, c: int, p: Player, dr: int, dc: int, k: int)
    requires IsDir(dr, dc) && 1 <= k
    requires InBounds(r, c) && b[r][c] != Empty && b[r][c] != p
    ensures Shifted(Walk(b, r, c, p, dr, dc), k - 1) == Shifted(Walk(b, r + dr, c + dc, p, dr, dc), k)
  {
    ShiftedTwice(Walk(b, r + dr, c + dc, p, dr, dc), k - 1);
  }

  lemma ShiftedTwice(w: Option<nat>, n: nat)
    ensures Shifted(Shifted(w, 1), n) == Shifted(w, n + 1)
  {
  }

  /** A walk result seen s steps earlier along the same ray. */
  function Shifted(w: Option<nat>, s: nat): Option<nat> {
    match w
    case None => None
    case Some(n) => Some(n + s)
  }

  /** The cells at distances 1..n from (row, col) along (dr, dc), nearest first. */
  function RunCells(row: int, col: int, dr: int, dc: int, n: int): seq<(int, int)>
  {
    if n <= 0 then [] else RunCells(row, col, dr, dc, n - 1) + [(Ray(row, dr, n), Ray(col, dc, n))]
  }

  lemma {:induction false} RunCellsAt(row: int, col: int, dr: int, dc: int, n: int, t: int)
    requires 0 <= t < n
    ensures |RunCells(row, col, dr, dc, n)| == n
    ensures RunCells(row, col, dr, dc, n)[t] == (Ray(row, dr, t + 1), Ray(col, dc, t + 1))
  {
    if t < n - 1 {
      RunCellsAt(row, col, dr, dc, n - 1, t);
    } else if n > 1 {
      RunCellsAt(row, col, dr, dc, n - 1, 0);
    }
  }

  /*** Making a move ***/

  /** Move application, in place: the disc goes to (row, col), then each
      direction is processed in turn by FlipDirection. */
  method MakeMove(a: array2<Cell>, row: int, col: int, player: Player)
    requires Square(a) && InBounds(row, col)
    modifies a
    ensures Snap(a) == AfterMove(old(Snap(a)), row, col, player)
  {
    ghost var b := Snap(a);
    a[row, col] := player;
    for d := 0 to 8
      invariant Midway(a, b, row, col, player, d)
    {
      FlipDirection(a, b, row, col, player, d);
    }
    BoardExt(Snap(a), AfterMove(b, row, col, player));
  }

  /** Cell (i, j) while the move runs: the placed disc, the flips of the
      directions before d, and the original cells elsewhere. */
  ghost predicate Midway(a: array2<Cell>, b: Board, row: int, col: int, p: Player, d: int)
    requires Square(a) && InBounds(row, col) && 0 <= d <= 8
    reads a
  {
    forall i, j {:trigger MoveCell(b, row, col, p, d, i, j)} ::
      InBounds(i, j) ==> a[i, j] == MoveCell(b, row, col, p, d, i, j)
  }

  /** One direction of the move: the walk collects the non-empty cells that
      are not the player's and, when it then meets one of the player's discs
      on the board, turns every collected cell into the player's. */
  method FlipDirection(a: array2<Cell>, ghost b: Board, row: int, col: int, player: Player, d: int)
    requires Square(a) && InBounds(row, col) && 0 <= d < 8
    requires Midway(a, b, row, col, player, d)
    modifies a
    ensures Midway(a, b, row, col, player, d + 1)
  {
    ghost var m := Snap(a);
    WalkUntouched(b, m, row, col, player, d, 1);
    var temp, closed := WalkRun(a, m, row, col, player, DirOf(d).0, DirOf(d).1);
    if closed {
      RunOnBoard(b, row, col, player, d, temp);
      FlipRun(a, m, player, temp);
      RunPainted(b, m, row, col, player, d, temp);
    } else {
      NoRunDone(a, b, row, col, player, d);
    }
  }

  /** Cell (i, j) of m once every cell listed in temp holds p. */
  function Painted(m: Board, temp: seq<(int, int)>, p: Player, i: int, j: int): Cell
    requires InBounds(i, j)
  {
    if (i, j) in temp then p else m[i][j]
  }

  /** The flipping loop: every cell listed in temp becomes the player's, and
      no other cell changes. */
  method FlipRun(a: array2<Cell>, ghost m: Board, player: Player, temp: seq<(int, int)>)
    requires Square(a) && Holds(a, m)
    requires forall t :: 0 <= t < |temp| ==> InBounds(temp[t].0, temp[t].1)
    modifies a
    ensures forall i, j :: InBounds(i, j) ==> a[i, j] == Painted(m, temp, player, i, j)
  {
    for t := 0 to |temp|
      invariant PaintedUpTo(a, m, player, temp, t)
    {
      a[temp[t].0, temp[t].1] := player;
      PaintedNext(m, player, temp, t);
    }
    assert temp[..|temp|] == temp;
  }

  ghost predicate PaintedUpTo(a: array2<Cell>, m: Board, p: Player, temp: seq<(int, int)>, t: int)
    requires Square(a) && 0 <= t <= |temp|
    reads a
  {
    forall i, j :: InBounds(i, j) ==> a[i, j] == Painted(m, temp[..t], p, i, j)
  }

  lemma PaintedNext(m: Board, p: Player, temp: seq<(int, int)>, t: int)
    requires 0 <= t < |temp|
    ensures forall i, j :: InBounds(i, j) ==>
      Painted(m, temp[..t + 1], p, i, j) == if (i, j) == temp[t] then p else Painted(m, temp[..t], p, i, j)
  {
    assert temp[..t + 1] == temp[..t] + [temp[t]];
  }

  /** The cells a run passes over are on the board. */
  lemma RunOnBoard(b: Board, row: int, col: int, p: Player, d: int, temp: seq<(int, int)>)
    requires InBounds(row, col) && 0 <= d < 8
    requires WalkDir(b, row, col, p, d) == Some(|temp|)
    requires temp == RunCells(row, col, DirOf(d).0, DirOf(d).1, |temp|)
    ensures forall t :: 0 <= t < |temp| ==> InBounds(temp[t].0, temp[t].1)
  {
    WalkDirBracketed(b, row, col, p, d, |temp|);
    forall t | 0 <= t < |temp| ensures InBounds(temp[t].0, temp[t].1) {
      RunCellsAt(row, col, DirOf(d).0, DirOf(d).1, |temp|, t);
      assert OtherAt(b, row, col, p, DirOf(d).0, DirOf(d).1, t + 1);
    }
  }

  /** Painting the run of direction d over the board of the first d
      directions gives the board of the first d + 1 directions. */
  lemma RunPainted(b: Board, m: Board, row: int, col: int, p: Player, d: int, temp: seq<(int, int)>)
    requires InBounds(row, col) && 0 <= d < 8
    requires WalkDir(b, row, col, p, d) == Some(|temp|)
    requires temp == RunCells(row, col, DirOf(d).0, DirOf(d).1, |temp|)
    requires forall i, j :: InBounds(i, j) ==> m[i][j] == MoveCell(b, row, col, p, d, i, j)
    ensures forall i, j {:trigger MoveCell(b, row, col, p, d + 1, i, j)} :: InBounds(i, j) ==>
      Painted(m, temp, p, i, j) == MoveCell(b, row, col, p, d + 1, i, j)
  {
    forall i, j | InBounds(i, j) ensures Painted(m, temp, p, i, j) == MoveCell(b, row, col, p, d + 1, i, j) {
      InRunCells(row, col, DirOf(d).0, DirOf(d).1, |temp|, i, j);
    }
  }

  /** Membership in the run's cells, by distance. */
  lemma {:induction false} InRunCells(row: int, col: int, dr: int, dc: int, n: int, i: int, j: int)
    requires IsDir(dr, dc)
    ensures (i, j) in RunCells(row, col, dr, dc, n) <==>
      var k := RayDist(row, col, dr, dc, i, j);
      1 <= k <= n && i == Ray(row, dr, k) && j == Ray(col, dc, k)
  {
    if n > 0 {
      InRunCells(row, col, dr, dc, n - 1, i, j);
      RayDistAt(row, col, dr, dc, n);
    }
  }

  lemma NoRunDone(a: array2<Cell>, b: Board, row: int, col: int, p: Player, d: int)
    requires Square(a) && InBounds(row, col) && 0 <= d < 8
    requires WalkDir(b, row, col, p, d).None?
    requires Midway(a, b, row, col, p, d)
    ensures Midway(a, b, row, col, p, d + 1)
  {
    forall i, j | InBounds(i, j) ensures a[i, j] == MoveCell(b, row, col, p, d + 1, i, j) {
      assert a[i, j] == MoveCell(b, row, col, p, d, i, j);
    }
  }

  /** A cell at distance k >= 1 along direction d is untouched by the placed
      disc and by the flips of every earlier direction. */
  lemma RayCellUntouched(b: Board, row: int, col: int, p: Player, d: int, k: int)
    requires InBounds(row, col) && 0 <= d < 8 && 1 <= k
    requires InBounds(Ray(row, DirOf(d).0, k), Ray(col, DirOf(d).1, k))
    ensures MoveCell(b, row, col, p, d, Ray(row, DirOf(d).0, k), Ray(col, DirOf(d).1, k))
         == b[Ray(row, DirOf(d).0, k)][Ray(col, DirOf(d).1, k)]
  {
    var (dr, dc) := DirOf(d);
    RayClosed(row, dr, k);
    RayClosed(col, dc, k);
    NotFlippedBelow(b, row, col, p, d, d, k);
  }

  lemma {:induction false} NotFlippedBelow(b: Board, row: int, col: int, p: Player, n: int, d: int, k: int)
    requires InBounds(row, col) && 0 <= n <= d < 8 && 1 <= k
    ensures !FlippedBelow(b, row, col, p, n, Ray(row, DirOf(d).0, k), Ray(col, DirOf(d).1, k))
  {
    if n > 0 {
      NotFlippedBelow(b, row, col, p, n - 1, d, k);
      var (dr, dc) := DirOf(d);
      var (er, ec) := DirOf(n - 1);
      var i, j := Ray(row, dr, k), Ray(col, dc, k);
      if OnRun(b, row, col, p, er, ec, i, j) {
        var k' := RayDist(row, col, er, ec, i, j);
        RaysDisjoint(row, col, er, ec, k', dr, dc, k);
        DirectionsDistinct(n - 1, d);
      }
    }
  }

  /** While the move runs, the walk of direction d sees the board as it was:
      neither the placed disc nor the flips of earlier directions lie on its ray. */
  lemma {:induction false} WalkUntouched(b: Board, m: Board, row: int, col: int, p: Player, d: int, k: int)
    requires InBounds(row, col) && 0 <= d < 8 && 1 <= k
    requires forall i, j :: InBounds(i, j) ==> m[i][j] == MoveCell(b, row, col, p, d, i, j)
    ensures Walk(m, Ray(row, DirOf(d).0, k), Ray(col, DirOf(d).1, k), p, DirOf(d).0, DirOf(d).1)
         == Walk(b, Ray(row, DirOf(d).0, k), Ray(col, DirOf(d).1, k), p, DirOf(d).0, DirOf(d).1)
    decreases 8 - k
  {
    var (dr, dc) := DirOf(d);
    var r, c := Ray(row, dr, k), Ray(col, dc, k);
    if InBounds(r, c) {
      RayCellUntouched(b, row, col, p, d, k);
      RayLeaves(row, col, dr, dc, k);
      WalkUntouched(b, m, row, col, p, d, k + 1);
      assert Ray(row, dr, k + 1) == r + dr && Ray(col, dc, k + 1) == c + dc;
    }
  }
}
