/** The Othello board as a value: its cells, the eight directions, the ray
    walk that both the legality check and the flipping perform, disc counts,
    the end-of-game test and the switch of the side to move. */
module Board {

  datatype Option<T> = None | Some(value: T)

  /** A cell of the grid: empty (a blank in the program), or a disc of X or of O. */
  datatype Cell = Empty | X | O

  /** A side: a cell value other than Empty. */
  type Player = c: Cell | c != Empty witness X

  ghost predicate IsGrid(b: seq<seq<Cell>>) {
    |b| == 8 && forall i :: 0 <= i < 8 ==> |b[i]| == 8
  }

  /** The 8x8 grid, indexed b[row][col]. */
  type Board = b: seq<seq<Cell>> | IsGrid(b) witness seq(8, _ => seq(8, _ => Empty))

  predicate InBounds(r: int, c: int) {
    0 <= r < 8 && 0 <= c < 8
  }

  /** The board with cell (r, c) set to v. */
  function Place(b: Board, r: int, c: int, v: Cell): (b': Board)
    requires InBounds(r, c)
    ensures b'[r][c] == v
    ensures forall i, j :: InBounds(i, j) && !(i == r && j == c) ==> b'[i][j] == b[i][j]
  {
    b[r := b[r][c := v]]
  }

  lemma BoardExt(b1: Board, b2: Board)
    requires forall i, j :: InBounds(i, j) ==> b1[i][j] == b2[i][j]
    ensures b1 == b2
  {
    forall i | 0 <= i < 8 ensures b1[i] == b2[i] {
      assert forall j :: 0 <= j < 8 ==> b1[i][j] == b2[i][j];
    }
  }

  /*** Set-up ***/

  function InitialCell(i: int, j: int): Cell {
    if (i == 3 && j == 3) || (i == 4 && j == 4) then O
    else if (i == 3 && j == 4) || (i == 4 && j == 3) then X
    else Empty
  }

  /** The opening position: O on the diagonal (3,3), (4,4), X on (3,4), (4,3). */
  function InitialBoard(): (b: Board)
    ensures b[3][3] == O && b[4][4] == O && b[3][4] == X && b[4][3] == X
    ensures forall i, j :: InBounds(i, j) && !(3 <= i <= 4 && 3 <= j <= 4) ==> b[i][j] == Empty
  {
    seq(8, i requires 0 <= i < 8 => seq(8, j requires 0 <= j < 8 => InitialCell(i, j)))
  }

  /*** Players ***/

  /** The opponent: O for X and X for O. */
  function Switch(p: Player): (q: Player)
    ensures q != p
  {
    if p == O then X else O
  }

  lemma SwitchInvolutive(p: Player)
    ensures Switch(Switch(p)) == p
  {
  }

  /*** Directions and rays ***/

  /** The eight compass directions, in the order the program tries them. */
  const Directions: seq<(int, int)> :=
    [(0, 1), (1, 0), (0, -1), (-1, 0), (1, 1), (1, -1), (-1, 1), (-1, -1)]

  /** A step (dr, dc) of a compass direction. */
  predicate IsDir(dr: int, dc: int) {
    -1 <= dr <= 1 && -1 <= dc <= 1 && !(dr == 0 && dc == 0)
  }

  /** Direction d of the list. */
  function DirOf(d: int): (r: (int, int))
    requires 0 <= d < 8
    ensures IsDir(r.0, r.1)
  {
    Directions[d]
  }

  lemma DirectionsDistinct(e: int, d: int)
    requires 0 <= e < d < 8
    ensures DirOf(e) != DirOf(d)
  {
  }

  /** k * delta, for a direction component delta in {-1, 0, 1}. */
  function Off(k: int, delta: int): int {
    if delta == 0 then 0 else if delta > 0 then k else -k
  }

  /** The coordinate k steps from x along the component delta, one step at a time. */
  function Ray(x: int, delta: int, k: int): int {
    if k <= 0 then x else Ray(x, delta, k - 1) + delta
  }

  /** The closed form of a ray coordinate. */
  lemma {:induction false} RayClosed(x: int, delta: int, k: int)
    requires -1 <= delta <= 1 && 0 <= k
    ensures Ray(x, delta, k) == x + Off(k, delta)
  {
    if k > 0 {
      RayClosed(x, delta, k - 1);
    }
  }

  /** A ray leaves the board within seven steps. */
  lemma RayLeaves(row: int, col: int, dr: int, dc: int, k: int)
    requires InBounds(row, col) && IsDir(dr, dc) && 1 <= k
    requires InBounds(Ray(row, dr, k), Ray(col, dc, k))
    ensures k <= 7
  {
    RayClosed(row, dr, k);
    RayClosed(col, dc, k);
  }

  /** Two rays from the same origin meet only at equal directions and distances. */
  lemma RaysDisjoint(row: int, col: int, dr1: int, dc1: int, k1: int, dr2: int, dc2: int, k2: int)
    requires IsDir(dr1, dc1) && IsDir(dr2, dc2) && 1 <= k1 && 1 <= k2
    requires Ray(row, dr1, k1) == Ray(row, dr2, k2) && Ray(col, dc1, k1) == Ray(col, dc2, k2)
    ensures dr1 == dr2 && dc1 == dc2 && k1 == k2
  {
    RayClosed(row, dr1, k1);
    RayClosed(col, dc1, k1);
    RayClosed(row, dr2, k2);
    RayClosed(col, dc2, k2);
  }

  /** The distance along (dr, dc) from (row, col) at which (i, j) would lie. */
  function RayDist(row: int, col: int, dr: int, dc: int, i: int, j: int): int {
    if dr != 0 then Off(i - row, dr) else Off(j - col, dc)
  }

  lemma RayDistAt(row: int, col: int, dr: int, dc: int, k: int)
    requires IsDir(dr, dc) && 0 <= k
    ensures RayDist(row, col, dr, dc, Ray(row, dr, k), Ray(col, dc, k)) == k
  {
    RayClosed(row, dr, k);
    RayClosed(col, dc, k);
  }

  /** Cells left before a coordinate x, stepping by delta, leaves 0..7. */
  function Span(x: int, delta: int): nat {
    if delta > 0 then (if x < 8 then 8 - x else 0)
    else if delta < 0 then (if x >= 0 then x + 1 else 0)
    else 8
  }

  /** A step from a cell on the board brings the walk closer to the edge. */
  lemma SpanStep(r: int, c: int, dr: int, dc: int)
    requires InBounds(r, c) && IsDir(dr, dc)
    ensures Span(r + dr, dr) + Span(c + dc, dc) < Span(r, dr) + Span(c, dc)
  {
  }

  /** The walk of the legality check and of the flipping, from (r, c) along
      (dr, dc): it passes over discs that are not p. Some(n) when it passes
      n of them and then meets a disc of p on the board; None when it
      reaches an empty cell or leaves the board first. */
  function Walk(b: Board, r: int, c: int, p: Player, dr: int, dc: int): Option<nat>
    requires IsDir(dr, dc)
    decreases Span(r, dr) + Span(c, dc)
  {
    if !InBounds(r, c) || b[r][c] == Empty then None
    else if b[r][c] == p then Some(0)
    else
      SpanStep(r, c, dr, dc);
      match Walk(b, r + dr, c + dc, p, dr, dc)
      case None => None
      case Some(n) => Some(n + 1)
  }

  /** The cell k steps along (dr, dc) is on the board and holds p. */
  ghost predicate OwnAt(b: Board, row: int, col: int, p: Player, dr: int, dc: int, k: int) {
    InBounds(Ray(row, dr, k), Ray(col, dc, k)) && b[Ray(row, dr, k)][Ray(col, dc, k)] == p
  }

  /** The cell k steps along (dr, dc) is on the board and holds a disc that is not p. */
  ghost predicate OtherAt(b: Board, row: int, col: int, p: Player, dr: int, dc: int, k: int) {
    InBounds(Ray(row, dr, k), Ray(col, dc, k))
    && b[Ray(row, dr, k)][Ray(col, dc, k)] != Empty
    && b[Ray(row, dr, k)][Ray(col, dc, k)] != p
  }

  /** Along (dr, dc), cells 1..n hold discs that are not p and cell n+1 holds p. */
  ghost predicate Bracketed(b: Board, row: int, col: int, p: Player, dr: int, dc: int, n: nat) {
    OwnAt(b, row, col, p, dr, dc, n + 1) && forall m :: 1 <= m <= n ==> OtherAt(b, row, col, p, dr, dc, m)
  }

  /** Passing a disc that is not p: the walk counts one more than from the next cell. */
  lemma WalkOther(b: Board, r: int, c: int, p: Player, dr: int, dc: int, n: nat)
    requires IsDir(dr, dc) && InBounds(r, c) && b[r][c] != Empty && b[r][c] != p
    ensures Walk(b, r, c, p, dr, dc) == Some(n) <==> n > 0 && Walk(b, r + dr, c + dc, p, dr, dc) == Some(n - 1)
  {
  }

  /** The walk from the cell k steps out, described by distances. */
  lemma {:induction false} WalkFrom(b: Board, row: int, col: int, p: Player, dr: int, dc: int, k: int, n: nat)
    requires InBounds(row, col) && IsDir(dr, dc) && 1 <= k
    ensures Walk(b, Ray(row, dr, k), Ray(col, dc, k), p, dr, dc) == Some(n) <==>
      (OwnAt(b, row, col, p, dr, dc, k + n) && forall m :: k <= m < k + n ==> OtherAt(b, row, col, p, dr, dc, m))
    decreases 8 - k
  {
    if !OtherAt(b, row, col, p, dr, dc, k) {
      WalkFromStop(b, row, col, p, dr, dc, k, n);
    } else {
      RayLeaves(row, col, dr, dc, k);
      if n > 0 {
        WalkFrom(b, row, col, p, dr, dc, k + 1, n - 1);
      }
      WalkFromStep(b, row, col, p, dr, dc, k, n);
    }
  }

  /** The walk stops at k: it finds a run only when the cell holds p, and the run is empty. */
  lemma WalkFromStop(b: Board, row: int, col: int, p: Player, dr: int, dc: int, k: int, n: nat)
    requires IsDir(dr, dc) && 1 <= k && !OtherAt(b, row, col, p, dr, dc, k)
    ensures Walk(b, Ray(row, dr, k), Ray(col, dc, k), p, dr, dc) == Some(n) <==>
      (OwnAt(b, row, col, p, dr, dc, k + n) && forall m :: k <= m < k + n ==> OtherAt(b, row, col, p, dr, dc, m))
  {
    if n > 0 {
      assert !(forall m :: k <= m < k + n ==> OtherAt(b, row, col, p, dr, dc, m)) by {
        assert k <= k < k + n;
      }
    }
  }

  /** The walk passes the disc at k: its description moves on to k + 1. */
  lemma WalkFromStep(b: Board, row: int, col: int, p: Player, dr: int, dc: int, k: int, n: nat)
    requires IsDir(dr, dc) && 1 <= k && OtherAt(b, row, col, p, dr, dc, k)
    requires n > 0 ==> (Walk(b, Ray(row, dr, k + 1), Ray(col, dc, k + 1), p, dr, dc) == Some(n - 1) <==>
      (OwnAt(b, row, col, p, dr, dc, k + n) && forall m :: k + 1 <= m < k + n ==> OtherAt(b, row, col, p, dr, dc, m)))
    ensures Walk(b, Ray(row, dr, k), Ray(col, dc, k), p, dr, dc) == Some(n) <==>
      (OwnAt(b, row, col, p, dr, dc, k + n) && forall m :: k <= m < k + n ==> OtherAt(b, row, col, p, dr, dc, m))
  {
    var r, c := Ray(row, dr, k), Ray(col, dc, k);
    assert Ray(row, dr, k + 1) == r + dr && Ray(col, dc, k + 1) == c + dc;
    WalkOther(b, r, c, p, dr, dc, n);
    if n > 0 {
      OthersShift(b, row, col, p, dr, dc, k, n);
    } else {
      assert !OwnAt(b, row, col, p, dr, dc, k);
    }
  }

  lemma OthersShift(b: Board, row: int, col: int, p: Player, dr: int, dc: int, k: int, n: nat)
    requires OtherAt(b, row, col, p, dr, dc, k) && n > 0
    ensures (forall m :: k <= m < k + n ==> OtherAt(b, row, col, p, dr, dc, m)) <==>
      (forall m :: k + 1 <= m < k + n ==> OtherAt(b, row, col, p, dr, dc, m))
  {
  }

  /** The walk from the first neighbour finds n discs exactly when they are bracketed by p. */
  lemma WalkBracketed(b: Board, row: int, col: int, p: Player, dr: int, dc: int, n: nat)
    requires InBounds(row, col) && IsDir(dr, dc)
    ensures Walk(b, row + dr, col + dc, p, dr, dc) == Some(n) <==> Bracketed(b, row, col, p, dr, dc, n)
  {
    RayClosed(row, dr, 1);
    RayClosed(col, dc, 1);
    WalkFrom(b, row, col, p, dr, dc, 1, n);
  }

  /*** Legality ***/

  /** The walk from (row, col) along direction d of the program's list. */
  function WalkDir(b: Board, row: int, col: int, p: Player, d: int): Option<nat>
    requires InBounds(row, col) && 0 <= d < 8
  {
    Walk(b, row + DirOf(d).0, col + DirOf(d).1, p, DirOf(d).0, DirOf(d).1)
  }

  /** The legality check as the program performs it: the cell is empty and in
      some direction the walk from the neighbour meets a disc of p. */
  predicate ValidMove(b: Board, row: int, col: int, p: Player)
    requires InBounds(row, col)
  {
    b[row][col] == Empty && exists d :: 0 <= d < 8 && WalkDir(b, row, col, p, d).Some?
  }

  /** Some direction of the list holds a run of n >= 0 discs that are not p, closed by a disc of p. */
  ghost predicate BracketedDir(b: Board, row: int, col: int, p: Player, d: int, n: nat)
    requires 0 <= d < 8
  {
    Bracketed(b, row, col, p, DirOf(d).0, DirOf(d).1, n)
  }

  /** A move is legal exactly when the cell is empty and in some direction a
      run of n >= 0 discs that are not p is closed by a disc of p. The run may
      be empty: a cell next to one's own disc is legal. */
  lemma ValidMoveIff(b: Board, row: int, col: int, p: Player)
    requires InBounds(row, col)
    ensures ValidMove(b, row, col, p) <==>
      b[row][col] == Empty && exists d, n: nat :: 0 <= d < 8 && BracketedDir(b, row, col, p, d, n)
  {
    if ValidMove(b, row, col, p) {
      var d :| 0 <= d < 8 && WalkDir(b, row, col, p, d).Some?;
      var n := WalkDir(b, row, col, p, d).value;
      WalkDirBracketed(b, row, col, p, d, n);
    }
    if b[row][col] == Empty && exists d, n: nat :: 0 <= d < 8 && BracketedDir(b, row, col, p, d, n) {
      var d, n: nat :| 0 <= d < 8 && BracketedDir(b, row, col, p, d, n);
      WalkDirBracketed(b, row, col, p, d, n);
    }
  }

  lemma WalkDirBracketed(b: Board, row: int, col: int, p: Player, d: int, n: nat)
    requires InBounds(row, col) && 0 <= d < 8
    ensures WalkDir(b, row, col, p, d) == Some(n) <==> BracketedDir(b, row, col, p, d, n)
  {
    WalkBracketed(b, row, col, p, DirOf(d).0, DirOf(d).1, n);
  }

  /*** Applying a move ***/

  /** (i, j) lies on the run that the walk along (dr, dc) closes with a disc of p. */
  predicate OnRun(b: Board, row: int, col: int, p: Player, dr: int, dc: int, i: int, j: int)
    requires InBounds(row, col) && IsDir(dr, dc)
  {
    var k := RayDist(row, col, dr, dc, i, j);
    match Walk(b, row + dr, col + dc, p, dr, dc)
    case None => false
    case Some(n) => 1 <= k <= n && i == Ray(row, dr, k) && j == Ray(col, dc, k)
  }

  /** (i, j) is flipped by one of the first n directions of the list. */
  predicate FlippedBelow(b: Board, row: int, col: int, p: Player, n: int, i: int, j: int)
    requires InBounds(row, col) && 0 <= n <= 8
  {
    n > 0 && (FlippedBelow(b, row, col, p, n - 1, i, j) ||
              OnRun(b, row, col, p, DirOf(n - 1).0, DirOf(n - 1).1, i, j))
  }

  /** Cell (i, j) once the disc is placed and the first n directions are processed. */
  function MoveCell(b: Board, row: int, col: int, p: Player, n: int, i: int, j: int): Cell
    requires InBounds(row, col) && InBounds(i, j) && 0 <= n <= 8
  {
    if i == row && j == col then p
    else if FlippedBelow(b, row, col, p, n, i, j) then p
    else b[i][j]
  }

  /** The board after the program's move application at (row, col) for p. */
  function AfterMove(b: Board, row: int, col: int, p: Player): Board
    requires InBounds(row, col)
  {
    seq(8, i requires 0 <= i < 8 => seq(8, j requires 0 <= j < 8 => MoveCell(b, row, col, p, 8, i, j)))
  }

  /** (i, j) lies inside a run of discs that are not p, in one of the eight
      directions from (row, col), closed on the board by a disc of p. */
  ghost predicate Captured(b: Board, row: int, col: int, p: Player, i: int, j: int) {
    exists d, k, n: nat :: 0 <= d < 8 && 1 <= k <= n && BracketedDir(b, row, col, p, d, n)
      && i == Ray(row, DirOf(d).0, k) && j == Ray(col, DirOf(d).1, k)
  }

  lemma OnRunCaptured(b: Board, row: int, col: int, p: Player, d: int, i: int, j: int)
    requires InBounds(row, col) && 0 <= d < 8
    ensures OnRun(b, row, col, p, DirOf(d).0, DirOf(d).1, i, j) ==> Captured(b, row, col, p, i, j)
  {
    var (dr, dc) := DirOf(d);
    var w := Walk(b, row + dr, col + dc, p, dr, dc);
    if OnRun(b, row, col, p, dr, dc, i, j) {
      WalkBracketed(b, row, col, p, dr, dc, w.value);
      var k := RayDist(row, col, dr, dc, i, j);
      assert 0 <= d < 8 && 1 <= k <= w.value && BracketedDir(b, row, col, p, d, w.value);
    }
  }

  lemma {:induction false} FlippedBelowCaptured(b: Board, row: int, col: int, p: Player, n: int, i: int, j: int)
    requires InBounds(row, col) && 0 <= n <= 8
    ensures FlippedBelow(b, row, col, p, n, i, j) ==> Captured(b, row, col, p, i, j)
  {
    if n > 0 {
      FlippedBelowCaptured(b, row, col, p, n - 1, i, j);
      OnRunCaptured(b, row, col, p, n - 1, i, j);
    }
  }

  lemma {:induction false} OnRunFlipped(b: Board, row: int, col: int, p: Player, n: int, d: int, i: int, j: int)
    requires InBounds(row, col) && 0 <= d < n <= 8
    requires OnRun(b, row, col, p, DirOf(d).0, DirOf(d).1, i, j)
    ensures FlippedBelow(b, row, col, p, n, i, j)
  {
    if d < n - 1 {
      OnRunFlipped(b, row, col, p, n - 1, d, i, j);
    }
  }

  lemma CapturedFlipped(b: Board, row: int, col: int, p: Player, i: int, j: int)
    requires InBounds(row, col) && InBounds(i, j)
    requires Captured(b, row, col, p, i, j)
    ensures FlippedBelow(b, row, col, p, 8, i, j)
    ensures b[i][j] == Switch(p)
  {
    var d, k, n: nat :| 0 <= d < 8 && 1 <= k <= n && BracketedDir(b, row, col, p, d, n)
      && i == Ray(row, DirOf(d).0, k) && j == Ray(col, DirOf(d).1, k);
    var (dr, dc) := DirOf(d);
    WalkBracketed(b, row, col, p, dr, dc, n);
    RayDistAt(row, col, dr, dc, k);
    assert OnRun(b, row, col, p, dr, dc, i, j);
    OnRunFlipped(b, row, col, p, 8, d, i, j);
    assert OtherAt(b, row, col, p, dr, dc, k);
  }

  /** What a move does to each cell: the placed cell holds p; every other cell
      becomes p exactly when it is captured (and then it held the opponent),
      and otherwise keeps its value, whether empty or p's own. */
  lemma AfterMoveCells(b: Board, row: int, col: int, p: Player, i: int, j: int)
    requires InBounds(row, col) && InBounds(i, j)
    ensures AfterMove(b, row, col, p)[row][col] == p
    ensures !(i == row && j == col) ==>
      AfterMove(b, row, col, p)[i][j] == (if Captured(b, row, col, p, i, j) then p else b[i][j])
    ensures Captured(b, row, col, p, i, j) ==> b[i][j] == Switch(p)
  {
    FlippedBelowCaptured(b, row, col, p, 8, i, j);
    if Captured(b, row, col, p, i, j) {
      CapturedFlipped(b, row, col, p, i, j);
    }
  }

  /*** Counting ***/

  /** The number of cells equal to c among s[..n]. */
  function RowCount(s: seq<Cell>, c: Cell, n: int): (r: nat)
    requires 0 <= n <= |s|
    ensures r <= n
  {
    if n == 0 then 0 else RowCount(s, c, n - 1) + (if s[n - 1] == c then 1 else 0)
  }

  /** The number of cells equal to c in rows 0..m-1. */
  function GridCount(b: Board, c: Cell, m: int): (r: nat)
    requires 0 <= m <= 8
    ensures r <= 8 * m
  {
    if m == 0 then 0 else GridCount(b, c, m - 1) + RowCount(b[m - 1], c, 8)
  }

  /** The number of cells of b equal to c. */
  function Count(b: Board, c: Cell): (r: nat)
    ensures r <= 64
  {
    GridCount(b, c, 8)
  }

  lemma {:induction false} RowPartition(s: seq<Cell>, n: int)
    requires 0 <= n <= |s|
    ensures RowCount(s, X, n) + RowCount(s, O, n) + RowCount(s, Empty, n) == n
  {
    if n > 0 { RowPartition(s, n - 1); }
  }

  lemma {:induction false} GridPartition(b: Board, m: int)
    requires 0 <= m <= 8
    ensures GridCount(b, X, m) + GridCount(b, O, m) + GridCount(b, Empty, m) == 8 * m
  {
    if m > 0 {
      GridPartition(b, m - 1);
      RowPartition(b[m - 1], 8);
    }
  }

  /** Every cell is X, O or empty. */
  lemma CountPartition(b: Board)
    ensures Count(b, X) + Count(b, O) + Count(b, Empty) == 64
  {
    GridPartition(b, 8);
  }

  /*** Counting what changed between two boards ***/

  /** The number of positions among the first n where s holds c and t differs. */
  function RowTurned(s: seq<Cell>, t: seq<Cell>, c: Cell, n: int): nat
    requires 0 <= n <= |s| == |t|
  {
    if n == 0 then 0 else RowTurned(s, t, c, n - 1) + (if s[n - 1] == c && t[n - 1] != c then 1 else 0)
  }

  /** The number of cells in rows 0..m-1 that held c in b and differ in b'. */
  function GridTurned(b: Board, b': Board, c: Cell, m: int): nat
    requires 0 <= m <= 8
  {
    if m == 0 then 0 else GridTurned(b, b', c, m - 1) + RowTurned(b[m - 1], b'[m - 1], c, 8)
  }

  /** b' arises from b by turning some cells into p discs. */
  ghost predicate OnlyTurnedTo(b: Board, b': Board, p: Player) {
    forall i, j :: InBounds(i, j) ==> b'[i][j] == b[i][j] || b'[i][j] == p
  }

  lemma {:induction false} RowTurnedCounts(s: seq<Cell>, t: seq<Cell>, p: Player, n: int)
    requires 0 <= n <= |s| == |t|
    requires forall j :: 0 <= j < |s| ==> t[j] == s[j] || t[j] == p
    ensures RowCount(t, p, n) == RowCount(s, p, n) + RowTurned(s, t, Empty, n) + RowTurned(s, t, Switch(p), n)
    ensures RowCount(t, Switch(p), n) == RowCount(s, Switch(p), n) - RowTurned(s, t, Switch(p), n)
    ensures RowCount(t, Empty, n) == RowCount(s, Empty, n) - RowTurned(s, t, Empty, n)
  {
    if n > 0 { RowTurnedCounts(s, t, p, n - 1); }
  }

  lemma {:induction false} GridTurnedCounts(b: Board, b': Board, p: Player, m: int)
    requires 0 <= m <= 8
    requires OnlyTurnedTo(b, b', p)
    ensures GridCount(b', p, m) == GridCount(b, p, m) + GridTurned(b, b', Empty, m) + GridTurned(b, b', Switch(p), m)
    ensures GridCount(b', Switch(p), m) == GridCount(b, Switch(p), m) - GridTurned(b, b', Switch(p), m)
    ensures GridCount(b', Empty, m) == GridCount(b, Empty, m) - GridTurned(b, b', Empty, m)
  {
    if m > 0 {
      GridTurnedCounts(b, b', p, m - 1);
      RowTurnedCounts(b[m - 1], b'[m - 1], p, 8);
    }
  }

  lemma {:induction false} RowTurnedSingle(s: seq<Cell>, t: seq<Cell>, c: Cell, col: int, n: int)
    requires 0 <= n <= |s| == |t| && 0 <= col < |s|
    requires forall j :: 0 <= j < |s| && j != col ==> !(s[j] == c && t[j] != c)
    ensures RowTurned(s, t, c, n) == if col < n && s[col] == c && t[col] != c then 1 else 0
  {
    if n > 0 { RowTurnedSingle(s, t, c, col, n - 1); }
  }

  lemma {:induction false} GridTurnedSingle(b: Board, b': Board, c: Cell, row: int, col: int, m: int)
    requires 0 <= m <= 8 && InBounds(row, col)
    requires forall i, j :: InBounds(i, j) && !(i == row && j == col) ==> !(b[i][j] == c && b'[i][j] != c)
    requires b[row][col] == c && b'[row][col] != c
    ensures GridTurned(b, b', c, m) == if row < m then 1 else 0
  {
    if m > 0 {
      GridTurnedSingle(b, b', c, row, col, m - 1);
      RowTurnedSingle(b[m - 1], b'[m - 1], c, if m - 1 == row then col else 0, 8);
    }
  }

  /** Placing a disc on an empty cell leaves one empty cell fewer. */
  lemma PlaceFillsOne(b: Board, r: int, c: int, p: Player)
    requires InBounds(r, c) && b[r][c] == Empty
    ensures Count(Place(b, r, c, p), Empty) == Count(b, Empty) - 1
  {
    var b' := Place(b, r, c, p);
    GridTurnedCounts(b, b', p, 8);
    GridTurnedSingle(b, b', Empty, r, c, 8);
  }

  /** The number of opponent discs that a move at (row, col) flips. */
  function Flips(b: Board, row: int, col: int, p: Player): nat
    requires InBounds(row, col)
  {
    GridTurned(b, AfterMove(b, row, col, p), Switch(p), 8)
  }

  /** A move on an empty cell adds exactly one disc to the board: p gains the
      placed disc and every flipped disc, the opponent loses the flipped ones. */
  lemma MoveCounts(b: Board, row: int, col: int, p: Player)
    requires InBounds(row, col) && b[row][col] == Empty
    ensures Count(AfterMove(b, row, col, p), p) == Count(b, p) + 1 + Flips(b, row, col, p)
    ensures Count(AfterMove(b, row, col, p), Switch(p)) == Count(b, Switch(p)) - Flips(b, row, col, p)
    ensures Count(AfterMove(b, row, col, p), X) + Count(AfterMove(b, row, col, p), O) == Count(b, X) + Count(b, O) + 1
  {
    var a := AfterMove(b, row, col, p);
    forall i, j | InBounds(i, j) ensures a[i][j] == b[i][j] || a[i][j] == p {
      AfterMoveCells(b, row, col, p, i, j);
    }
    forall i, j | InBounds(i, j) && !(i == row && j == col) ensures !(b[i][j] == Empty && a[i][j] != Empty) {
      AfterMoveCells(b, row, col, p, i, j);
    }
    AfterMoveCells(b, row, col, p, row, col);
    GridTurnedCounts(b, a, p, 8);
    GridTurnedSingle(b, a, Empty, row, col, 8);
    CountPartition(b);
    CountPartition(a);
  }

  /*** End of game ***/

  datatype Outcome = Winner(side: Player) | Draw

  /** None while any cell is empty; on a full board the side with more discs,
      or Draw when both have 32. */
  function GameOver(b: Board): (r: Option<Outcome>)
    ensures r.Some? <==> Count(b, Empty) == 0
    ensures r == Some(Winner(X)) <==> Count(b, Empty) == 0 && Count(b, X) > Count(b, O)
    ensures r == Some(Winner(O)) <==> Count(b, Empty) == 0 && Count(b, O) > Count(b, X)
    ensures r == Some(Draw) <==> Count(b, Empty) == 0 && Count(b, X) == Count(b, O)
  {
    CountPartition(b);
    var x, o := Count(b, X), Count(b, O);
    if x + o == 64 then
      if x > o then Some(Winner(X))
      else if o > x then Some(Winner(O))
      else Some(Draw)
    else None
  }
}
