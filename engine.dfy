/** The search as the program runs it: minimax trying each candidate on the
    shared array and resetting it, and the move picker searching copies.
    Each method is proved against its value counterpart in module Search. */
module Engine {
  import opened Board
  import opened Grid
  import opened Search

  /** Every disc of b is still on a: the guarantee left when a search fails
      part-way, since the failure skips the resets of the cells above it. */
  ghost predicate Keeps(a: array2<Cell>, b: Board)
    requires Square(a)
    reads a
  {
    forall i, j :: InBounds(i, j) && b[i][j] != Empty ==> a[i, j] == b[i][j]
  }

  /** The depth-limited alpha-beta search over the array a. */
  method Minimax(a: array2<Cell>, depth: int, maximizing: bool, alpha: Score, beta: Score, player: Player)
    returns (r: Result<Score>)
    requires Square(a)
    modifies a
    ensures r == MinimaxValue(old(Snap(a)), depth, maximizing, alpha, beta, player)
    ensures r.Ok? ==> Snap(a) == old(Snap(a))
    ensures r.KeyError? ==> Keeps(a, old(Snap(a)))
    decreases Count(Snap(a), Empty), 3
  {
    var scoreX, scoreO := Count(Snap(a), X), Count(Snap(a), O);
    var result := GameOver(Snap(a));
    match result {
      case Some(Winner(w)) =>
        return Ok(Fin(if w == X then scoreX else scoreO));
      case Some(Draw) =>
        return KeyError;
      case None =>
    }
    if depth == Horizon {
      return Ok(Fin(if player == X then scoreX else scoreO));
    }
    r := SearchCells(a, Snap(a), depth, maximizing, alpha, beta, player);
  }

  /** The row loop of minimax, from the initial best value on. */
  method SearchCells(a: array2<Cell>, ghost b: Board, depth: int, maximizing: bool, alpha0: Score, beta0: Score, player: Player)
    returns (r: Result<Score>)
    requires Square(a) && Snap(a) == b
    modifies a
    ensures r == Scan(b, depth, maximizing, player, 0, 0, if maximizing then NegInf else PosInf, alpha0, beta0)
    ensures r.Ok? ==> Snap(a) == b
    ensures r.KeyError? ==> Keeps(a, b)
    decreases Count(b, Empty), 2
  {
    var best := if maximizing then NegInf else PosInf;
    var alpha, beta := alpha0, beta0;
    for i := 0 to 8
      invariant Snap(a) == b && InRange(best)
      invariant Scan(b, depth, maximizing, player, 0, 0, if maximizing then NegInf else PosInf, alpha0, beta0) ==
                Scan(b, depth, maximizing, player, i, 0, best, alpha, beta)
    {
      var ok;
      ok, best, alpha, beta := SearchRow(a, b, depth, maximizing, player, i, best, alpha, beta);
      if !ok {
        return KeyError;
      }
    }
    return Ok(best);
  }

  /** The column loop of minimax over row i. Leaving it early (the cut-off)
      moves the search on to the next row with the window it has reached. */
  method SearchRow(a: array2<Cell>, ghost b: Board, depth: int, maximizing: bool, player: Player, i: int,
                   best0: Score, alpha0: Score, beta0: Score)
    returns (ok: bool, best: Score, alpha: Score, beta: Score)
    requires Square(a) && Snap(a) == b && 0 <= i < 8 && InRange(best0)
    modifies a
    ensures ok ==> Snap(a) == b && InRange(best)
    ensures ok ==> Scan(b, depth, maximizing, player, i, 0, best0, alpha0, beta0) ==
                   Scan(b, depth, maximizing, player, i + 1, 0, best, alpha, beta)
    ensures !ok ==> Keeps(a, b)
    ensures !ok ==> Scan(b, depth, maximizing, player, i, 0, best0, alpha0, beta0) == KeyError
    decreases Count(b, Empty), 1
  {
    best, alpha, beta := best0, alpha0, beta0;
    for j := 0 to 8
      invariant Snap(a) == b && InRange(best)
      invariant Scan(b, depth, maximizing, player, i, 0, best0, alpha0, beta0) ==
                Scan(b, depth, maximizing, player, i, j, best, alpha, beta)
    {
      var valid := false;
      if a[i, j] == Empty {
        valid := IsValidMove(a, i, j, player);
      }
      if !valid {
        ScanSkips(b, depth, maximizing, player, i, j, best, alpha, beta);
        continue;
      }
      var e := TryCell(a, b, depth, maximizing, player, i, j, alpha, beta);
      if e.KeyError? {
        return false, best, alpha, beta;
      }
      ScanTries(b, depth, maximizing, player, i, j, best, alpha, beta, e.value);
      if maximizing {
        best := Max(best, e.value);
        alpha := Max(alpha, e.value);
      } else {
        best := Min(best, e.value);
        beta := Min(beta, e.value);
      }
      if Le(beta, alpha) {
        return true, best, alpha, beta;
      }
    }
    ok := true;
  }

  /** One trial of minimax: p's disc goes on the candidate cell (i, j), with
      no flipping, the search goes one level deeper, and the cell is reset to
      empty. A failure below leaves the disc in place. */
  method TryCell(a: array2<Cell>, ghost b: Board, depth: int, maximizing: bool, player: Player, i: int, j: int,
                 alpha: Score, beta: Score)
    returns (e: Result<Score>)
    requires Square(a) && Snap(a) == b && InBounds(i, j) && Candidate(b, player, i, j)
    modifies a
    ensures e == MinimaxValue(Place(b, i, j, player), depth + 1, !maximizing, alpha, beta, Switch(player))
    ensures e.Ok? ==> Snap(a) == b
    ensures e.KeyError? ==> Keeps(a, b)
    decreases Count(b, Empty), 0
  {
    a[i, j] := player;
    BoardExt(Snap(a), Place(b, i, j, player));
    PlaceFillsOne(b, i, j, player);
    e := Minimax(a, depth + 1, !maximizing, alpha, beta, Switch(player));
    if e.KeyError? {
      KeepsPlaced(a, b, i, j, player);
      return;
    }
    a[i, j] := Empty;
    BoardExt(Snap(a), b);
  }

  /** A cell that is not a candidate leaves the scan as it was. */
  lemma ScanSkips(b: Board, depth: int, maximizing: bool, p: Player, i: int, j: int, best: Score, alpha: Score, beta: Score)
    requires InBounds(i, j) && InRange(best) && !Candidate(b, p, i, j)
    ensures Scan(b, depth, maximizing, p, i, j, best, alpha, beta) == Scan(b, depth, maximizing, p, i, j + 1, best, alpha, beta)
  {
  }

  /** A candidate whose search yields e updates the best value and the window. */
  lemma ScanTries(b: Board, depth: int, maximizing: bool, p: Player, i: int, j: int, best: Score, alpha: Score, beta: Score, e: Score)
    requires InBounds(i, j) && InRange(best) && Candidate(b, p, i, j)
    requires MinimaxValue(Place(b, i, j, p), depth + 1, !maximizing, alpha, beta, Switch(p)) == Ok(e)
    ensures maximizing ==>
      var best', alpha' := Max(best, e), Max(alpha, e);
      Scan(b, depth, maximizing, p, i, j, best, alpha, beta) ==
        if Le(beta, alpha') then Scan(b, depth, maximizing, p, i + 1, 0, best', alpha', beta)
        else Scan(b, depth, maximizing, p, i, j + 1, best', alpha', beta)
    ensures !maximizing ==>
      var best', beta' := Min(best, e), Min(beta, e);
      Scan(b, depth, maximizing, p, i, j, best, alpha, beta) ==
        if Le(beta', alpha) then Scan(b, depth, maximizing, p, i + 1, 0, best', alpha, beta')
        else Scan(b, depth, maximizing, p, i, j + 1, best', alpha, beta')
  {
  }

  /** The discs of b survive a failure below a trial disc on an empty cell of b. */
  lemma KeepsPlaced(a: array2<Cell>, b: Board, i: int, j: int, p: Player)
    requires Square(a) && InBounds(i, j) && b[i][j] == Empty
    requires Keeps(a, Place(b, i, j, p))
    ensures Keeps(a, b)
  {
    forall i', j' | InBounds(i', j') && b[i'][j'] != Empty
      ensures a[i', j'] == b[i'][j']
    {
      assert Place(b, i, j, p)[i'][j'] == b[i'][j'];
    }
  }

  /** The computer's move: each candidate is played on a copy of the board
      and scored by minimax with the opponent to move; the first strictly
      best one is kept. The board itself is not changed. */
  method GetCpuMove(a: array2<Cell>, player: Player) returns (r: Result<Option<(int, int)>>)
    requires Square(a)
    ensures r == CpuChoice(Snap(a), player)
  {
    var best: Score := NegInf;
    var move: Option<(int, int)> := None;
    for i := 0 to 8
      invariant CpuChoice(Snap(a), player) == CpuScan(Snap(a), player, i, 0, best, move)
    {
      var ok;
      ok, best, move := CpuRow(a, player, i, best, move);
      if !ok {
        return KeyError;
      }
    }
    return Ok(move);
  }

  /** The column loop of the move picker over row i. */
  method CpuRow(a: array2<Cell>, player: Player, i: int, best0: Score, move0: Option<(int, int)>)
    returns (ok: bool, best: Score, move: Option<(int, int)>)
    requires Square(a) && 0 <= i < 8
    ensures ok ==> CpuScan(Snap(a), player, i, 0, best0, move0) == CpuScan(Snap(a), player, i + 1, 0, best, move)
    ensures !ok ==> CpuScan(Snap(a), player, i, 0, best0, move0) == KeyError
  {
    ghost var b := Snap(a);
    best, move := best0, move0;
    for j := 0 to 8
      invariant CpuScan(b, player, i, 0, best0, move0) == CpuScan(b, player, i, j, best, move)
    {
      var valid := false;
      if a[i, j] == Empty {
        valid := IsValidMove(a, i, j, player);
      }
      if valid {
        var c := CopyBoard(a);
        MakeMove(c, i, j, player);
        var score := Minimax(c, 0, false, NegInf, PosInf, Switch(player));
        if score.KeyError? {
          return false, best, move;
        }
        if Lt(best, score.value) {
          best, move := score.value, Some((i, j));
        }
      }
    }
    ok := true;
  }
}
