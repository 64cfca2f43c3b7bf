/** The game-tree search as values: the depth-limited alpha-beta minimax over
    the row-major scan of the board, the search's score type with its two
    infinite sentinels, and the choice of the computer's move. */
module Search {
  import opened Board

  /*** Scores ***/

  /** A search score: a disc count, or one of the sentinels -inf and +inf. */
  datatype Score = NegInf | Fin(n: int) | PosInf

  /** The numeric order on scores, with the sentinels at the ends. */
  predicate Le(s: Score, t: Score) {
    match (s, t)
    case (NegInf, _) => true
    case (_, PosInf) => true
    case (Fin(m), Fin(n)) => m <= n
    case _ => false
  }

  predicate Lt(s: Score, t: Score) {
    !Le(t, s)
  }

  lemma LeTotalOrder(s: Score, t: Score, u: Score)
    ensures Le(s, s)
    ensures Le(s, t) || Le(t, s)
    ensures Le(s, t) && Le(t, s) ==> s == t
    ensures Le(s, t) && Le(t, u) ==> Le(s, u)
  {
  }

  /** Two-argument max as the program's language defines it: the first
      argument unless the second is strictly greater. */
  function Max(s: Score, t: Score): (r: Score)
    ensures Le(s, r) && Le(t, r)
    ensures r == s || r == t
  {
    if Lt(s, t) then t else s
  }

  /** Two-argument min: the first argument unless the second is strictly smaller. */
  function Min(s: Score, t: Score): (r: Score)
    ensures Le(r, s) && Le(r, t)
    ensures r == s || r == t
  {
    if Lt(t, s) then t else s
  }

  /** A finite score is a disc count: between 0 and 64. */
  predicate InRange(s: Score) {
    s.Fin? ==> 0 <= s.n <= 64
  }

  /** The outcome of a search: a value, or the lookup failure raised when a
      full board is drawn (the score table has no entry for a draw). */
  datatype Result<T> = Ok(value: T) | KeyError

  /*** Minimax ***/

  /** The search depth at which a non-final position is scored by counting. */
  const Horizon := 5

  /** A cell the search tries for p: empty and legal. */
  predicate Candidate(b: Board, p: Player, i: int, j: int)
    requires InBounds(i, j)
  {
    b[i][j] == Empty && ValidMove(b, i, j, p)
  }

  /** The value of the program's minimax at board b: a decided full board
      scores the winner's count and a drawn one fails; at the horizon the
      count of the side to move is the score; otherwise the row-major scan
      over the cells decides, starting from -inf (maximizing) or +inf. */
  function MinimaxValue(b: Board, depth: int, maximizing: bool, alpha: Score, beta: Score, p: Player): (r: Result<Score>)
    ensures r.Ok? ==> InRange(r.value)
    decreases Count(b, Empty), 1, 0, 0
  {
    match GameOver(b)
    case Some(Winner(w)) => Ok(Fin(Count(b, w)))
    case Some(Draw) => KeyError
    case None =>
      if depth == Horizon then Ok(Fin(Count(b, p)))
      else Scan(b, depth, maximizing, p, 0, 0, if maximizing then NegInf else PosInf, alpha, beta)
  }

  /** The nested row and column loops of minimax, from cell (i, j) on, with
      the running best value and window. Each candidate is tried by placing
      p's disc there (without flipping) and searching one level deeper; a
      cut-off skips only the rest of the current row. */
  function Scan(b: Board, depth: int, maximizing: bool, p: Player, i: int, j: int,
                best: Score, alpha: Score, beta: Score): (r: Result<Score>)
    requires 0 <= i <= 8 && 0 <= j <= 8
    requires InRange(best)
    ensures r.Ok? ==> InRange(r.value)
    decreases Count(b, Empty), 0, 8 - i, 8 - j
  {
    if i == 8 then Ok(best)
    else if j == 8 then Scan(b, depth, maximizing, p, i + 1, 0, best, alpha, beta)
    else if Candidate(b, p, i, j) then
      PlaceFillsOne(b, i, j, p);
      match MinimaxValue(Place(b, i, j, p), depth + 1, !maximizing, alpha, beta, Switch(p))
      case KeyError => KeyError
      case Ok(e) =>
        if maximizing then
          var best', alpha' := Max(best, e), Max(alpha, e);
          if Le(beta, alpha') then Scan(b, depth, maximizing, p, i + 1, 0, best', alpha', beta)
          else Scan(b, depth, maximizing, p, i, j + 1, best', alpha', beta)
        else
          var best', beta' := Min(best, e), Min(beta, e);
          if Le(beta', alpha) then Scan(b, depth, maximizing, p, i + 1, 0, best', alpha, beta')
          else Scan(b, depth, maximizing, p, i, j + 1, best', alpha, beta')
    else Scan(b, depth, maximizing, p, i, j + 1, best, alpha, beta)
  }

  /** A full board won by w scores w's disc count. */
  lemma MinimaxWon(b: Board, depth: int, maximizing: bool, alpha: Score, beta: Score, p: Player)
    requires Count(b, Empty) == 0 && Count(b, X) != Count(b, O)
    ensures MinimaxValue(b, depth, maximizing, alpha, beta, p) ==
      Ok(Fin(if Count(b, X) > Count(b, O) then Count(b, X) else Count(b, O)))
  {
  }

  /** A full drawn board makes the search fail. */
  lemma MinimaxDrawFails(b: Board, depth: int, maximizing: bool, alpha: Score, beta: Score, p: Player)
    requires Count(b, Empty) == 0 && Count(b, X) == Count(b, O)
    ensures MinimaxValue(b, depth, maximizing, alpha, beta, p) == KeyError
  {
  }

  /** At the horizon a board that is not full scores the count of the side to move. */
  lemma MinimaxHorizon(b: Board, maximizing: bool, alpha: Score, beta: Score, p: Player)
    requires Count(b, Empty) > 0
    ensures MinimaxValue(b, Horizon, maximizing, alpha, beta, p) == Ok(Fin(Count(b, p)))
  {
  }

  /** No candidate from (i, j) on: the scan returns its running best unchanged. */
  ghost predicate NoCandidateFrom(b: Board, p: Player, i: int, j: int) {
    forall i', j' :: InBounds(i', j') && (i' > i || (i' == i && j' >= j)) ==> !Candidate(b, p, i', j')
  }

  lemma {:induction false} ScanNoCandidate(b: Board, depth: int, maximizing: bool, p: Player, i: int, j: int,
                                           best: Score, alpha: Score, beta: Score)
    requires 0 <= i <= 8 && 0 <= j <= 8 && InRange(best)
    requires NoCandidateFrom(b, p, i, j)
    ensures Scan(b, depth, maximizing, p, i, j, best, alpha, beta) == Ok(best)
    decreases 8 - i, 8 - j
  {
    if i < 8 {
      if j == 8 {
        ScanNoCandidate(b, depth, maximizing, p, i + 1, 0, best, alpha, beta);
      } else {
        assert !Candidate(b, p, i, j);
        ScanNoCandidate(b, depth, maximizing, p, i, j + 1, best, alpha, beta);
      }
    }
  }

  /** Before the horizon, a position that is not full and has no legal cell
      for the side to move scores -inf when maximizing and +inf when minimizing. */
  lemma MinimaxNoMove(b: Board, depth: int, maximizing: bool, alpha: Score, beta: Score, p: Player)
    requires Count(b, Empty) > 0 && depth != Horizon
    requires forall i, j :: InBounds(i, j) ==> !Candidate(b, p, i, j)
    ensures MinimaxValue(b, depth, maximizing, alpha, beta, p) == Ok(if maximizing then NegInf else PosInf)
  {
    ScanNoCandidate(b, depth, maximizing, p, 0, 0, if maximizing then NegInf else PosInf, alpha, beta);
  }

  /*** The computer's move ***/

  /** Cell (i, j) comes before (i', j') in row-major order. */
  predicate Before(i: int, j: int, i': int, j': int) {
    i < i' || (i == i' && j < j')
  }

  /** The score the move picker gives candidate (i, j): minimax on a copy of
      the board with the move applied, opponent to move, minimizing, full window. */
  function CandidateScore(b: Board, p: Player, i: int, j: int): (r: Result<Score>)
    requires InBounds(i, j)
    ensures r.Ok? ==> InRange(r.value)
  {
    MinimaxValue(AfterMove(b, i, j, p), 0, false, NegInf, PosInf, Switch(p))
  }

  /** The move picker's loops from (i, j) on, with the best score and move so
      far: a candidate replaces the best only when it scores strictly higher;
      a failing search makes the picker fail. */
  function CpuScan(b: Board, p: Player, i: int, j: int, best: Score, move: Option<(int, int)>): (r: Result<Option<(int, int)>>)
    requires 0 <= i <= 8 && 0 <= j <= 8
    decreases 8 - i, 8 - j
  {
    if i == 8 then Ok(move)
    else if j == 8 then CpuScan(b, p, i + 1, 0, best, move)
    else if Candidate(b, p, i, j) then
      match CandidateScore(b, p, i, j)
      case KeyError => KeyError
      case Ok(s) =>
        if Lt(best, s) then CpuScan(b, p, i, j + 1, s, Some((i, j)))
        else CpuScan(b, p, i, j + 1, best, move)
    else CpuScan(b, p, i, j + 1, best, move)
  }

  /** The computer's move for p on b: None when no candidate scores above -inf. */
  function CpuChoice(b: Board, p: Player): Result<Option<(int, int)>> {
    CpuScan(b, p, 0, 0, NegInf, None)
  }

  /** Every candidate from (i, j) up to but excluding (i2, j2) scores Ok and
      at most s (strictly below s when strict). */
  ghost predicate ScoredBelow(b: Board, p: Player, i: int, j: int, i2: int, j2: int, s: Score, strict: bool) {
    forall i', j' :: InBounds(i', j') && !Before(i', j', i, j) && Before(i', j', i2, j2) && Candidate(b, p, i', j') ==>
      CandidateScore(b, p, i', j').Ok? &&
      (if strict then Lt(CandidateScore(b, p, i', j').value, s) else Le(CandidateScore(b, p, i', j').value, s))
  }

  /** Every candidate from (i, j) on scores Ok. */
  ghost predicate ScoresOkFrom(b: Board, p: Player, i: int, j: int) {
    forall i', j' :: InBounds(i', j') && !Before(i', j', i, j) && Candidate(b, p, i', j') ==>
      CandidateScore(b, p, i', j').Ok?
  }

  /** The picker fails exactly when some candidate it reaches fails. */
  lemma {:induction false} CpuScanFails(b: Board, p: Player, i: int, j: int, best: Score, move: Option<(int, int)>)
    requires 0 <= i <= 8 && 0 <= j <= 8
    ensures CpuScan(b, p, i, j, best, move).KeyError? <==> !ScoresOkFrom(b, p, i, j)
    decreases 8 - i, 8 - j
  {
    if i < 8 {
      if j == 8 {
        CpuScanFails(b, p, i + 1, 0, best, move);
      } else if Candidate(b, p, i, j) && CandidateScore(b, p, i, j).Ok? {
        var s := CandidateScore(b, p, i, j).value;
        if Lt(best, s) {
          CpuScanFails(b, p, i, j + 1, s, Some((i, j)));
        } else {
          CpuScanFails(b, p, i, j + 1, best, move);
        }
      } else if !Candidate(b, p, i, j) {
        CpuScanFails(b, p, i, j + 1, best, move);
      }
    }
  }

  /** What the picker keeps from (i, j) on: either the move it started with,
      with no later candidate scoring above best, or a candidate k that scores
      strictly above best and above every candidate before it, and at least
      as high as every candidate after it. */
  ghost predicate Picked(b: Board, p: Player, i: int, j: int, best: Score, move: Option<(int, int)>, r: Option<(int, int)>) {
    (r == move && ScoredBelow(b, p, i, j, 8, 0, best, false)) ||
    (r.Some? && InBounds(r.value.0, r.value.1) && !Before(r.value.0, r.value.1, i, j) &&
     Candidate(b, p, r.value.0, r.value.1) &&
     var s := CandidateScore(b, p, r.value.0, r.value.1);
     s.Ok? && Lt(best, s.value) &&
     ScoredBelow(b, p, i, j, r.value.0, r.value.1, s.value, true) &&
     ScoredBelow(b, p, r.value.0, r.value.1 + 1, 8, 0, s.value, false))
  }

  lemma {:induction false} CpuScanPicks(b: Board, p: Player, i: int, j: int, best: Score, move: Option<(int, int)>)
    requires 0 <= i <= 8 && 0 <= j <= 8
    requires ScoresOkFrom(b, p, i, j)
    ensures CpuScan(b, p, i, j, best, move).Ok?
    ensures Picked(b, p, i, j, best, move, CpuScan(b, p, i, j, best, move).value)
    decreases 8 - i, 8 - j
  {
    CpuScanFails(b, p, i, j, best, move);
    if i < 8 {
      if j == 8 {
        CpuScanPicks(b, p, i + 1, 0, best, move);
      } else if Candidate(b, p, i, j) {
        var s := CandidateScore(b, p, i, j).value;
        if Lt(best, s) {
          CpuScanPicks(b, p, i, j + 1, s, Some((i, j)));
          PickedAfterTaking(b, p, i, j, best, move, s, CpuScan(b, p, i, j + 1, s, Some((i, j))).value);
        } else {
          CpuScanPicks(b, p, i, j + 1, best, move);
          PickedAfterSkipping(b, p, i, j, best, move, CpuScan(b, p, i, j + 1, best, move).value);
        }
      } else {
        CpuScanPicks(b, p, i, j + 1, best, move);
        PickedAfterSkipping(b, p, i, j, best, move, CpuScan(b, p, i, j + 1, best, move).value);
      }
    }
  }

  /** Candidate (i, j) beat best and became the running choice. */
  lemma PickedAfterTaking(b: Board, p: Player, i: int, j: int, best: Score, move: Option<(int, int)>, s: Score, r: Option<(int, int)>)
    requires InBounds(i, j) && Candidate(b, p, i, j)
    requires CandidateScore(b, p, i, j) == Ok(s) && Lt(best, s)
    requires Picked(b, p, i, j + 1, s, Some((i, j)), r)
    ensures Picked(b, p, i, j, best, move, r)
  {
    if !(r == Some((i, j)) && ScoredBelow(b, p, i, j + 1, 8, 0, s, false)) {
      var k := r.value;
      var s' := CandidateScore(b, p, k.0, k.1).value;
      forall i', j' | InBounds(i', j') && !Before(i', j', i, j) && Before(i', j', k.0, k.1) && Candidate(b, p, i', j')
        ensures CandidateScore(b, p, i', j').Ok? && Lt(CandidateScore(b, p, i', j').value, s')
      {
        LeTotalOrder(CandidateScore(b, p, i', j').value, s, s');
      }
      LeTotalOrder(best, s, s');
    }
  }

  /** Candidate (i, j), if it is one, did not beat best. */
  lemma PickedAfterSkipping(b: Board, p: Player, i: int, j: int, best: Score, move: Option<(int, int)>, r: Option<(int, int)>)
    requires InBounds(i, j)
    requires Candidate(b, p, i, j) ==> CandidateScore(b, p, i, j).Ok? && Le(CandidateScore(b, p, i, j).value, best)
    requires Picked(b, p, i, j + 1, best, move, r)
    ensures Picked(b, p, i, j, best, move, r)
  {
    if r == move && ScoredBelow(b, p, i, j + 1, 8, 0, best, false) {
      ScoredExtend(b, p, i, j, 8, 0, best, false);
    } else {
      var k := r.value;
      var s' := CandidateScore(b, p, k.0, k.1).value;
      if Candidate(b, p, i, j) {
        LeTotalOrder(CandidateScore(b, p, i, j).value, best, s');
      }
      ScoredExtend(b, p, i, j, k.0, k.1, s', true);
    }
  }

  /** A bound on the candidates from (i, j + 1) extends to (i, j) when (i, j) meets it. */
  lemma ScoredExtend(b: Board, p: Player, i: int, j: int, i2: int, j2: int, s: Score, strict: bool)
    requires InBounds(i, j)
    requires Candidate(b, p, i, j) ==>
      CandidateScore(b, p, i, j).Ok? &&
      (if strict then Lt(CandidateScore(b, p, i, j).value, s) else Le(CandidateScore(b, p, i, j).value, s))
    requires ScoredBelow(b, p, i, j + 1, i2, j2, s, strict)
    ensures ScoredBelow(b, p, i, j, i2, j2, s, strict)
  {
    forall i', j' | InBounds(i', j') && !Before(i', j', i, j) && Before(i', j', i2, j2) && Candidate(b, p, i', j')
      ensures CandidateScore(b, p, i', j').Ok? &&
        (if strict then Lt(CandidateScore(b, p, i', j').value, s) else Le(CandidateScore(b, p, i', j').value, s))
    {
      if (i', j') != (i, j) {
        assert !Before(i', j', i, j + 1);
      }
    }
  }

  /** The computer's choice, in terms of the candidates' scores: it fails
      exactly when some candidate's search fails; it is None exactly when
      every candidate scores -inf; otherwise it is the first candidate in
      row-major order whose score is the greatest, and that score is above -inf. */
  lemma CpuChoiceSpec(b: Board, p: Player)
    ensures CpuChoice(b, p).KeyError? <==>
      exists i, j :: InBounds(i, j) && Candidate(b, p, i, j) && CandidateScore(b, p, i, j).KeyError?
    ensures CpuChoice(b, p) == Ok(None) <==>
      forall i, j :: InBounds(i, j) && Candidate(b, p, i, j) ==> CandidateScore(b, p, i, j) == Ok(NegInf)
    ensures CpuChoice(b, p).Ok? && CpuChoice(b, p).value.Some? ==>
      var (i, j) := CpuChoice(b, p).value.value;
      InBounds(i, j) && Candidate(b, p, i, j) &&
      var s := CandidateScore(b, p, i, j);
      s.Ok? && s.value != NegInf &&
      (forall i', j' :: InBounds(i', j') && Candidate(b, p, i', j') ==> CandidateScore(b, p, i', j').Ok?) &&
      (forall i', j' :: InBounds(i', j') && Candidate(b, p, i', j') && Before(i', j', i, j) ==>
         Lt(CandidateScore(b, p, i', j').value, s.value)) &&
      (forall i', j' :: InBounds(i', j') && Candidate(b, p, i', j') && Before(i, j, i', j') ==>
         Le(CandidateScore(b, p, i', j').value, s.value))
  {
    CpuScanFails(b, p, 0, 0, NegInf, None);
    if ScoresOkFrom(b, p, 0, 0) {
      CpuScanPicks(b, p, 0, 0, NegInf, None);
      var r := CpuChoice(b, p).value;
      if r.Some? {
        var (i, j) := r.value;
        forall i', j' | InBounds(i', j') && Candidate(b, p, i', j') && Before(i, j, i', j')
          ensures !Before(i', j', i, j + 1)
        {
        }
      }
    }
  }
}
