/**
 * The candidate digits of a cell and the naked-single simplification built on
 * them: what `fieldGetPossibleNumbers` returns and what `fieldSimplify` may
 * write.
 */
module Simplification {
  import opened Grid

  /** The digits 1..n-1 that no cell sharing a unit with (x, y) holds, ascending. */
  function CandidatesBelow(g: seq<int>, x: int, y: int, n: int): seq<int>
    requires |g| == 81
    decreases n
  {
    if n <= 1 then []
    else CandidatesBelow(g, x, y, n - 1) + (if Excluded(g, x, y, n - 1) then [] else [n - 1])
  }

  /** The candidates of cell (x, y): the digits 1..9 not excluded by its units, ascending. */
  function Candidates(g: seq<int>, x: int, y: int): seq<int>
    requires |g| == 81
  {
    CandidatesBelow(g, x, y, 10)
  }

  predicate Increasing(s: seq<int>) {
    forall k, l | 0 <= k < l < |s| :: s[k] < s[l]
  }

  lemma {:induction false} CandidatesBelowCorrect(g: seq<int>, x: int, y: int, n: int)
    requires |g| == 81
    ensures Increasing(CandidatesBelow(g, x, y, n))
    ensures forall d :: d in CandidatesBelow(g, x, y, n) <==> 1 <= d < n && !Excluded(g, x, y, d)
    decreases n
  {
    if n > 1 {
      CandidatesBelowCorrect(g, x, y, n - 1);
      var s := CandidatesBelow(g, x, y, n - 1);
      assert forall k | 0 <= k < |s| :: s[k] in s;
    }
  }

  /**
   * d is a candidate of (x, y) exactly when it is a digit that no occupied
   * cell with the same x, the same y or in the same block holds; the
   * candidates come in ascending order, so without duplicates.
   */
  lemma CandidatesCorrect(g: seq<int>, x: int, y: int)
    requires |g| == 81
    ensures Increasing(Candidates(g, x, y))
    ensures forall d :: d in Candidates(g, x, y) <==> 1 <= d <= 9 && !Excluded(g, x, y, d)
  {
    CandidatesBelowCorrect(g, x, y, 10);
  }

  /**
   * e is forced at (x, y): e is a digit that no cell sharing a unit with
   * (x, y) holds, and every other digit is held by one of them.
   */
  ghost predicate Forced(g: seq<int>, x: int, y: int, e: int)
    requires |g| == 81
  {
    1 <= e <= 9 && !Excluded(g, x, y, e) && forall d | 1 <= d <= 9 && d != e :: Excluded(g, x, y, d)
  }

  /** When e is forced, the candidates below n are e alone once n passes e, and none before. */
  lemma {:induction false} CandidatesBelowForced(g: seq<int>, x: int, y: int, e: int, n: int)
    requires |g| == 81 && Forced(g, x, y, e) && n <= 10
    ensures CandidatesBelow(g, x, y, n) == if n <= e then [] else [e]
    decreases n
  {
    if n > 1 {
      CandidatesBelowForced(g, x, y, e, n - 1);
    }
  }

  /** e is the only candidate exactly when e is forced. */
  lemma SoleCandidate(g: seq<int>, x: int, y: int, e: int)
    requires |g| == 81
    ensures Candidates(g, x, y) == [e] <==> Forced(g, x, y, e)
  {
    CandidatesCorrect(g, x, y);
    var c := Candidates(g, x, y);
    if Forced(g, x, y, e) {
      CandidatesBelowForced(g, x, y, e, 10);
    }
    if c == [e] {
      assert e in c;
      forall d | 1 <= d <= 9 && d != e ensures Excluded(g, x, y, d) {
        assert d !in c;
      }
    }
  }

  /** Cell (x, y) is empty and some digit is forced there: the simplifier fills it. */
  ghost predicate Determined(g: seq<int>, x: int, y: int)
    requires |g| == 81 && 0 <= x < 9 && 0 <= y < 9
  {
    At(g, x, y) == 0 && exists e :: Forced(g, x, y, e)
  }

  /** A cell is determined exactly when it is empty and has a single candidate. */
  lemma DeterminedSingleCandidate(g: seq<int>, x: int, y: int)
    requires |g| == 81 && 0 <= x < 9 && 0 <= y < 9
    ensures Determined(g, x, y) <==> At(g, x, y) == 0 && |Candidates(g, x, y)| == 1
  {
    var c := Candidates(g, x, y);
    if |c| == 1 {
      SoleCandidate(g, x, y, c[0]);
      assert c == [c[0]];
    }
    if e :| Forced(g, x, y, e) {
      SoleCandidate(g, x, y, e);
    }
  }

  /** None of the cells (x, 0) to (x, n - 1) is determined. */
  ghost predicate LineFixed(g: seq<int>, x: int, n: int)
    requires |g| == 81 && 0 <= x < 9 && 0 <= n <= 9
  {
    n == 0 || (LineFixed(g, x, n - 1) && !Determined(g, x, n - 1))
  }

  lemma {:induction false} LineFixedCells(g: seq<int>, x: int, n: int)
    requires |g| == 81 && 0 <= x < 9 && 0 <= n <= 9
    ensures LineFixed(g, x, n) <==> forall j | 0 <= j < n :: !Determined(g, x, j)
  {
    if n > 0 {
      LineFixedCells(g, x, n - 1);
    }
  }

  /** No cell is determined: a pass of the simplifier writes nothing. */
  ghost predicate IsFixedPoint(g: seq<int>)
    requires |g| == 81
  {
    forall x, y | 0 <= x < 9 && 0 <= y < 9 :: !Determined(g, x, y)
  }

  /** No cell with x below n is determined. */
  ghost predicate LinesFixed(g: seq<int>, n: int)
    requires |g| == 81 && 0 <= n <= 9
  {
    n == 0 || (LinesFixed(g, n - 1) && LineFixed(g, n - 1, 9))
  }

  lemma {:induction false} LinesFixedCells(g: seq<int>, n: int)
    requires |g| == 81 && 0 <= n <= 9
    ensures LinesFixed(g, n) <==> forall x, y | 0 <= x < n && 0 <= y < 9 :: !Determined(g, x, y)
  {
    if n > 0 {
      LinesFixedCells(g, n - 1);
      LineFixedCells(g, n - 1, 9);
    }
  }

  /**
   * g is g0 with some empty cells filled, each with a digit that is (still)
   * forced in its cell once that cell is emptied again, that is, the only
   * candidate of the emptied cell (SoleCandidate).
   */
  ghost predicate Simplified(g0: seq<int>, g: seq<int>)
    requires |g0| == 81 && |g| == 81
  {
    forall x, y | 0 <= x < 9 && 0 <= y < 9 ::
      if At(g0, x, y) != 0 then At(g, x, y) == At(g0, x, y)
      else At(g, x, y) != 0 ==> Forced(g[9 * x + y := 0], x, y, At(g, x, y))
  }

  /** In a completion, an empty cell gets a digit that no filled cell of its units holds. */
  lemma CompletionDigitIsFree(g: seq<int>, x: int, y: int, h: seq<int>)
    requires |g| == 81 && 0 <= x < 9 && 0 <= y < 9 && At(g, x, y) == 0 && Completion(g, 0, h)
    ensures !Excluded(g, x, y, h[9 * x + y])
  {
    assert CellValid(h, x, y);
    forall i, j | 0 <= i < 9 && 0 <= j < 9 && SameUnit(x, y, i, j)
      ensures At(g, i, j) != h[9 * x + y]
    {
      PositionsDiffer(x, y, i, j);
    }
  }

  /** Filling an empty cell with its forced digit neither loses nor adds a completion. */
  lemma CommitKeepsCompletions(g: seq<int>, x: int, y: int, d: int)
    requires |g| == 81 && 0 <= x < 9 && 0 <= y < 9
    requires At(g, x, y) == 0 && Forced(g, x, y, d)
    ensures forall h :: Completion(g, 0, h) <==> Completion(g[9 * x + y := d], 0, h)
  {
    forall h | Completion(g, 0, h) ensures h[9 * x + y] == d {
      CompletionDigitIsFree(g, x, y, h);
    }
  }

  /** A later commit keeps an earlier committed digit forced in its cell. */
  lemma CommitKeepsForced(g: seq<int>, x: int, y: int, d: int, i: int, j: int)
    requires |g| == 81 && 0 <= x < 9 && 0 <= y < 9 && 0 <= i < 9 && 0 <= j < 9 && (i != x || j != y)
    requires At(g, x, y) == 0 && !Excluded(g, x, y, d)
    requires Forced(g[9 * i + j := 0], i, j, At(g, i, j))
    ensures Forced(g[9 * x + y := d][9 * i + j := 0], i, j, At(g, i, j))
  {
    PositionsDiffer(x, y, i, j);
    var e := At(g, i, j);
    var a := g[9 * i + j := 0];
    var b := a[9 * x + y := d];
    assert g[9 * x + y := d][9 * i + j := 0] == b;
    // every digit excluded before stays excluded: the only cell that changed was empty
    forall d' | 1 <= d' <= 9 && d' != e ensures Excluded(b, i, j, d') {
      assert Excluded(a, i, j, d');
      var u, v :| 0 <= u < 9 && 0 <= v < 9 && SameUnit(i, j, u, v) && At(a, u, v) == d';
      PositionsDiffer(x, y, u, v);
      assert At(b, u, v) == d';
    }
    // e stays free: where d went, e would have excluded d
    forall u, v | 0 <= u < 9 && 0 <= v < 9 && SameUnit(i, j, u, v) ensures At(b, u, v) != e {
      PositionsDiffer(x, y, u, v);
      if u == x && v == y {
        assert SameUnit(x, y, i, j) && At(g, i, j) == e;
      }
    }
  }

  /** Filling an empty cell with its forced digit keeps the grid a simplification of g0. */
  lemma CommitKeepsSimplified(g0: seq<int>, g: seq<int>, x: int, y: int, d: int)
    requires |g0| == 81 && |g| == 81 && 0 <= x < 9 && 0 <= y < 9
    requires At(g, x, y) == 0 && Forced(g, x, y, d) && Simplified(g0, g)
    ensures Simplified(g0, g[9 * x + y := d])
  {
    var p := 9 * x + y;
    var g' := g[p := d];
    assert g'[p := 0] == g;
    forall i, j | 0 <= i < 9 && 0 <= j < 9
      ensures if At(g0, i, j) != 0 then At(g', i, j) == At(g0, i, j)
              else At(g', i, j) != 0 ==> Forced(g'[9 * i + j := 0], i, j, At(g', i, j))
    {
      PositionsDiffer(x, y, i, j);
      if i != x || j != y {
        assert At(g', i, j) == At(g, i, j);
        if At(g0, i, j) == 0 && At(g, i, j) != 0 {
          CommitKeepsForced(g, x, y, d, i, j);
        }
      }
    }
  }

  /**
   * Writing the sole candidate d into an empty cell of a well-formed grid: d is
   * a digit, the grid stays well formed and a simplification of g0, one fewer
   * cell is empty, and the completions are the same.
   */
  lemma CommitSoleCandidate(g0: seq<int>, g: seq<int>, x: int, y: int, d: int)
    requires |g0| == 81 && WellFormed(g) && 0 <= x < 9 && 0 <= y < 9
    requires At(g, x, y) == 0 && Candidates(g, x, y) == [d] && Simplified(g0, g)
    ensures 1 <= d <= 9 && WellFormed(g[9 * x + y := d])
    ensures Simplified(g0, g[9 * x + y := d])
    ensures EmptyCount(g[9 * x + y := d]) == EmptyCount(g) - 1
    ensures forall h :: Completion(g, 0, h) <==> Completion(g[9 * x + y := d], 0, h)
  {
    SoleCandidate(g, x, y, d);
    CommitKeepsSimplified(g0, g, x, y, d);
    CommitKeepsCompletions(g, x, y, d);
    EmptyCountFill(g, 9 * x + y, d);
  }

  /** Simplification never creates a clash: every clash of g was already one of g0. */
  lemma SimplifiedAddsNoClash(g0: seq<int>, g: seq<int>)
    requires |g0| == 81 && |g| == 81 && Simplified(g0, g)
    ensures forall x, y, i, j | Clash(g, x, y, i, j) :: Clash(g0, x, y, i, j)
  {
    forall x, y, i, j | Clash(g, x, y, i, j) ensures Clash(g0, x, y, i, j) {
      WrittenCellClashesWithNothing(g0, g, x, y, i, j);
      WrittenCellClashesWithNothing(g0, g, i, j, x, y);
    }
  }

  /** A cell the simplifier wrote shares no digit with another cell of its units. */
  lemma WrittenCellClashesWithNothing(g0: seq<int>, g: seq<int>, x: int, y: int, i: int, j: int)
    requires |g0| == 81 && |g| == 81 && Simplified(g0, g) && Clash(g, x, y, i, j)
    ensures At(g0, x, y) != 0
  {
    var p := 9 * x + y;
    assert Excluded(g[p := 0], x, y, At(g, x, y)) by {
      PositionsDiffer(x, y, i, j);
      assert At(g[p := 0], i, j) == At(g, x, y);
    }
  }
}
