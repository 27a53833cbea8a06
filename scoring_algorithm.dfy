/** The scoring constants and the first step of the dynamic-programming
    alignment: filling the top and left edges of the score matrix. */
module ScoringAlgorithm {
  import opened ScoreMatrix

  const MatchScore := 1
  const GapScore := -1
  const MismatchScore := 0
  const TerminalGapScore := -1

  /** The score an edge cell ends with, `k` steps from the corner. */
  function EdgeScore(k: nat): int {
    k * GapScore
  }

  /** A grid of at least one row and one column. */
  predicate IsMatrixGrid(g: Grid) {
    |g| >= 1 && IsGrid(g, |g|, |g[0]|) && |g[0]| >= 1
  }

  /** `g` with the first `kr` cells of column 0 and the first `kc` cells of
      row 0 given their edge score; nothing else changes. */
  function EdgesUpTo(g: Grid, kr: nat, kc: nat): (h: Grid)
    requires IsMatrixGrid(g)
    ensures IsGrid(h, |g|, |g[0]|)
  {
    seq(|g|, r requires 0 <= r < |g| =>
      seq(|g[0]|, c requires 0 <= c < |g[0]| =>
        if (c == 0 && r < kr) || (r == 0 && c < kc) then g[r][c].(score := EdgeScore(r + c))
        else g[r][c]))
  }

  /** The grid that initialize_edges intends: (0,0) scores 0, every other cell of
      column 0 and row 0 scores its distance to the corner times the gap
      score. It adds no backlink, and the interior keeps its scores. */
  function EdgesFilled(g: Grid): (h: Grid)
    requires IsMatrixGrid(g)
    ensures IsGrid(h, |g|, |g[0]|)
    ensures forall r, c :: 0 <= r < |g| && 0 <= c < |g[0]| ==> h[r][c].links == g[r][c].links
    ensures forall r, c :: 1 <= r < |g| && 1 <= c < |g[0]| ==> h[r][c] == g[r][c]
    ensures forall r :: 0 <= r < |g| ==> h[r][0].score == EdgeScore(r)
    ensures forall c :: 0 <= c < |g[0]| ==> h[0][c].score == EdgeScore(c)
  {
    EdgesUpTo(g, |g|, |g[0]|)
  }

  /** The edge recurrences: (0,0) is 0; the source's column-0 recurrence, each cell
      down column 0 is the one above plus the gap score; and the intended row-0
      recurrence (the `j` loop filling the "top and left edges" the docstring
      names), each cell along row 0 is its left neighbour plus the gap score. */
  ghost predicate FollowsEdgeRecurrence(h: Grid)
    requires IsMatrixGrid(h)
  {
    h[0][0].score == 0 &&
    (forall i :: 1 <= i < |h| ==> h[i][0].score == h[i - 1][0].score + GapScore) &&
    (forall j :: 1 <= j < |h[0]| ==> h[0][j].score == h[0][j - 1].score + GapScore)
  }

  /** `h` is `g` except possibly for the scores of edge cells. */
  ghost predicate SameExceptEdgeScores(g: Grid, h: Grid)
    requires IsMatrixGrid(g) && IsGrid(h, |g|, |g[0]|)
  {
    (forall r, c :: 0 <= r < |g| && 0 <= c < |g[0]| ==> h[r][c].links == g[r][c].links) &&
    (forall r, c :: 1 <= r < |g| && 1 <= c < |g[0]| ==> h[r][c] == g[r][c])
  }

  /** Down column 0, the recurrence gives the closed form EdgeScore(k). */
  lemma {:induction false} ColumnClosedForm(h: Grid, k: nat)
    requires IsMatrixGrid(h) && FollowsEdgeRecurrence(h) && k < |h|
    ensures h[k][0].score == EdgeScore(k)
  {
    if k > 0 {
      ColumnClosedForm(h, k - 1);
    }
  }

  /** Along row 0, the recurrence gives the closed form EdgeScore(k). */
  lemma {:induction false} RowClosedForm(h: Grid, k: nat)
    requires IsMatrixGrid(h) && FollowsEdgeRecurrence(h) && k < |h[0]|
    ensures h[0][k].score == EdgeScore(k)
  {
    if k > 0 {
      RowClosedForm(h, k - 1);
    }
  }

  /** The intended result of initialize_edges is exactly the grid that follows the
      source's column-0 recurrence and the intended row-0 recurrence and otherwise
      agrees with the input: both directions. */
  lemma EdgesFilledCharacterization(g: Grid, h: Grid)
    requires IsMatrixGrid(g) && IsGrid(h, |g|, |g[0]|)
    ensures h == EdgesFilled(g) <==> FollowsEdgeRecurrence(h) && SameExceptEdgeScores(g, h)
  {
    if FollowsEdgeRecurrence(h) && SameExceptEdgeScores(g, h) {
      var e := EdgesFilled(g);
      forall r, c | 0 <= r < |g| && 0 <= c < |g[0]|
        ensures h[r][c] == e[r][c]
      {
        if r == 0 {
          RowClosedForm(h, c);
        } else if c == 0 {
          ColumnClosedForm(h, r);
        }
      }
      GridEquality(h, e, |g|, |g[0]|);
    }
  }

  /** Filling the edges a second time changes nothing. */
  lemma EdgesFilledIdempotent(g: Grid)
    requires IsMatrixGrid(g)
    ensures EdgesFilled(EdgesFilled(g)) == EdgesFilled(g)
  {
    var e := EdgesFilled(g);
    GridEquality(EdgesFilled(e), e, |g|, |g[0]|);
  }

  /** The gap score is negative, so scores strictly fall along each edge. */
  lemma EdgesStrictlyDecreasing(g: Grid, a: nat, b: nat)
    requires IsMatrixGrid(g) && a < b
    ensures b < |g| ==> EdgesFilled(g)[b][0].score < EdgesFilled(g)[a][0].score
    ensures b < |g[0]| ==> EdgesFilled(g)[0][b].score < EdgesFilled(g)[0][a].score
  {
  }

  /** Setting (0,0) to 0 fills the first cell of column 0. */
  lemma CornerStep(g: Grid)
    requires IsMatrixGrid(g)
    ensures WithScore(g, 0, 0, 0) == EdgesUpTo(g, 1, 0)
  {
    GridEquality(WithScore(g, 0, 0, 0), EdgesUpTo(g, 1, 0), |g|, |g[0]|);
  }

  /** One step down column 0: cell (k,0) gets the score of (k-1,0) plus the gap score. */
  lemma ColumnStep(g: Grid, k: nat)
    requires IsMatrixGrid(g) && 1 <= k < |g|
    ensures WithScore(EdgesUpTo(g, k, 0), k, 0, EdgesUpTo(g, k, 0)[k - 1][0].score + GapScore)
      == EdgesUpTo(g, k + 1, 0)
  {
    var e: Grid := EdgesUpTo(g, k, 0);
    GridEquality(WithScore(e, k, 0, e[k - 1][0].score + GapScore), EdgesUpTo(g, k + 1, 0), |g|, |g[0]|);
  }

  /** Once column 0 is filled, (0,0) counts as the first cell of row 0 too. */
  lemma ColumnDone(g: Grid)
    requires IsMatrixGrid(g)
    ensures EdgesUpTo(g, |g|, 0) == EdgesUpTo(g, |g|, 1)
  {
    GridEquality(EdgesUpTo(g, |g|, 0), EdgesUpTo(g, |g|, 1), |g|, |g[0]|);
  }

  /** One step along row 0: cell (0,k) gets the score of (0,k-1) plus the gap score. */
  lemma RowStep(g: Grid, k: nat)
    requires IsMatrixGrid(g) && 1 <= k < |g[0]|
    ensures WithScore(EdgesUpTo(g, |g|, k), 0, k, EdgesUpTo(g, |g|, k)[0][k - 1].score + GapScore)
      == EdgesUpTo(g, |g|, k + 1)
  {
    var e: Grid := EdgesUpTo(g, |g|, k);
    GridEquality(WithScore(e, 0, k, e[0][k - 1].score + GapScore), EdgesUpTo(g, |g|, k + 1), |g|, |g[0]|);
  }

  /** The part of initialize_edges that the source gets right: (0,0) is set to 0,
      then each cell down column 0 gets the score above it plus the gap score. */
  method FillColumnZero(m: ScoringMatrix)
    requires m.Valid()
    modifies m, m.Repr
    ensures m.Valid()
    ensures m.Contents == EdgesUpTo(old(m.Contents), m.rows, 1)
  {
    ghost var g := m.Contents;
    m.SetScore(0, 0, 0);
    CornerStep(g);
    for i := 1 to m.rows
      invariant m.Valid()
      invariant m.Contents == EdgesUpTo(g, i, 0)
    {
      var above := m.GetScore(i - 1, 0);
      m.SetScore(i, 0, above + GapScore);
      ColumnStep(g, i);
    }
    ColumnDone(g);
  }

  /** initialize_edges with the column pass indexed by its own loop variable `j`,
      so that cell (0,j) is set from (0,j-1) and the top edge is filled as the
      docstring's "top and left edges" asks. The source indexes that pass with the row loop's
      variable `i` instead of `j`; InitializeEdgesAsWritten models that. The row
      and column counts are the matrix's construction dimensions, because
      ScoringMatrix defines no get_rows or get_cols. */
  method InitializeEdges(m: ScoringMatrix)
    requires m.Valid()
    modifies m, m.Repr
    ensures m.Valid()
    ensures m.Contents == EdgesFilled(old(m.Contents))
  {
    ghost var g := m.Contents;
    FillColumnZero(m);
    for j := 1 to m.cols
      invariant m.Valid()
      invariant m.Contents == EdgesUpTo(g, m.rows, j)
    {
      var before := m.GetScore(0, j - 1);
      m.SetScore(0, j, before + GapScore);
      RowStep(g, j);
    }
  }

  /** How the source's initialize_edges ends. */
  datatype EdgeOutcome =
    | Completed
      /** The column pass reads `i`, which the empty row pass never bound. */
    | UnboundLocal
      /** The column pass indexes column `i` = rows - 1, past the last column. */
    | IndexOutOfRange

  /** The outcome of the source's initialize_edges on a rows-by-cols matrix. */
  function AsWrittenOutcome(rows: nat, cols: nat): (o: EdgeOutcome)
    ensures o == Completed <==> cols <= 1 || 2 <= rows <= cols
    ensures o == UnboundLocal <==> 2 <= cols && rows <= 1
    ensures o == IndexOutOfRange <==> 2 <= cols && cols < rows
  {
    if cols <= 1 then Completed
    else if rows <= 1 then UnboundLocal
    else if rows - 1 >= cols then IndexOutOfRange
    else Completed
  }

  /** The grid the source's initialize_edges leaves: column 0 filled, then, when the
      column pass runs without error, only cell (0, rows-1) written, from (0, rows-2). */
  function StaleEdges(g: Grid): (h: Grid)
    requires IsMatrixGrid(g)
    ensures IsGrid(h, |g|, |g[0]|)
    ensures forall r, c :: 0 <= r < |g| && 0 <= c < |g[0]| ==> h[r][c].links == g[r][c].links
    ensures forall r, c :: 1 <= r < |g| && 1 <= c < |g[0]| ==> h[r][c] == g[r][c]
    ensures forall r :: 0 <= r < |g| ==> h[r][0].score == EdgeScore(r)
    ensures forall c :: 1 <= c < |g[0]| && c != |g| - 1 ==> h[0][c] == g[0][c]
    ensures 1 <= |g| - 1 < |g[0]| ==>
      h[0][|g| - 1].score == (if |g| == 2 then 0 else g[0][|g| - 2].score) + GapScore
    ensures |g| - 1 >= |g[0]| ==> forall c :: 1 <= c < |g[0]| ==> h[0][c] == g[0][c]
  {
    var filled := EdgesUpTo(g, |g|, 1);
    if |g[0]| >= 2 && AsWrittenOutcome(|g|, |g[0]|) == Completed then
      WithScore(filled, 0, |g| - 1, filled[0][|g| - 2].score + GapScore)
    else filled
  }

  /** One pass of the source's column loop writes (0, rows-1) from (0, rows-2);
      repeating it changes nothing more. */
  lemma StaleColumnStep(g: Grid, h: Grid)
    requires IsMatrixGrid(g) && 2 <= |g| <= |g[0]|
    requires h == EdgesUpTo(g, |g|, 1) || h == StaleEdges(g)
    ensures |h| == |g| && |g| - 1 < |h[0]|
    ensures WithScore(h, 0, |g| - 1, h[0][|g| - 2].score + GapScore) == StaleEdges(g)
  {
    var w := WithScore(h, 0, |g| - 1, h[0][|g| - 2].score + GapScore);
    GridEquality(w, StaleEdges(g), |g|, |g[0]|);
  }

  /** When the source's column pass does not complete a write, only column 0 is filled. */
  lemma StaleEdgesWithoutColumnWrite(g: Grid)
    requires IsMatrixGrid(g) && (|g[0]| < 2 || AsWrittenOutcome(|g|, |g[0]|) != Completed)
    ensures StaleEdges(g) == EdgesUpTo(g, |g|, 1)
  {
  }

  /** initialize_edges as the source writes it, with the stale `i` in the column
      pass. The row loop leaves `i` at rows - 1; when it never ran (one row),
      Python has not bound `i` at all. */
  method InitializeEdgesAsWritten(m: ScoringMatrix) returns (outcome: EdgeOutcome)
    requires m.Valid()
    modifies m, m.Repr
    ensures m.Valid()
    ensures outcome == AsWrittenOutcome(m.rows, m.cols)
    ensures m.Contents == StaleEdges(old(m.Contents))
  {
    ghost var g := m.Contents;
    FillColumnZero(m);
    var iBound := m.rows >= 2;
    var i := m.rows - 1;
    ghost var filled := m.Contents;
    var j := 1;
    while j < m.cols
      invariant 1 <= j <= m.cols
      invariant m.Valid()
      invariant j == 1 ==> m.Contents == filled
      invariant j > 1 ==> iBound && i < m.cols && m.Contents == StaleEdges(g)
    {
      if !iBound {
        StaleEdgesWithoutColumnWrite(g);
        return UnboundLocal;
      }
      if i >= m.cols {
        StaleEdgesWithoutColumnWrite(g);
        return IndexOutOfRange;
      }
      var before := m.GetScore(0, i - 1);
      StaleColumnStep(g, m.Contents);
      m.SetScore(0, i, before + GapScore);
      j := j + 1;
    }
    if m.cols < 2 {
      StaleEdgesWithoutColumnWrite(g);
    }
    outcome := Completed;
  }

  /** With the left sequence of length 4 and the top sequence of length 7
      (a 5-by-8 matrix), the source's column pass leaves row 0 as
      0, 0, 0, 0, -1, 0, 0, 0 where 0, -1, ..., -7 is intended. */
  lemma StaleIndexCounterexample()
    ensures AsWrittenOutcome(5, 8) == Completed
    ensures StaleEdges(BlankGrid(5, 8))[0][7].score == 0
    ensures StaleEdges(BlankGrid(5, 8))[0][4].score == -1
    ensures EdgesFilled(BlankGrid(5, 8))[0][7].score == -7
  {
  }

  /** Whenever the source's column pass completes on a matrix with more columns
      than rows, the last cell of row 0 keeps its old score instead of
      receiving its edge score. */
  lemma StaleIndexMissesLastColumn(g: Grid)
    requires IsMatrixGrid(g) && 2 <= |g| < |g[0]|
    ensures StaleEdges(g)[0][|g[0]| - 1] == g[0][|g[0]| - 1]
    ensures EdgesFilled(g)[0][|g[0]| - 1].score == EdgeScore(|g[0]| - 1)
  {
  }

  /** The matrix for left sequence CGCA and top sequence CACGTAT
      (ScoringMatrix(7, 4): 5 rows, 8 columns), once with the intended edge fill
      and once with the source's; and the matrix the command-line front end
      builds for the same pair, shorter sequence first (ScoringMatrix(4, 7):
      8 rows, 5 columns), on which the source's fill raises IndexError. */
  method EdgeScenario() returns (bottomLeft: int, topRight: int, staleOutcome: EdgeOutcome, staleTopRight: int,
                                 swappedOutcome: EdgeOutcome, swappedBottomLeft: int, swappedTopRight: int)
    ensures bottomLeft == -4 && topRight == -7
    ensures staleOutcome == Completed && staleTopRight == 0
    ensures swappedOutcome == IndexOutOfRange && swappedBottomLeft == -7 && swappedTopRight == 0
  {
    var m := new ScoringMatrix(7, 4);
    InitializeEdges(m);
    bottomLeft := m.GetScore(4, 0);
    topRight := m.GetScore(0, 7);
    var stale := new ScoringMatrix(7, 4);
    staleOutcome := InitializeEdgesAsWritten(stale);
    staleTopRight := stale.GetScore(0, 7);
    var swapped := new ScoringMatrix(4, 7);
    swappedOutcome := InitializeEdgesAsWritten(swapped);
    swappedBottomLeft := swapped.GetScore(7, 0);
    swappedTopRight := swapped.GetScore(0, 4);
  }
}
