# sequence-aligner: the score matrix and edge initialisation, in Dafny

This project models the core of sequence-aligner, a small Python program for
semi-global pairwise alignment. It covers the score matrix and the first step of
the dynamic-programming alignment, which fills the matrix edges:

- `scoring_matrix.dfy` (module `ScoreMatrix`) models `scoring_matrix.py`.
  - `ScoringMatrixCell` is a class with the source's four mutable fields: `score`, `up`, `diagonal`, `left`.
  - Each mutating method is specified by the pure function `Apply` on the cell's value (`CellState`). `Apply` describes one operation (`CellOp`).
  - `ApplyAll` runs a whole history of operations. The lemmas prove that flags only grow.
  - `ScoringMatrix` is a class over a list of rows of distinct cell objects, like the source's list of lists.
  - `Contents`, a ghost grid of cell values, is the matrix's abstract state. `Valid()` ties each cell object to its entry there.
  - A ghost `Position` map makes the cells pairwise distinct. So a write through one cell changes no other cell.
- `scoring_algorithm.dfy` (module `ScoringAlgorithm`) models `scoring_algorithm.py`.
  - It holds the four scoring constants: match 1, gap -1, mismatch 0, terminal gap -1.
  - `InitializeEdges` is proved against `EdgesFilled`, a closed-form function of the old grid.
  - `EdgesFilledCharacterization` proves that this closed form is exactly what two step-by-step recurrences produce. One is the source's column-0 recurrence (scoring_algorithm.py:35-36). The other is the intended row-0 recurrence: the `j` loop at scoring_algorithm.py:37, filling the "top and left edges" the docstring names.

How the model departs from the code:

- `ScoringMatrix` defines no `get_rows` or `get_cols`, yet `initialize_edges` calls both at scoring_algorithm.py:35 and :37. In Python that raises AttributeError. The model takes the counts from the construction dimensions, as the const fields `rows` and `cols`.
- The column pass of `initialize_edges` indexes with the row loop's stale `i`. `InitializeEdges` indexes that pass with its own loop variable `j`, setting `(0,j)` from `(0,j-1)`. That is inferred from the `for j in range(1, sm.get_cols())` header at :37 and from the docstring's "top and left edges"; the docstring itself states no recurrence. `InitializeEdgesAsWritten` models the code as written. See Findings.
- Matrix-level `get_backlinks` returns nothing. `GetBacklinksAsWritten` returns `None` and promises nothing else. `GetBacklinks` returns the cell's flags, as the docstring and the callers in terminal_output.py expect.
- The edge fill adds no backlinks. It always adds `gap_score`, never `terminal_gap_score`. The code sets `terminal_gap_score` to -1, the same value as `gap_score`. The model follows the code.

## Model

| member | source | states |
|---|---|---|
| ScoreMatrix.Apply | scoring_matrix.py:43-57 | set_score replaces the score and keeps the flags. Each add_*_backlink sets exactly its own flag and keeps the score and the other two flags. No operation clears a flag. |
| ScoreMatrix.ApplyIdempotent | scoring_matrix.py:43-57 | Repeating a cell operation has the same effect as doing it once. |
| ScoreMatrix.ApplyAllFlags | scoring_matrix.py:43-57 | After any sequence of cell operations, a flag is set exactly when it was set at the start or some add of that flag occurred. |
| ScoreMatrix.ApplyAllMonotone | scoring_matrix.py:43-57 | No sequence of cell operations turns a flag from true to false. |
| ScoreMatrix.ScoringMatrixCell.constructor | scoring_matrix.py:24-32 | A cell built from (s, u, d, l) holds score s and flags u, d, l. |
| ScoreMatrix.ScoringMatrixCell.Default | scoring_matrix.py:24-32 | A cell built with no arguments has score 0 and no backlinks. |
| ScoreMatrix.ScoringMatrixCell.GetScore | scoring_matrix.py:34-36 | Returns the score held by the cell's current state. |
| ScoreMatrix.ScoringMatrixCell.GetBacklinks | scoring_matrix.py:38-41 | Returns the cell's up, diagonal and left flags. |
| ScoreMatrix.ScoringMatrixCell.SetScore | scoring_matrix.py:43-45 | The new state is `Apply(old, Rescore(s))`: score s, flags unchanged. |
| ScoreMatrix.ScoringMatrixCell.AddUpBacklink | scoring_matrix.py:47-49 | The new state is `Apply(old, LinkUp)`: up is set, nothing else changes. |
| ScoreMatrix.ScoringMatrixCell.AddDiagonalBacklink | scoring_matrix.py:51-53 | The new state is `Apply(old, LinkDiagonal)`: diagonal is set, nothing else changes. |
| ScoreMatrix.ScoringMatrixCell.AddLeftBacklink | scoring_matrix.py:55-57 | The new state is `Apply(old, LinkLeft)`: left is set, nothing else changes. |
| ScoreMatrix.CellSelfTest | scoring_matrix.py:91-140 | Reproduces the module's two tests. A default cell reads back as score 0 with no flags. A (1, true, true, true) cell reads back as exactly that. Building the second cell leaves the first unchanged. |
| ScoreMatrix.BlankGrid | scoring_matrix.py:64-66 | A new matrix has the requested shape, and every cell has score 0 and no backlinks. |
| ScoreMatrix.WithScore | scoring_matrix.py:72-74 | Writing the score at (row, col) gives that cell the new score and keeps its flags. Every other cell keeps its state, and the shape is unchanged. |
| ScoreMatrix.SetThenGet | scoring_matrix.py:68-74 | After set_score(row, col, s), get_score(row, col) returns s. Every other cell keeps its score, and all flags are unchanged. |
| ScoreMatrix.NewCells | scoring_matrix.py:65-66 | Builds rows of fresh default cells, each a distinct object with its own position. |
| ScoreMatrix.ScoringMatrix.constructor | scoring_matrix.py:61-66 | ScoringMatrix(n1, n2) has n2+1 rows of n1+1 fresh cells, all with score 0 and no backlinks. |
| ScoreMatrix.ScoringMatrix.GetScore | scoring_matrix.py:68-70 | Returns the score of the cell at (row, col). |
| ScoreMatrix.ScoringMatrix.SetScore | scoring_matrix.py:72-74 | Changes only the cell at (row, col): its score becomes s and its flags stay. Every other cell is unchanged, and the matrix stays valid. |
| ScoreMatrix.ScoringMatrix.GetBacklinksAsWritten | scoring_matrix.py:76-79 | The source's get_backlinks returns None, never the cell's flags. |
| ScoreMatrix.ScoringMatrix.GetBacklinks | scoring_matrix.py:76-79 | Returns the flags of the cell at (row, col), as the docstring promises. |
| ScoringAlgorithm.EdgesFilled | scoring_algorithm.py:29-38 | The intended edge fill gives score(i,0) = i * gap_score and score(0,j) = j * gap_score, so (0,0) is 0. It keeps the shape, adds or removes no backlink anywhere, and leaves every interior cell unchanged. |
| ScoringAlgorithm.ColumnClosedForm | scoring_algorithm.py:35-36 | If (0,0) is 0 and each cell down column 0 is the one above plus gap_score, then score(i,0) = i * gap_score. |
| ScoringAlgorithm.RowClosedForm | scoring_algorithm.py:37-38 | If (0,0) is 0 and each cell along row 0 is its left neighbour plus gap_score, then score(0,j) = j * gap_score. |
| ScoringAlgorithm.EdgesFilledCharacterization | scoring_algorithm.py:29-38 | A grid equals the intended edge fill of g if and only if two things hold. It follows, from (0,0) = 0, the source's column-0 recurrence and the intended row-0 recurrence. It agrees with g on every flag and on every interior cell. |
| ScoringAlgorithm.EdgesFilledIdempotent | scoring_algorithm.py:29-38 | Filling the edges of an already filled matrix changes nothing. |
| ScoringAlgorithm.EdgesStrictlyDecreasing | scoring_algorithm.py:25-38 | Because gap_score is negative, the scores along column 0 and along row 0 strictly decrease as the index grows. |
| ScoringAlgorithm.CornerStep | scoring_algorithm.py:34 | Setting (0,0) to 0 completes the first cell of column 0. |
| ScoringAlgorithm.ColumnStep | scoring_algorithm.py:35-36 | One row-loop step, (k,0) := (k-1,0) + gap_score, extends the filled part of column 0 by one cell. |
| ScoringAlgorithm.ColumnDone | scoring_algorithm.py:34-36 | Once column 0 is filled, (0,0) already counts as filled on row 0 too. |
| ScoringAlgorithm.RowStep | scoring_algorithm.py:37-38 | One intended column-loop step, (0,k) := (0,k-1) + gap_score, extends the filled part of row 0 by one cell. |
| ScoringAlgorithm.FillColumnZero | scoring_algorithm.py:34-36 | After the corner write and the row loop, column 0 holds i * gap_score and nothing else has changed. The loop invariant: after step k, only cells (0..k, 0) have been written, each with its closed form. |
| ScoringAlgorithm.InitializeEdges | scoring_algorithm.py:29-38 | The new grid is EdgesFilled(old grid): (0,0) is 0 and every edge cell is its distance to the corner times gap_score. No backlink is added, and interior cells keep their scores. |
| ScoringAlgorithm.AsWrittenOutcome | scoring_algorithm.py:35-38 | The source's initialize_edges completes exactly when there is one column, or when 2 <= rows <= columns. Otherwise it stops with an unbound `i` (one row) or an IndexError (more rows than columns). |
| ScoringAlgorithm.StaleEdges | scoring_algorithm.py:34-38 | The source's fill gets column 0 right and changes no flag and no interior cell. On row 0 it writes only (0, rows-1), and only when that column exists; that cell gets score(0, rows-2) + gap_score. Every other cell of row 0 keeps its old state. |
| ScoringAlgorithm.StaleColumnStep | scoring_algorithm.py:37-38 | Each pass of the source's column loop writes (0, rows-1) from (0, rows-2). Repeating that pass changes nothing more. |
| ScoringAlgorithm.StaleEdgesWithoutColumnWrite | scoring_algorithm.py:35-38 | When the source's column pass writes nothing, only column 0 ends up filled. |
| ScoringAlgorithm.InitializeEdgesAsWritten | scoring_algorithm.py:29-38 | The source's initialize_edges ends with AsWrittenOutcome(rows, cols) and leaves the grid StaleEdges(old grid). |
| ScoringAlgorithm.StaleIndexCounterexample | scoring_algorithm.py:37-38 | On a 5-by-8 matrix, the source's fill leaves (0,7) at 0 and (0,4) at -1. The intended fill gives (0,7) the score -7. |
| ScoringAlgorithm.StaleIndexMissesLastColumn | scoring_algorithm.py:37-38 | With 2 <= rows < columns, the source never writes the last cell of row 0, which should hold (columns-1) * gap_score. |
| ScoringAlgorithm.EdgeScenario | scoring_algorithm.py:29-38 | Left sequence CGCA against top sequence CACGTAT (ScoringMatrix(7, 4)). The intended fill gives (4,0) = -4 and (0,7) = -7. The source's fill completes but leaves (0,7) at 0. For the same pair passed shorter sequence first, as the command-line front end does (ScoringMatrix(4, 7), 8 rows by 5 columns), the source's fill fills column 0 down to -7 and then raises IndexError, leaving (0,4) at 0. |

## Left out

- Other source files: sequence_aligner.py (command-line and file I/O), terminal_output.py (text rendering) and html_output.py (HTML output) are not part of this model.
- Interior fill, traceback and backlink pruning: the modelled code contains none of these, so the model does not invent them.
- The scoring constants match_score, mismatch_score and terminal_gap_score are declared as in the source. Nothing in the modelled code reads them.
- ScoreMatrix.ScoringMatrix.GetScore: requires 0 <= row < rows and 0 <= col < cols. Python would also accept negative indices, which count from the end, and would raise IndexError beyond the bounds.
- ScoreMatrix.ScoringMatrix.SetScore: requires in-range indices, for the same reason as GetScore.
- ScoreMatrix.ScoringMatrix.GetBacklinks: requires in-range indices, for the same reason as GetScore.
- ScoreMatrix.ScoringMatrix.GetBacklinksAsWritten: requires in-range indices, for the same reason as GetScore.
- ScoreMatrix.ScoringMatrix.constructor: takes natural-number lengths. Negative lengths, and the strings that sequence_aligner.py:84 passes in their place, are not modelled.
- ScoreMatrix.ScoringMatrixCell.constructor: the score is an integer. Python would store any value.
- Python's default arguments become two constructors: one taking all four values, and `Default` taking none.
- The dictionary that get_backlinks returns is the `Backlinks` datatype with the same three keys.
- ScoringAlgorithm.InitializeEdgesAsWritten: takes the counts from the construction dimensions. The real code raises AttributeError at the `get_rows` call, right after setting (0,0).
- Printing and `exit(1)` in the module self-test are left out. Only its assertions are kept, in `CellSelfTest`.

## Findings

| source | as written | input that shows it | evidently intended | confidence | as-written member | corrected member |
|---|---|---|---|---|---|---|
| scoring_algorithm.py:37-38 | The column pass uses the row loop's `i` instead of `j`. Every iteration sets (0, rows-1) from (0, rows-2). | ScoringMatrix(7, 4), a 5-by-8 matrix: row 0 ends as 0,0,0,0,-1,0,0,0. With more rows than columns (at least 2 columns) the pass raises IndexError; that is the case for CGCA and CACGTAT as sequence_aligner.py:81-84 orders them, ScoringMatrix(4, 7). With one row and at least 2 columns, `i` is unbound. | score(0,j) = score(0,j-1) + gap_score for every j in [1, columns) | high; not executed | ScoringAlgorithm.InitializeEdgesAsWritten, exhibited by ScoringAlgorithm.StaleIndexCounterexample | ScoringAlgorithm.InitializeEdges |
| scoring_matrix.py:76-79 | get_backlinks reads the cell's dictionary and discards it, so it returns None. | Any in-range (row, col). terminal_output.py:46-47 then subscripts the None. | Return the cell's backlink dictionary | high; not executed | ScoreMatrix.ScoringMatrix.GetBacklinksAsWritten | ScoreMatrix.ScoringMatrix.GetBacklinks |
