/** The score matrix of the aligner: mutable cells holding a score and three
    backlink flags, and a grid of independent cells indexed by (row, column). */
module ScoreMatrix {

  /** The three backlink flags of a cell, as get_backlinks reports them. */
  datatype Backlinks = Backlinks(up: bool, diagonal: bool, left: bool)

  /** The state of one cell as a value. */
  datatype CellState = CellState(score: int, links: Backlinks)

  /** A cell built with no arguments: score 0 and no backlinks. */
  const BlankCell := CellState(0, Backlinks(false, false, false))

  /** The operations that change a cell: set_score and the three add_*_backlink. */
  datatype CellOp = Rescore(newScore: int) | LinkUp | LinkDiagonal | LinkLeft

  /** Every flag set in `a` is also set in `b`. */
  predicate LinksIncluded(a: Backlinks, b: Backlinks) {
    (a.up ==> b.up) && (a.diagonal ==> b.diagonal) && (a.left ==> b.left)
  }

  /** The effect of one operation on a cell. Only Rescore changes the score;
      each Link* sets exactly its own flag; no flag is ever cleared. */
  function Apply(c: CellState, op: CellOp): (r: CellState)
    ensures r.score == (if op.Rescore? then op.newScore else c.score)
    ensures r.links.up <==> c.links.up || op == LinkUp
    ensures r.links.diagonal <==> c.links.diagonal || op == LinkDiagonal
    ensures r.links.left <==> c.links.left || op == LinkLeft
    ensures LinksIncluded(c.links, r.links)
  {
    match op
    case Rescore(s) => c.(score := s)
    case LinkUp => c.(links := c.links.(up := true))
    case LinkDiagonal => c.(links := c.links.(diagonal := true))
    case LinkLeft => c.(links := c.links.(left := true))
  }

  /** Applying the same operation twice is the same as applying it once. */
  lemma ApplyIdempotent(c: CellState, op: CellOp)
    ensures Apply(Apply(c, op), op) == Apply(c, op)
  {
  }

  /** The state of a cell after a whole history of operations, oldest first. */
  function ApplyAll(c: CellState, ops: seq<CellOp>): CellState
    decreases |ops|
  {
    if ops == [] then c else ApplyAll(Apply(c, ops[0]), ops[1..])
  }

  /** After any history, a flag is set exactly when it was set at the start
      or some operation of the history added it. */
  lemma {:induction false} ApplyAllFlags(c: CellState, ops: seq<CellOp>)
    ensures ApplyAll(c, ops).links ==
      Backlinks(c.links.up || LinkUp in ops,
                c.links.diagonal || LinkDiagonal in ops,
                c.links.left || LinkLeft in ops)
    decreases |ops|
  {
    if ops != [] {
      ApplyAllFlags(Apply(c, ops[0]), ops[1..]);
      assert ops == [ops[0]] + ops[1..];
    }
  }

  /** Backlinks are monotone: no history of cell operations clears a flag. */
  lemma ApplyAllMonotone(c: CellState, ops: seq<CellOp>)
    ensures LinksIncluded(c.links, ApplyAll(c, ops).links)
  {
    ApplyAllFlags(c, ops);
  }

  /** One cell of the matrix (ScoringMatrixCell). */
  class ScoringMatrixCell {
    var score: int
    var up: bool
    var diagonal: bool
    var left: bool

    /** The cell's current state as a value. */
    function Value(): CellState
      reads this
    {
      CellState(score, Backlinks(up, diagonal, left))
    }

    /** A cell with the given score and flags. */
    constructor (score: int, up: bool, diagonal: bool, left: bool)
      ensures Value() == CellState(score, Backlinks(up, diagonal, left))
    {
      this.score := score;
      this.up := up;
      this.diagonal := diagonal;
      this.left := left;
    }

    /** The cell built when every argument is omitted. */
    constructor Default()
      ensures Value() == BlankCell
    {
      score := 0;
      up, diagonal, left := false, false, false;
    }

    function GetScore(): (s: int)
      reads this
      ensures s == Value().score
    {
      score
    }

    function GetBacklinks(): (b: Backlinks)
      reads this
      ensures b == Value().links
    {
      Backlinks(up, diagonal, left)
    }

    method SetScore(newScore: int)
      modifies this
      ensures Value() == Apply(old(Value()), Rescore(newScore))
    {
      score := newScore;
    }

    method AddUpBacklink()
      modifies this
      ensures Value() == Apply(old(Value()), LinkUp)
    {
      up := true;
    }

    method AddDiagonalBacklink()
      modifies this
      ensures Value() == Apply(old(Value()), LinkDiagonal)
    {
      diagonal := true;
    }

    method AddLeftBacklink()
      modifies this
      ensures Value() == Apply(old(Value()), LinkLeft)
    {
      left := true;
    }
  }

  /** The two cell tests of the module's self-test: a default cell reads as
      score 0 without backlinks, a cell built from (1, true, true, true) reads
      back exactly those values, and building the second leaves the first as it was. */
  method CellSelfTest() returns (first: CellState, second: CellState)
    ensures first == BlankCell
    ensures second == CellState(1, Backlinks(true, true, true))
  {
    var test1 := new ScoringMatrixCell.Default();
    var test2 := new ScoringMatrixCell(1, true, true, true);
    first := CellState(test1.GetScore(), test1.GetBacklinks());
    second := CellState(test2.GetScore(), test2.GetBacklinks());
  }

  /** A grid of cell states, indexed [row][column]. */
  type Grid = seq<seq<CellState>>

  /** `g` has `rows` rows of `cols` cells each. */
  predicate IsGrid(g: Grid, rows: nat, cols: nat) {
    |g| == rows && forall r :: 0 <= r < rows ==> |g[r]| == cols
  }

  /** Two grids of the same shape with the same cell everywhere are equal. */
  lemma GridEquality(g: Grid, h: Grid, rows: nat, cols: nat)
    requires IsGrid(g, rows, cols) && IsGrid(h, rows, cols)
    requires forall r, c :: 0 <= r < rows && 0 <= c < cols ==> g[r][c] == h[r][c]
    ensures g == h
  {
    forall r | 0 <= r < rows
      ensures g[r] == h[r]
    {
    }
  }

  /** A freshly built matrix: every cell has score 0 and no backlinks. */
  function BlankGrid(rows: nat, cols: nat): (g: Grid)
    ensures IsGrid(g, rows, cols)
    ensures forall r, c :: 0 <= r < rows && 0 <= c < cols ==> g[r][c] == BlankCell
  {
    seq(rows, _ => seq(cols, _ => BlankCell))
  }

  /** The grid after set_score(row, col, s): that cell takes score `s` and keeps
      its flags, every other cell is unchanged. */
  function WithScore(g: Grid, row: nat, col: nat, s: int): (h: Grid)
    requires row < |g| && col < |g[row]|
    ensures |h| == |g|
    ensures forall r :: 0 <= r < |g| ==> |h[r]| == |g[r]|
    ensures h[row][col] == CellState(s, g[row][col].links)
    ensures forall r, c :: 0 <= r < |g| && 0 <= c < |g[r]| && (r != row || c != col) ==>
      h[r][c] == g[r][c]
  {
    g[row := g[row][col := Apply(g[row][col], Rescore(s))]]
  }

  /** Reading a cell back after writing it gives the written score; writing a
      cell does not change any other cell's score. */
  lemma SetThenGet(g: Grid, rows: nat, cols: nat, row: nat, col: nat, s: int, r: nat, c: nat)
    requires IsGrid(g, rows, cols) && row < rows && col < cols && r < rows && c < cols
    ensures WithScore(g, row, col, s)[r][c].score == if r == row && c == col then s else g[r][c].score
    ensures WithScore(g, row, col, s)[r][c].links == g[r][c].links
  {
  }

  /** Builds `rows` rows of `cols` fresh, distinct default cells. */
  method NewCells(rows: nat, cols: nat) returns (cells: seq<seq<ScoringMatrixCell>>, ghost position: map<ScoringMatrixCell, (nat, nat)>)
    ensures |cells| == rows
    ensures forall r :: 0 <= r < rows ==> |cells[r]| == cols
    ensures forall r, c :: 0 <= r < rows && 0 <= c < cols ==>
      fresh(cells[r][c]) && cells[r][c] in position && position[cells[r][c]] == (r, c) &&
      cells[r][c].Value() == BlankCell
  {
    cells := [];
    position := map[];
    while |cells| < rows
      invariant |cells| <= rows
      invariant forall r :: 0 <= r < |cells| ==> |cells[r]| == cols
      invariant forall cell :: cell in position ==> fresh(cell)
      invariant forall r, c :: 0 <= r < |cells| && 0 <= c < cols ==>
        fresh(cells[r][c]) && cells[r][c] in position && position[cells[r][c]] == (r, c) &&
        cells[r][c].Value() == BlankCell
    {
      var line: seq<ScoringMatrixCell> := [];
      while |line| < cols
        invariant |line| <= cols
        invariant forall cell :: cell in position ==> fresh(cell)
        invariant forall r, c :: 0 <= r < |cells| && 0 <= c < cols ==>
          fresh(cells[r][c]) && cells[r][c] in position && position[cells[r][c]] == (r, c) &&
          cells[r][c].Value() == BlankCell
        invariant forall c :: 0 <= c < |line| ==>
          fresh(line[c]) && line[c] in position && position[line[c]] == (|cells|, c) &&
          line[c].Value() == BlankCell
      {
        var cell := new ScoringMatrixCell.Default();
        position := position[cell := (|cells|, |line|)];
        line := line + [cell];
      }
      cells := cells + [line];
    }
  }

  /** The scoring matrix (ScoringMatrix): `rows` rows of `cols` independent cells. */
  class ScoringMatrix {
    const rows: nat
    const cols: nat
    const grid: seq<seq<ScoringMatrixCell>>
    /** The cells of the grid. */
    ghost const Repr: set<ScoringMatrixCell>
    /** Where each cell sits; it makes the cells pairwise distinct. */
    ghost const Position: map<ScoringMatrixCell, (nat, nat)>
    /** The states of all cells, indexed [row][column]. */
    ghost var Contents: Grid

    ghost predicate Valid()
      reads this, Repr
    {
      1 <= rows && 1 <= cols &&
      |grid| == rows && (forall r :: 0 <= r < rows ==> |grid[r]| == cols) &&
      IsGrid(Contents, rows, cols) &&
      forall r, c :: 0 <= r < rows && 0 <= c < cols ==>
        grid[r][c] in Repr && grid[r][c] in Position && Position[grid[r][c]] == (r, c) &&
        grid[r][c].Value() == Contents[r][c]
    }

    /** ScoringMatrix(sequence_length1, sequence_length2): the outer index runs
        over the second length, so there are sequenceLength2 + 1 rows of
        sequenceLength1 + 1 fresh default cells. */
    constructor (sequenceLength1: nat, sequenceLength2: nat)
      ensures Valid() && fresh(Repr)
      ensures rows == sequenceLength2 + 1 && cols == sequenceLength1 + 1
      ensures Contents == BlankGrid(rows, cols)
    {
      var cells, position := NewCells(sequenceLength2 + 1, sequenceLength1 + 1);
      rows := sequenceLength2 + 1;
      cols := sequenceLength1 + 1;
      grid := cells;
      Position := position;
      Repr := set r, c | 0 <= r < sequenceLength2 + 1 && 0 <= c < sequenceLength1 + 1 :: cells[r][c];
      Contents := BlankGrid(sequenceLength2 + 1, sequenceLength1 + 1);
      new;
      GridEquality(Contents, BlankGrid(rows, cols), rows, cols);
    }

    method GetScore(row: int, col: int) returns (s: int)
      requires Valid() && 0 <= row < rows && 0 <= col < cols
      ensures s == Contents[row][col].score
    {
      s := grid[row][col].GetScore();
    }

    /** Writes one cell's score; every other cell, and every flag, is left alone. */
    method SetScore(row: int, col: int, score: int)
      requires Valid() && 0 <= row < rows && 0 <= col < cols
      modifies this, grid[row][col]
      ensures Valid()
      ensures Contents == WithScore(old(Contents), row, col, score)
    {
      grid[row][col].SetScore(score);
      Contents := WithScore(Contents, row, col, score);
    }

    /** get_backlinks as written: the cell's flags are read and dropped, so the
        caller receives None. */
    method GetBacklinksAsWritten(row: int, col: int) returns (r: Option<Backlinks>)
      requires Valid() && 0 <= row < rows && 0 <= col < cols
      ensures r == None
    {
      var _ := grid[row][col].GetBacklinks();
      r := None;
    }

    /** get_backlinks as its docstring and its callers intend: the flags of the cell. */
    method GetBacklinks(row: int, col: int) returns (b: Backlinks)
      requires Valid() && 0 <= row < rows && 0 <= col < cols
      ensures b == Contents[row][col].links
    {
      b := grid[row][col].GetBacklinks();
    }
  }

  /** Python's None, for a call that returns nothing. */
  datatype Option<T> = None | Some(value: T)
}
