/** Cells of the grid and the paths the solver traces through them: sequences
    of pairwise 8-adjacent cells that visit no cell twice. */
module Paths {
  import opened Grid

  /** A cell as (row, column). */
  type Cell = (nat, nat)

  type Path = seq<Cell>

  predicate InBounds(p: Puzzle, c: Cell) {
    c.0 < p.rowSize && c.1 < p.colSize
  }

  function Dist(a: nat, b: nat): nat {
    if a <= b then b - a else a - b
  }

  /** `c` lies in the 3×3 block centred on `centre`, the centre included. */
  predicate InBlock(centre: Cell, c: Cell) {
    Dist(centre.0, c.0) <= 1 && Dist(centre.1, c.1) <= 1
  }

  /** Two different cells touching by a side or a corner. */
  predicate Adjacent(a: Cell, b: Cell) {
    a != b && InBlock(a, b)
  }

  /** A path the solver may trace: at least one cell, all in the grid, each
      adjacent to the one before, none visited twice. */
  predicate IsSimplePath(p: Puzzle, path: Path) {
    && |path| >= 1
    && (forall i :: 0 <= i < |path| ==> InBounds(p, path[i]))
    && (forall i :: 0 < i < |path| ==> Adjacent(path[i - 1], path[i]))
    && (forall i, j :: 0 <= i < j < |path| ==> path[i] != path[j])
  }

  function CharAt(p: Puzzle, c: Cell): char
    requires p.Valid() && InBounds(p, c)
  {
    p.rows[c.0][c.1]
  }

  /** The word a path spells: the letters of its cells in order. */
  function Spell(p: Puzzle, path: Path): string
    requires p.Valid()
    requires forall i :: 0 <= i < |path| ==> InBounds(p, path[i])
  {
    seq(|path|, i requires 0 <= i < |path| => CharAt(p, path[i]))
  }

  /** The cells a path visits. */
  function Cells(path: Path): set<Cell> {
    set i | 0 <= i < |path| :: path[i]
  }

  /** Appending a cell to a path adds just that cell to the visited ones. */
  lemma CellsAppend(path: Path, c: Cell)
    ensures Cells(path + [c]) == Cells(path) + {c}
  {
    var path' := path + [c];
    forall x | x in Cells(path')
      ensures x in Cells(path) + {c}
    {
      var i :| 0 <= i < |path'| && path'[i] == x;
      if i < |path| {
        assert path[i] == x;
      }
    }
    forall x | x in Cells(path)
      ensures x in Cells(path')
    {
      var i :| 0 <= i < |path| && path[i] == x;
      assert path'[i] == x;
    }
    assert path'[|path|] == c;
  }

  /** Every cell of the grid. */
  function AllCells(p: Puzzle): set<Cell> {
    Rows(p.rowSize, p.colSize)
  }

  /** `w` can be traced in the grid along some simple path. */
  ghost predicate Spellable(p: Puzzle, w: string) {
    p.Valid() && exists path :: IsSimplePath(p, path) && Spell(p, path) == w
  }

  /** A path that visits no cell twice visits as many cells as it is long. */
  lemma {:induction false} DistinctCellsCount(path: Path)
    requires forall i, j :: 0 <= i < j < |path| ==> path[i] != path[j]
    ensures |Cells(path)| == |path|
  {
    if path != [] {
      var init := path[..|path| - 1];
      DistinctCellsCount(init);
      assert Cells(path) == Cells(init) + {path[|path| - 1]};
      assert path[|path| - 1] !in Cells(init);
    }
  }

  /** The cells of the first `n` rows of a grid `cols` wide. */
  function Rows(n: nat, cols: nat): set<Cell> {
    if n == 0 then {} else Rows(n - 1, cols) + RowCells(n - 1, cols)
  }

  /** The cells of row `r` of a grid `cols` wide. */
  function RowCells(r: nat, cols: nat): set<Cell> {
    if cols == 0 then {} else RowCells(r, cols - 1) + {(r, cols - 1)}
  }

  lemma {:induction false} RowCellsHas(r: nat, cols: nat, x: Cell)
    ensures x in RowCells(r, cols) <==> x.0 == r && x.1 < cols
  {
    if cols > 0 {
      RowCellsHas(r, cols - 1, x);
    }
  }

  lemma {:induction false} RowsHas(n: nat, cols: nat, x: Cell)
    ensures x in Rows(n, cols) <==> x.0 < n && x.1 < cols
  {
    if n > 0 {
      RowsHas(n - 1, cols, x);
      RowCellsHas(n - 1, cols, x);
    }
  }

  /** `n` rows of `cols` cells, counted row by row. */
  function Area(n: nat, cols: nat): nat {
    if n == 0 then 0 else Area(n - 1, cols) + cols
  }

  lemma {:induction false} RowsCount(n: nat, cols: nat)
    ensures |Rows(n, cols)| == Area(n, cols)
  {
    if n > 0 {
      var before, last := Rows(n - 1, cols), RowCells(n - 1, cols);
      RowsCount(n - 1, cols);
      LastRowDisjoint(n - 1, cols);
      RowCellsCount(n - 1, cols);
      DisjointUnionCard(before, last, Rows(n, cols));
    }
  }

  lemma {:induction false} AreaIsProduct(n: nat, cols: nat)
    ensures Area(n, cols) == n * cols
  {
    if n > 0 {
      AreaIsProduct(n - 1, cols);
      MulStep(n, cols);
    }
  }

  lemma LastRowDisjoint(n: nat, cols: nat)
    ensures forall x :: x in Rows(n, cols) ==> x !in RowCells(n, cols)
  {
    forall x | x in Rows(n, cols)
      ensures x !in RowCells(n, cols)
    {
      RowsHas(n, cols, x);
      RowCellsHas(n, cols, x);
    }
  }

  lemma {:induction false} RowCellsCount(r: nat, cols: nat)
    ensures |RowCells(r, cols)| == cols
  {
    if cols > 0 {
      RowCellsCount(r, cols - 1);
      RowCellsHas(r, cols - 1, (r, cols - 1));
    }
  }

  lemma DisjointUnionCard<T>(a: set<T>, b: set<T>, u: set<T>)
    requires forall x :: x in a ==> x !in b
    requires u == a + b
    ensures |u| == |a| + |b|
  {
    assert a * b == {};
  }

  lemma MulStep(n: nat, cols: nat)
    requires n > 0
    ensures n * cols == (n - 1) * cols + cols
  {
  }

  /** A cell is one of the grid's exactly when it lies within its bounds, and
      the grid has `rowSize * colSize` cells. */
  lemma AllCellsShape(p: Puzzle)
    ensures forall c :: c in AllCells(p) <==> InBounds(p, c)
    ensures |AllCells(p)| == p.rowSize * p.colSize
  {
    forall c: Cell
      ensures c in AllCells(p) <==> InBounds(p, c)
    {
      RowsHas(p.rowSize, p.colSize, c);
    }
    RowsCount(p.rowSize, p.colSize);
    AreaIsProduct(p.rowSize, p.colSize);
  }

  lemma SubsetCard<T>(a: set<T>, b: set<T>)
    requires a <= b
    ensures |a| <= |b|
  {
    assert b == a + (b - a);
  }

  /** No simple path is longer than the grid has cells. */
  lemma SimplePathBound(p: Puzzle, path: Path)
    requires IsSimplePath(p, path)
    ensures |path| <= p.rowSize * p.colSize
  {
    DistinctCellsCount(path);
    AllCellsShape(p);
    SubsetCard(Cells(path), AllCells(p));
  }

  /** The word of a prefix of a path is the prefix of its word. */
  lemma SpellPrefix(p: Puzzle, path: Path, j: nat)
    requires p.Valid() && j <= |path|
    requires forall i :: 0 <= i < |path| ==> InBounds(p, path[i])
    ensures Spell(p, path[..j]) == Spell(p, path)[..j]
  {
  }
}
