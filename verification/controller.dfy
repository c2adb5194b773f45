/** The controller as the source writes it: a mutable object over the
    automaton's heap grid, with an `editing` flag and an optional backup
    array. Each public method is proved to do to its abstract value `Model()`
    what the matching function of `Session` does, and the backup is proved to
    be storage of its own. The private helpers have contracts of their own:
    `DoCellsBackup` makes a fresh copy, the paint loops build the reference
    paintings of `Painting`, and `PaintCellsAndEvolve` applies the library's
    next state. */
module Controller {
  import opened Grid
  import opened PointerMapping
  import opened Painting
  import opened Session

  /** The cells of a heap grid, column by column. */
  function Contents(a: array2<int>): (g: Cells)
    reads a
    ensures WellFormed(g, a.Length0, a.Length1)
    ensures forall i, j :: InBounds(a.Length0, a.Length1, i, j) ==> g[i][j] == a[i, j]
  {
    seq(a.Length0, i requires 0 <= i < a.Length0 reads a =>
      seq(a.Length1, j requires 0 <= j < a.Length1 reads a => a[i, j]))
  }

  /** A whole-grid painting, read against the heap grid it was taken from:
      exactly the live cells, in column-major order. */
  lemma PaintedLiveCells(a: array2<int>, t: seq<Coord>)
    requires t == GridPaint(Contents(a), a.Length0, a.Length1, a.Length0)
    ensures forall p :: p in t <==> InBounds(a.Length0, a.Length1, p.0, p.1) && a[p.0, p.1] == ALIVE
    ensures ColumnMajor(t)
  {
    var g := Contents(a);
    GridPaintSpec(g, a.Length0, a.Length1, a.Length0);
    forall p: Coord | InBounds(a.Length0, a.Length1, p.0, p.1)
      ensures g[p.0][p.1] == a[p.0, p.1]
    {
    }
  }

  class GameOfLife {
    /** The automaton's grid, `cells[i, j]` for column `i` and row `j`; its
        dimensions are the automaton's width and height. */
    var cells: array2<int>
    var editing: bool
    var cellsBackup: array2?<int>

    /** The backup, when there is one, has the grid's shape and is not the
        grid itself; while editing there is one. */
    ghost predicate Valid()
      reads this
    {
      && (cellsBackup != null ==>
            && cellsBackup != cells
            && cellsBackup.Length0 == cells.Length0
            && cellsBackup.Length1 == cells.Length1)
      && (editing ==> cellsBackup != null)
    }

    /** The abstract controller state this object represents. */
    function Model(): (s: World)
      reads this, cells, cellsBackup
      ensures Valid() ==> Session.Valid(s)
    {
      World(Contents(cells), cells.Length0, cells.Length1, editing,
            if cellsBackup == null then None else Some(Contents(cellsBackup)))
    }

    constructor (grid: array2<int>)
      ensures Valid() && cells == grid
      ensures Model() == Init(Contents(grid), grid.Length0, grid.Length1)
    {
      cells := grid;
      editing := false;
      cellsBackup := null;
    }

    method StartEdition()
      requires Valid()
      modifies this
      ensures Valid() && cells == old(cells)
      ensures Model() == Session.StartEdition(old(Model()))
      ensures !old(editing) ==> fresh(cellsBackup)
      ensures old(editing) ==> cellsBackup == old(cellsBackup)
    {
      if !editing {
        editing := true;
        DoCellsBackup();
      }
    }

    /** Copies the grid, column by column, into newly allocated storage. */
    method DoCellsBackup()
      modifies this
      ensures cells == old(cells) && editing == old(editing)
      ensures cellsBackup != null && fresh(cellsBackup)
      ensures Valid()
      ensures Contents(cellsBackup) == Contents(cells)
    {
      var copy := new int[cells.Length0, cells.Length1];
      var i := 0;
      while i < cells.Length0
        modifies copy
        invariant 0 <= i <= cells.Length0
        invariant forall a, b :: 0 <= a < i && 0 <= b < cells.Length1 ==> copy[a, b] == cells[a, b]
      {
        var j := 0;
        while j < cells.Length1
          modifies copy
          invariant 0 <= j <= cells.Length1
          invariant forall a, b :: 0 <= a < i && 0 <= b < cells.Length1 ==> copy[a, b] == cells[a, b]
          invariant forall b :: 0 <= b < j ==> copy[i, b] == cells[i, b]
        {
          copy[i, j] := cells[i, j];
          j := j + 1;
        }
        i := i + 1;
      }
      cellsBackup := copy;
      Extensionality(Contents(cellsBackup), Contents(cells), cells.Length0, cells.Length1);
    }

    method EndEdition()
      requires Valid()
      modifies this
      ensures Valid() && cells == old(cells) && cellsBackup == old(cellsBackup)
      ensures Model() == Session.EndEdition(old(Model()))
    {
      editing := false;
    }

    method Clear()
      requires Valid()
      modifies cells
      ensures Model() == Session.Clear(old(Model()))
    {
      var i := 0;
      while i < cells.Length0
        invariant 0 <= i <= cells.Length0
        invariant forall a, b :: 0 <= a < i && 0 <= b < cells.Length1 ==> cells[a, b] == DEAD
      {
        var j := 0;
        while j < cells.Length1
          invariant 0 <= j <= cells.Length1
          invariant forall a, b :: 0 <= a < i && 0 <= b < cells.Length1 ==> cells[a, b] == DEAD
          invariant forall b :: 0 <= b < j ==> cells[i, b] == DEAD
        {
          cells[i, j] := DEAD;
          j := j + 1;
        }
        i := i + 1;
      }
      Extensionality(Contents(cells), Session.Clear(old(Model())).cells, cells.Length0, cells.Length1);
    }

    /** Copies every column of the backup over the grid. */
    method RestoreLastWorld()
      requires Valid() && (editing || cellsBackup != null)
      modifies cells
      ensures Model() == Session.RestoreLastWorld(old(Model()))
    {
      var i := 0;
      while i < cells.Length0
        invariant 0 <= i <= cells.Length0
        invariant forall a, b :: 0 <= a < i && 0 <= b < cells.Length1 ==> cells[a, b] == cellsBackup[a, b]
      {
        var j := 0;
        while j < cells.Length1
          invariant 0 <= j <= cells.Length1
          invariant forall a, b :: 0 <= a < i && 0 <= b < cells.Length1 ==> cells[a, b] == cellsBackup[a, b]
          invariant forall b :: 0 <= b < j ==> cells[i, b] == cellsBackup[i, b]
        {
          cells[i, j] := cellsBackup[i, j];
          j := j + 1;
        }
        i := i + 1;
      }
      Extensionality(Contents(cells), Contents(cellsBackup), cells.Length0, cells.Length1);
    }

    method LoadWorldFrom(sampler: (int, int) -> int)
      requires Valid()
      modifies cells
      ensures Model() == Session.LoadWorldFrom(old(Model()), sampler)
    {
      var i := 0;
      while i < cells.Length0
        invariant 0 <= i <= cells.Length0
        invariant forall a, b :: 0 <= a < i && 0 <= b < cells.Length1 ==> cells[a, b] == sampler(a, b)
      {
        var j := 0;
        while j < cells.Length1
          invariant 0 <= j <= cells.Length1
          invariant forall a, b :: 0 <= a < i && 0 <= b < cells.Length1 ==> cells[a, b] == sampler(a, b)
          invariant forall b :: 0 <= b < j ==> cells[i, b] == sampler(i, b)
        {
          cells[i, j] := sampler(i, j);
          j := j + 1;
        }
        i := i + 1;
      }
      Extensionality(Contents(cells), Session.LoadWorldFrom(old(Model()), sampler).cells, cells.Length0, cells.Length1);
    }

    method OnPointDetected(px: real, py: real, x: real, y: real, cellSize: CellSize)
      requires Valid()
      modifies cells
      ensures Model() == Session.OnPointDetected(old(Model()), px, py, x, y, cellSize)
    {
      var cellX := CellIndex(x, cellSize);
      var cellY := CellIndex(y, cellSize);
      if 0 <= cellX < cells.Length0 && 0 <= cellY < cells.Length1 {
        cells[cellX, cellY] := ALIVE;
        Extensionality(Contents(cells), Session.OnPointDetected(old(Model()), px, py, x, y, cellSize).cells,
                       cells.Length0, cells.Length1);
      }
    }

    /** The hold branch of a frame: paints every live cell, column by column,
        without writing the grid. */
    method PaintCellsWithoutEvolution() returns (painted: seq<Coord>)
      ensures painted == GridPaint(Contents(cells), cells.Length0, cells.Length1, cells.Length0)
      ensures forall p :: p in painted <==> InBounds(cells.Length0, cells.Length1, p.0, p.1) && cells[p.0, p.1] == ALIVE
      ensures ColumnMajor(painted)
    {
      painted := PaintColumns();
      PaintedLiveCells(cells, painted);
    }

    /** The outer loop of the hold branch: paints the columns left to right. */
    method PaintColumns() returns (painted: seq<Coord>)
      ensures painted == GridPaint(Contents(cells), cells.Length0, cells.Length1, cells.Length0)
    {
      ghost var g := Contents(cells);
      var width, height := cells.Length0, cells.Length1;
      assert WellFormed(g, width, height);
      painted := [];
      var i := 0;
      while i < width
        invariant 0 <= i <= width
        invariant painted == GridPaint(g, width, height, i)
      {
        var column := PaintColumn(i);
        assert column == ColumnPaint(g[i], i, height);
        assert GridPaint(g, width, height, i + 1) == GridPaint(g, width, height, i) + column;
        painted := painted + column;
        i := i + 1;
      }
    }

    /** The inner loop of the hold branch: paints the live cells of column
        `i`, row by row. */
    method PaintColumn(i: int) returns (painted: seq<Coord>)
      requires 0 <= i < cells.Length0
      ensures painted == ColumnPaint(Contents(cells)[i], i, cells.Length1)
    {
      ghost var column := Contents(cells)[i];
      var height := cells.Length1;
      painted := [];
      var j := 0;
      while j < height
        invariant 0 <= j <= height
        invariant painted == ColumnPaint(column, i, j)
      {
        var state := cells[i, j];
        assert state == column[j];
        painted := painted + OnCellDetected(i, j, state);
        j := j + 1;
      }
    }

    /** The run branch of a frame: the automaton library replaces every cell
        by its next state, computed from the generation before the step. */
    method PaintCellsAndEvolve(next: (Cells, int, int) -> int)
      requires Valid()
      modifies cells
      ensures Contents(cells) == Tabulate(cells.Length0, cells.Length1, (i, j) => next(old(Contents(cells)), i, j))
    {
      var current := Contents(cells);
      var i := 0;
      while i < cells.Length0
        invariant 0 <= i <= cells.Length0
        invariant forall a, b :: 0 <= a < i && 0 <= b < cells.Length1 ==> cells[a, b] == next(current, a, b)
      {
        var j := 0;
        while j < cells.Length1
          invariant 0 <= j <= cells.Length1
          invariant forall a, b :: 0 <= a < i && 0 <= b < cells.Length1 ==> cells[a, b] == next(current, a, b)
          invariant forall b :: 0 <= b < j ==> cells[i, b] == next(current, i, b)
        {
          cells[i, j] := next(current, i, j);
          j := j + 1;
        }
        i := i + 1;
      }
      Extensionality(Contents(cells), Tabulate(cells.Length0, cells.Length1, (a, b) => next(current, a, b)),
                     cells.Length0, cells.Length1);
    }

    method DoStep(next: (Cells, int, int) -> int, reports: seq<Report>) returns (painted: seq<Coord>)
      requires Valid()
      modifies cells
      ensures Session.DoStep(old(Model()), next, reports) == Frame(Model(), painted)
    {
      if editing {
        painted := PaintCellsWithoutEvolution();
      } else {
        PaintCellsAndEvolve(next);
        painted := PaintReports(reports);
      }
    }
  }
}
