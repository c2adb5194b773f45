/** What a frame paints. The renderer itself is outside the model: a frame's
    output is the sequence of cell coordinates handed to the renderer's
    "paint cell at (x, y)" call, in call order. */
module Painting {
  import opened Grid

  /** A cell coordinate `(column, row)` handed to the renderer. */
  type Coord = (int, int)

  /** One per-cell callback the automaton library makes while it evolves. */
  datatype Report = Report(x: int, y: int, state: int)

  /** The cell callback: a cell is painted exactly when its state is ALIVE. */
  function OnCellDetected(x: int, y: int, state: int): (painted: seq<Coord>)
    ensures |painted| <= 1
    ensures forall p :: p in painted <==> state == ALIVE && p == (x, y)
  {
    if state == ALIVE then [(x, y)] else []
  }

  /** Column-major order: by column first, then by row. */
  predicate Before(a: Coord, b: Coord)
  {
    a.0 < b.0 || (a.0 == b.0 && a.1 < b.1)
  }

  /** Strictly increasing in column-major order (so also free of repeats). */
  predicate ColumnMajor(t: seq<Coord>)
  {
    forall k, l :: 0 <= k < l < |t| ==> Before(t[k], t[l])
  }

  /** What the inner loop paints for rows `0 .. n-1` of column `i`. */
  function ColumnPaint(column: seq<int>, i: int, n: nat): seq<Coord>
    requires n <= |column|
  {
    if n == 0 then [] else ColumnPaint(column, i, n - 1) + OnCellDetected(i, n - 1, column[n - 1])
  }

  /** What the outer loop paints for columns `0 .. m-1`. */
  function GridPaint(g: Cells, width: nat, height: nat, m: nat): seq<Coord>
    requires WellFormed(g, width, height) && m <= width
  {
    if m == 0 then [] else GridPaint(g, width, height, m - 1) + ColumnPaint(g[m - 1], m - 1, height)
  }

  /** What the callbacks of one evolution paint, in callback order. */
  function PaintReports(reports: seq<Report>): seq<Coord>
  {
    if |reports| == 0 then []
    else
      var last := reports[|reports| - 1];
      PaintReports(reports[..|reports| - 1]) + OnCellDetected(last.x, last.y, last.state)
  }

  /** A column's painting is exactly its live rows below `n`, top to bottom. */
  lemma {:induction false} ColumnPaintSpec(column: seq<int>, i: int, n: nat)
    requires n <= |column|
    ensures forall p :: p in ColumnPaint(column, i, n) <==> p.0 == i && 0 <= p.1 < n && column[p.1] == ALIVE
    ensures ColumnMajor(ColumnPaint(column, i, n))
  {
    ColumnPaintMembers(column, i, n);
    ColumnPaintOrdered(column, i, n);
  }

  /** The cells the inner loop has painted after `n` rows. */
  lemma {:induction false} ColumnPaintMembers(column: seq<int>, i: int, n: nat)
    requires n <= |column|
    ensures forall p :: p in ColumnPaint(column, i, n) <==> p.0 == i && 0 <= p.1 < n && column[p.1] == ALIVE
  {
    if n > 0 {
      ColumnPaintMembers(column, i, n - 1);
      var t := ColumnPaint(column, i, n - 1);
      var u := OnCellDetected(i, n - 1, column[n - 1]);
      assert ColumnPaint(column, i, n) == t + u;
      forall p: Coord
        ensures p in t + u <==> p.0 == i && 0 <= p.1 < n && column[p.1] == ALIVE
      {
        assert p in t + u <==> p in t || p in u;
      }
    }
  }

  /** The order in which the inner loop paints after `n` rows. */
  lemma {:induction false} ColumnPaintOrdered(column: seq<int>, i: int, n: nat)
    requires n <= |column|
    ensures ColumnMajor(ColumnPaint(column, i, n))
  {
    if n > 0 {
      ColumnPaintOrdered(column, i, n - 1);
      EarlierRowsFirst(column, i, n - 1);
      SortedConcat(ColumnPaint(column, i, n - 1), OnCellDetected(i, n - 1, column[n - 1]));
    }
  }

  /** Every cell painted in the first `n` rows of a column comes before the
      cell of row `n`, if that one is painted. */
  lemma {:induction false} EarlierRowsFirst(column: seq<int>, i: int, n: nat)
    requires n < |column|
    ensures forall a, b :: a in ColumnPaint(column, i, n) && b in OnCellDetected(i, n, column[n]) ==> Before(a, b)
  {
    ColumnPaintMembers(column, i, n);
  }

  /** The whole grid's painting is exactly its live cells in columns below
      `m`, in column-major order. */
  lemma {:induction false} GridPaintSpec(g: Cells, width: nat, height: nat, m: nat)
    requires WellFormed(g, width, height) && m <= width
    ensures forall p :: p in GridPaint(g, width, height, m) <==>
      0 <= p.0 < m && 0 <= p.1 < height && g[p.0][p.1] == ALIVE
    ensures ColumnMajor(GridPaint(g, width, height, m))
  {
    GridPaintMembers(g, width, height, m);
    GridPaintOrdered(g, width, height, m);
  }

  /** The cells the outer loop has painted after `m` columns. */
  lemma {:induction false} GridPaintMembers(g: Cells, width: nat, height: nat, m: nat)
    requires WellFormed(g, width, height) && m <= width
    ensures forall p :: p in GridPaint(g, width, height, m) <==>
      0 <= p.0 < m && 0 <= p.1 < height && g[p.0][p.1] == ALIVE
  {
    if m > 0 {
      GridPaintMembers(g, width, height, m - 1);
      ColumnPaintSpec(g[m - 1], m - 1, height);
      var t := GridPaint(g, width, height, m - 1);
      var u := ColumnPaint(g[m - 1], m - 1, height);
      assert GridPaint(g, width, height, m) == t + u;
      forall p: Coord
        ensures p in t + u <==> 0 <= p.0 < m && 0 <= p.1 < height && g[p.0][p.1] == ALIVE
      {
        assert p in t + u <==> p in t || p in u;
      }
    }
  }

  /** The order in which the outer loop paints after `m` columns. */
  lemma {:induction false} GridPaintOrdered(g: Cells, width: nat, height: nat, m: nat)
    requires WellFormed(g, width, height) && m <= width
    ensures ColumnMajor(GridPaint(g, width, height, m))
  {
    if m > 0 {
      GridPaintOrdered(g, width, height, m - 1);
      ColumnPaintOrdered(g[m - 1], m - 1, height);
      EarlierColumnsFirst(g, width, height, m - 1);
      AppendColumn(GridPaint(g, width, height, m - 1), ColumnPaint(g[m - 1], m - 1, height), m - 1);
    }
  }

  /** Every cell painted in the first `m` columns lies left of column `m`,
      and every cell painted in column `m` lies in it. */
  lemma {:induction false} EarlierColumnsFirst(g: Cells, width: nat, height: nat, m: nat)
    requires WellFormed(g, width, height) && m < width
    ensures forall k :: 0 <= k < |GridPaint(g, width, height, m)| ==> GridPaint(g, width, height, m)[k].0 < m
    ensures forall l :: 0 <= l < |ColumnPaint(g[m], m, height)| ==> ColumnPaint(g[m], m, height)[l].0 == m
  {
    GridPaintMembers(g, width, height, m);
    ColumnPaintMembers(g[m], m, height);
    var t := GridPaint(g, width, height, m);
    var u := ColumnPaint(g[m], m, height);
    assert forall k :: 0 <= k < |t| ==> t[k] in t;
    assert forall l :: 0 <= l < |u| ==> u[l] in u;
  }

  /** Appending a column-major run that lies in column `c` to one that lies
      left of it keeps column-major order. */
  lemma AppendColumn(t: seq<Coord>, u: seq<Coord>, c: int)
    requires ColumnMajor(t) && ColumnMajor(u)
    requires forall k :: 0 <= k < |t| ==> t[k].0 < c
    requires forall l :: 0 <= l < |u| ==> u[l].0 == c
    ensures ColumnMajor(t + u)
  {
    var v := t + u;
    forall k, l | 0 <= k < l < |v|
      ensures Before(v[k], v[l])
    {
      if l < |t| {
        assert v[k] == t[k] && v[l] == t[l];
      } else if k >= |t| {
        assert v[k] == u[k - |t|] && v[l] == u[l - |t|];
      } else {
        assert v[k] == t[k] && v[l] == u[l - |t|];
      }
    }
  }

  /** Two column-major runs, the first wholly before the second, concatenate
      into a column-major run. */
  lemma SortedConcat(t: seq<Coord>, u: seq<Coord>)
    requires ColumnMajor(t) && ColumnMajor(u)
    requires forall a, b :: a in t && b in u ==> Before(a, b)
    ensures ColumnMajor(t + u)
  {
    var v := t + u;
    forall k, l | 0 <= k < l < |v|
      ensures Before(v[k], v[l])
    {
      if l < |t| {
        assert v[k] == t[k] && v[l] == t[l];
      } else if k >= |t| {
        assert v[k] == u[k - |t|] && v[l] == u[l - |t|];
      } else {
        assert v[k] in t && v[l] in u;
      }
    }
  }

  /** The callbacks paint exactly the reported coordinates whose state is
      ALIVE, and no more cells than callbacks. */
  lemma {:induction false} PaintReportsSpec(reports: seq<Report>)
    ensures |PaintReports(reports)| <= |reports|
    ensures forall p :: p in PaintReports(reports) <==>
      exists k :: 0 <= k < |reports| && reports[k].state == ALIVE && p == (reports[k].x, reports[k].y)
  {
    if |reports| > 0 {
      var front := reports[..|reports| - 1];
      PaintReportsSpec(front);
      assert forall k :: 0 <= k < |front| ==> front[k] == reports[k];
    }
  }

  /** An all-DEAD grid paints nothing. */
  lemma {:induction false} DeadGridPaintsNothing(g: Cells, width: nat, height: nat)
    requires WellFormed(g, width, height)
    requires forall i, j :: InBounds(width, height, i, j) ==> g[i][j] == DEAD
    ensures GridPaint(g, width, height, width) == []
  {
    GridPaintSpec(g, width, height, width);
    var t := GridPaint(g, width, height, width);
    if t != [] {
      assert t[0] in t;
      assert InBounds(width, height, t[0].0, t[0].1);
    }
  }
}
