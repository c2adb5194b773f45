/** The cell grid of the automaton: a width x height array of integer cell
    states, indexed column first (`cells[i][j]` is column `i`, row `j`), as the
    automaton library exposes it. */
module Grid {

  /** Cell states; numerically as in the source so that image-derived values fit. */
  const ALIVE: int := 1
  const DEAD: int := 0

  /** Column-major cell states: `cells[i][j]` is the cell at column `i`, row `j`. */
  type Cells = seq<seq<int>>

  /** `g` has exactly `width` columns of exactly `height` cells each. */
  predicate WellFormed(g: Cells, width: nat, height: nat)
  {
    |g| == width && forall i :: 0 <= i < width ==> |g[i]| == height
  }

  predicate InBounds(width: nat, height: nat, i: int, j: int)
  {
    0 <= i < width && 0 <= j < height
  }

  /** The grid whose every cell `(i, j)` holds `f(i, j)`: the result of a
      double loop that writes every cell once. */
  function Tabulate(width: nat, height: nat, f: (int, int) -> int): (g: Cells)
    ensures WellFormed(g, width, height)
    ensures forall i, j :: InBounds(width, height, i, j) ==> g[i][j] == f(i, j)
  {
    seq(width, i => seq(height, j => f(i, j)))
  }

  /** The grid `g` with the single cell `(i, j)` overwritten by `v`. */
  function Set(g: Cells, width: nat, height: nat, i: int, j: int, v: int): (r: Cells)
    requires WellFormed(g, width, height)
    requires InBounds(width, height, i, j)
    ensures WellFormed(r, width, height)
    ensures r[i][j] == v
    ensures forall a, b :: InBounds(width, height, a, b) && (a != i || b != j) ==> r[a][b] == g[a][b]
  {
    g[i := g[i][j := v]]
  }

  /** Two well-formed grids of the same shape that agree on every cell are equal. */
  lemma {:induction false} Extensionality(g: Cells, h: Cells, width: nat, height: nat)
    requires WellFormed(g, width, height) && WellFormed(h, width, height)
    requires forall i, j :: InBounds(width, height, i, j) ==> g[i][j] == h[i][j]
    ensures g == h
  {
    forall i | 0 <= i < width
      ensures g[i] == h[i]
    {
      assert forall j :: 0 <= j < height ==> g[i][j] == h[i][j] by {
        forall j | 0 <= j < height
          ensures g[i][j] == h[i][j]
        {
          assert InBounds(width, height, i, j);
        }
      }
    }
  }
}
