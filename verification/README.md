# MaterialLife edit-session controller, modelled in Dafny

This project models the `GameOfLife` controller of MaterialLife, an
interactive Conway's Game of Life for Android. The controller owns no rules
of its own. It keeps the automaton's grid of `int` cells (`ALIVE = 1`,
`DEAD = 0`, indexed `cells[column][row]`), an `editing` flag and at most one
backup copy of the grid. It offers these operations:

- `startEdition` pauses evolution and copies the grid into a new backup. A
  second call while already paused does nothing.
- `endEdition` resumes evolution and keeps the backup.
- `restoreLastWorld` copies the backup back over the grid.
- `clear` sets every cell DEAD.
- `loadWorldFrom` overwrites every cell from an image sampler.
- `onPointDetected` maps one pointer position to a cell and marks that cell
  ALIVE when it lies on the grid.
- `doStep` either holds the grid and paints its live cells (while editing) or
  hands the grid to the automaton library to evolve (while running).

The model has two layers.

- A value layer. `Grid` holds the cells as `seq<seq<int>>`. `PointerMapping`
  turns pixels into cell indices. `Painting` describes what a frame paints.
  `Session` holds the controller state as a `World` datatype and has one pure
  function per operation, with lemmas relating the operations.
- A heap layer. `Controller.GameOfLife` is a class over an `array2<int>` grid
  whose loops mirror the source. Each public method is proved to act on its
  abstract value `Model()` exactly as the matching `Session` function does.
  The private helpers have their own contracts: `DoCellsBackup` makes a
  newly allocated copy, distinct from the grid. The hold branch's double loop
  is written as an outer loop `PaintColumns` over columns that calls an inner
  loop `PaintColumn` over rows; together they paint the live cells.
  `PaintCellsAndEvolve` applies the library's next state.

Surface coordinates are floats in the source. Here they are exact `real`s.
The cell size comes from a resource lookup in the source. Here it is a
parameter `cellSize` of subset type `CellSize` (positive integers).

The evolution rule belongs to an external library. A running frame is
therefore modelled with two parameters. The first is `next`, an arbitrary
function giving each cell's next state from the current grid; any
shape-preserving transformation of the grid has this form. The second is
`reports`, the arbitrary cell callbacks the library makes.

In these places the model follows the code, which may not be what a reader
expects:

- Cell indices use Java's `(int)` cast, which truncates toward zero, not
  floor division. A point less than one cell size left of or above the grid
  therefore lands in column or row 0 (`NearNegativeEdgeMapsToZero`).
- `restoreLastWorld` with no backup dereferences `null`. It has no defined
  error result, so "a backup exists" is a precondition. While editing it
  always holds: `startEdition` sets the flag and takes the backup together,
  and nothing clears the backup, so both `Valid` predicates require a backup
  whenever `editing` is set.
- `onPointDetected` writes cells whether or not the controller is editing.
- A restore does not consume the backup. Only the next `startEdition` from
  running mode replaces it.

## Model

| member | source | states |
|---|---|---|
| Session.Init | material-life-android/src/main/java/com/juankysoriano/materiallife/world/life/GameOfLife.java:20-40 | A new controller is running, holds no backup and wraps the automaton's grid unchanged. |
| Session.StartEdition | material-life-android/src/main/java/com/juankysoriano/materiallife/world/life/GameOfLife.java:113-127 | From running: editing becomes true, the grid is untouched, and the backup equals the grid cell for cell. While editing: the whole state is unchanged, so the backup is not re-captured. |
| Session.EndEdition | material-life-android/src/main/java/com/juankysoriano/materiallife/world/life/GameOfLife.java:129-131 | Editing becomes false. The grid and the backup are unchanged. |
| Session.RestoreLastWorld | material-life-android/src/main/java/com/juankysoriano/materiallife/world/life/GameOfLife.java:143-147 | Requires a backup. Afterwards the grid equals the backup. The editing flag, the backup and the dimensions are unchanged. |
| Session.Clear | material-life-android/src/main/java/com/juankysoriano/materiallife/world/life/GameOfLife.java:133-141 | Every in-bounds cell is DEAD. The dimensions, the editing flag and the backup are unchanged. |
| Session.LoadWorldFrom | material-life-android/src/main/java/com/juankysoriano/materiallife/world/life/GameOfLife.java:149-155 | Every in-bounds cell (i, j) holds the sampler's value for (i, j). The dimensions, the editing flag and the backup are unchanged. |
| Session.OnPointDetected | material-life-android/src/main/java/com/juankysoriano/materiallife/world/life/GameOfLife.java:98-106 | If the cell under (x, y) is in bounds, that cell becomes ALIVE and every other cell keeps its state. Otherwise the state is unchanged. The result does not depend on px, py or the editing flag. |
| Session.DoStep | material-life-android/src/main/java/com/juankysoriano/materiallife/world/life/GameOfLife.java:42-68 | While editing: the state is unchanged, and the painted sequence is exactly the live cells, strictly in column-major order. While running: each cell becomes the library's next state for it, and the painted sequence is the reported cells whose state is ALIVE, in callback order. |
| Session.Apply | material-life-android/src/main/java/com/juankysoriano/materiallife/world/life/GameOfLife.java:42-155 | From a state that holds a backup, each operation other than startEdition keeps the grid's shape and leaves the backup as it was. |
| Session.Run | material-life-android/src/main/java/com/juankysoriano/materiallife/world/life/GameOfLife.java:42-155 | From a state that holds a backup, any sequence of operations without a startEdition keeps the shape and leaves the backup as it was. |
| Session.StartEditionIdempotent | material-life-android/src/main/java/com/juankysoriano/materiallife/world/life/GameOfLife.java:113-118 | Calling startEdition twice in a row is the same as calling it once. |
| Session.RestoreRoundTrip | material-life-android/src/main/java/com/juankysoriano/materiallife/world/life/GameOfLife.java:113-147 | Start editing from running mode, do any operations without a new start, then restore: the grid is exactly the grid from before editing started. |
| Session.RestoreIgnoresRepeatedStart | material-life-android/src/main/java/com/juankysoriano/materiallife/world/life/GameOfLife.java:113-147 | A further startEdition while still editing does not move the restore point. A later restore still returns the grid from before the first start. |
| Session.PointsCommute | material-life-android/src/main/java/com/juankysoriano/materiallife/world/life/GameOfLife.java:98-106 | Two pointer points give the same grid in either order. |
| Session.PointIdempotent | material-life-android/src/main/java/com/juankysoriano/materiallife/world/life/GameOfLife.java:98-106 | Touching the same point twice gives the same state as touching it once. |
| Session.ClearedHeldFramePaintsNothing | material-life-android/src/main/java/com/juankysoriano/materiallife/world/life/GameOfLife.java:133-141 | After a clear, a frame taken while editing paints no cell. |
| Session.ClearErasesEdits | material-life-android/src/main/java/com/juankysoriano/materiallife/world/life/GameOfLife.java:133-141 | From a state that holds a backup, after any sequence of operations without a new start, a clear gives the same all-DEAD grid as a clear right away: nothing drawn, loaded or evolved survives it. |
| Session.ClearForgetsGrid | material-life-android/src/main/java/com/juankysoriano/materiallife/world/life/GameOfLife.java:133-141 | Any two states of the same automaton, whether or not they hold a backup, clear to the same all-DEAD grid: the result of a clear does not depend on the grid it starts from. |
| Session.RestoreWhileEditing | material-life-android/src/main/java/com/juankysoriano/materiallife/world/life/GameOfLife.java:113-147 | In every valid state that is editing, a backup exists. A restore is therefore defined there: it returns the grid to the backup and stays in edit mode. |
| PointerMapping.Trunc | material-life-android/src/main/java/com/juankysoriano/materiallife/world/life/GameOfLife.java:99-100 | Java's (int) cast of a float: the result is the integer next to the value on the side toward zero. |
| PointerMapping.TruncDiv | material-life-android/src/main/java/com/juankysoriano/materiallife/world/life/GameOfLife.java:99-100 | The value (int)(x / CELL_SIZE) takes when x is a whole pixel: for x >= 0 the quotient q has q*size <= x < (q+1)*size, and for x < 0 it has (q-1)*size < x <= q*size, so it rounds toward zero. |
| PointerMapping.CellIndex | material-life-android/src/main/java/com/juankysoriano/materiallife/world/life/GameOfLife.java:99-100 | A coordinate x >= 0 lies in [c*size, (c+1)*size). A coordinate x < 0 lies in ((c-1)*size, c*size]. |
| PointerMapping.CellIndexOfPixel | material-life-android/src/main/java/com/juankysoriano/materiallife/world/life/GameOfLife.java:89-100 | Truncating the float coordinate to whole pixels before dividing by the cell size gives the same cell as dividing the float and then truncating. |
| PointerMapping.NearNegativeEdgeMapsToZero | material-life-android/src/main/java/com/juankysoriano/materiallife/world/life/GameOfLife.java:99-103 | A coordinate within one cell size before the grid's edge maps to index 0, which passes the bounds test of a non-empty grid. Floor division would give -1 there. |
| Painting.OnCellDetected | material-life-android/src/main/java/com/juankysoriano/materiallife/world/life/GameOfLife.java:63-72 | A cell is painted exactly when its state equals ALIVE, once at most; values other than ALIVE, including ones other than 0 and 1, are not painted. |
| Painting.ColumnPaintSpec | material-life-android/src/main/java/com/juankysoriano/materiallife/world/life/GameOfLife.java:53-68 | The inner loop paints exactly the live rows of its column, in increasing row order. |
| Painting.GridPaintSpec | material-life-android/src/main/java/com/juankysoriano/materiallife/world/life/GameOfLife.java:51-68 | The double loop paints exactly the live cells of the grid, each once, in column-major order. |
| Painting.PaintReportsSpec | material-life-android/src/main/java/com/juankysoriano/materiallife/world/life/GameOfLife.java:59-72 | The library's callbacks paint exactly the reported coordinates whose state is ALIVE, and at most one cell per callback. |
| Painting.DeadGridPaintsNothing | material-life-android/src/main/java/com/juankysoriano/materiallife/world/life/GameOfLife.java:51-72 | A grid in which every cell is DEAD paints nothing. |
| Controller.GameOfLife.constructor | material-life-android/src/main/java/com/juankysoriano/materiallife/world/life/GameOfLife.java:36-40 | The new controller wraps the automaton's grid array itself, is running and has no backup; its abstract value is Session.Init of that grid. |
| Controller.GameOfLife.StartEdition | material-life-android/src/main/java/com/juankysoriano/materiallife/world/life/GameOfLife.java:113-118 | On the heap grid it does what Session.StartEdition does. From running mode the backup is newly allocated. While editing the backup array is the same one. |
| Controller.GameOfLife.DoCellsBackup | material-life-android/src/main/java/com/juankysoriano/materiallife/world/life/GameOfLife.java:120-127 | The backup is a newly allocated array, distinct from the grid, with the grid's shape and contents. |
| Controller.GameOfLife.EndEdition | material-life-android/src/main/java/com/juankysoriano/materiallife/world/life/GameOfLife.java:129-131 | Acts as Session.EndEdition and keeps the same grid and backup arrays. |
| Controller.GameOfLife.Clear | material-life-android/src/main/java/com/juankysoriano/materiallife/world/life/GameOfLife.java:133-141 | The in-place double loop acts as Session.Clear. Writing the grid leaves the backup intact. |
| Controller.GameOfLife.RestoreLastWorld | material-life-android/src/main/java/com/juankysoriano/materiallife/world/life/GameOfLife.java:143-147 | The column-by-column copy acts as Session.RestoreLastWorld. It may be called whenever the controller is editing, because editing always has a backup. |
| Controller.GameOfLife.LoadWorldFrom | material-life-android/src/main/java/com/juankysoriano/materiallife/world/life/GameOfLife.java:149-155 | The in-place double loop acts as Session.LoadWorldFrom. |
| Controller.GameOfLife.OnPointDetected | material-life-android/src/main/java/com/juankysoriano/materiallife/world/life/GameOfLife.java:98-106 | The single guarded array write acts as Session.OnPointDetected. |
| Controller.GameOfLife.PaintCellsWithoutEvolution | material-life-android/src/main/java/com/juankysoriano/materiallife/world/life/GameOfLife.java:51-57 | The double loop paints exactly the live cells of the array, in column-major order, without writing it. |
| Controller.GameOfLife.PaintColumns | material-life-android/src/main/java/com/juankysoriano/materiallife/world/life/GameOfLife.java:52-56 | The outer loop paints, column after column, what the double loop's reference definition GridPaint gives for the whole array. |
| Controller.GameOfLife.PaintColumn | material-life-android/src/main/java/com/juankysoriano/materiallife/world/life/GameOfLife.java:53-55 | The inner loop paints what the reference definition ColumnPaint gives for its column of the array. |
| Controller.GameOfLife.PaintCellsAndEvolve | material-life-android/src/main/java/com/juankysoriano/materiallife/world/life/GameOfLife.java:59-61 | Every cell becomes the library's next state for it, computed from the generation before the step. |
| Controller.GameOfLife.DoStep | material-life-android/src/main/java/com/juankysoriano/materiallife/world/life/GameOfLife.java:42-49 | The new state and the painted cells are those Session.DoStep gives. |

## Left out

- The evolution rule is left out. `AutomataDiscrete2D.evolve` and `GameOfLifeCreator.createGameOfLife` belong to an external library that is not part of this model. A running frame takes the next generation and the library's callbacks as arbitrary parameters, and no birth, survival or edge behaviour is stated.
- Line rasterization is left out. `RainbowDrawer.exploreLine` is a foreign call. Only the per-point handler `onPointDetected` is modelled.
- `onFingerDragged` is left out apart from its integer truncation of the pointer coordinates. That truncation is `TruncDiv`'s context, and `CellIndexOfPixel` shows it does not change the cell.
- Drawing is left out: `paintBackground`, `clearBackground`, `paintCellAt` and `getCellStateFrom`. Painting is the returned sequence of painted coordinates. The image sampler is a function parameter.
- Android `MotionEvent` plumbing is left out. This covers `onSketchTouched`, the no-op `onSketchReleased` and `onMotionEvent`, listener registration and `newInstance`.
- The `CELL_SIZE` resource lookup is left out. The cell size is a positive parameter.
- Float arithmetic is left out. Coordinates are exact reals, so float rounding of `x / CELL_SIZE` is not modelled. The `(int)` cast's saturation at the `int` range and its mapping of NaN to 0 are not modelled either.
- Errors from the image sampler are left out. They would abort `loadWorldFrom` part-way, and the sampler here is total.
- The grid array is fixed here. The source re-reads `gameOfLife.getCells()` on every access; the model assumes the library returns the same live grid array each time, not a copy.
- The grid is rectangular here. Java's `int[][]` could be jagged, or could share row arrays. The model assumes the automaton library creates it as a full `width x height` array; that library is not part of this model.
