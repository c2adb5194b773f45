/** The edit-session controller as a value: the live grid, the `editing`
    flag, and at most one backup copy of the grid. Every operation of the
    controller is a function from the state before to the state after. */
module Session {
  import opened Grid
  import opened PointerMapping
  import opened Painting

  datatype Option<T> = None | Some(value: T)

  /** The controller state. `width` and `height` are the automaton's
      dimensions; they never change. */
  datatype World = World(cells: Cells, width: nat, height: nat, editing: bool, backup: Option<Cells>)

  /** The live grid has the automaton's shape, and so does the backup when
      there is one. Editing always has a backup: entering edit mode takes
      one, and nothing ever discards it. */
  predicate Valid(s: World)
  {
    && WellFormed(s.cells, s.width, s.height)
    && (s.backup.Some? ==> WellFormed(s.backup.value, s.width, s.height))
    && (s.editing ==> s.backup.Some?)
  }

  /** Same automaton: same dimensions. */
  predicate SameShape(s: World, r: World)
  {
    r.width == s.width && r.height == s.height
  }

  /** A freshly constructed controller: running, no backup. */
  function Init(cells: Cells, width: nat, height: nat): (s: World)
    requires WellFormed(cells, width, height)
    ensures Valid(s) && !s.editing && s.backup.None?
    ensures s.cells == cells && s.width == width && s.height == height
  {
    World(cells, width, height, false, None)
  }

  /** Pauses evolution. Entering edit mode takes a copy of the live grid;
      calling it again while already editing changes nothing, so the copy
      keeps the grid as it was before the first call. */
  function StartEdition(s: World): (r: World)
    requires Valid(s)
    ensures Valid(r) && SameShape(s, r)
    ensures r.editing && r.cells == s.cells
    ensures !s.editing ==> r.backup == Some(s.cells)
    ensures s.editing ==> r == s
  {
    if !s.editing then s.(editing := true, backup := Some(s.cells)) else s
  }

  /** Resumes evolution. The grid and the backup are left alone, so a later
      restore still returns to the grid as it was when editing started. */
  function EndEdition(s: World): (r: World)
    requires Valid(s)
    ensures Valid(r) && SameShape(s, r)
    ensures !r.editing
    ensures r.cells == s.cells && r.backup == s.backup
  {
    s.(editing := false)
  }

  /** Copies the backup over the live grid, in any mode. The source
      dereferences the backup unconditionally, so one must exist. */
  function RestoreLastWorld(s: World): (r: World)
    requires Valid(s) && s.backup.Some?
    ensures Valid(r) && SameShape(s, r)
    ensures r.cells == s.backup.value
    ensures r.editing == s.editing && r.backup == s.backup
  {
    s.(cells := s.backup.value)
  }

  /** Sets every cell DEAD; nothing else changes. */
  function Clear(s: World): (r: World)
    requires Valid(s)
    ensures Valid(r) && SameShape(s, r)
    ensures forall i, j :: InBounds(s.width, s.height, i, j) ==> r.cells[i][j] == DEAD
    ensures r.editing == s.editing && r.backup == s.backup
  {
    s.(cells := Tabulate(s.width, s.height, (i, j) => DEAD))
  }

  /** Seeds the grid from an image: every cell `(i, j)` gets the state the
      image sampler gives for `(i, j)`; nothing else changes. */
  function LoadWorldFrom(s: World, sampler: (int, int) -> int): (r: World)
    requires Valid(s)
    ensures Valid(r) && SameShape(s, r)
    ensures forall i, j :: InBounds(s.width, s.height, i, j) ==> r.cells[i][j] == sampler(i, j)
    ensures r.editing == s.editing && r.backup == s.backup
  {
    s.(cells := Tabulate(s.width, s.height, sampler))
  }

  /** One point of a pointer drag at surface position `(x, y)`; the previous
      position `(px, py)` is not used. The cell under the point becomes ALIVE
      when it lies on the grid and nothing else changes; a point off the grid
      changes nothing. The editing flag is not consulted. */
  function OnPointDetected(s: World, px: real, py: real, x: real, y: real, cellSize: CellSize): (r: World)
    requires Valid(s)
    ensures Valid(r) && SameShape(s, r)
    ensures r.editing == s.editing && r.backup == s.backup
    ensures var cx, cy := CellIndex(x, cellSize), CellIndex(y, cellSize);
      && (InBounds(s.width, s.height, cx, cy) ==>
            && r.cells[cx][cy] == ALIVE
            && forall i, j :: InBounds(s.width, s.height, i, j) && (i != cx || j != cy) ==> r.cells[i][j] == s.cells[i][j])
      && (!InBounds(s.width, s.height, cx, cy) ==> r == s)
  {
    var cx := CellIndex(x, cellSize);
    var cy := CellIndex(y, cellSize);
    if InBounds(s.width, s.height, cx, cy) then
      s.(cells := Set(s.cells, s.width, s.height, cx, cy, ALIVE))
    else
      s
  }

  /** What one frame leaves behind: the new state and the cells painted, in
      painting order. */
  datatype Frame = Frame(world: World, painted: seq<Coord>)

  /** One frame. While editing the grid is held: nothing changes and every
      live cell is painted once, in column-major order. While running the
      grid is handed to the automaton library, which is opaque here: its next
      generation is any function `next` of the current grid, and it reports
      cells back through callbacks `reports`, of which the live ones are
      painted. */
  function DoStep(s: World, next: (Cells, int, int) -> int, reports: seq<Report>): (r: Frame)
    requires Valid(s)
    ensures Valid(r.world) && SameShape(s, r.world)
    ensures r.world.editing == s.editing && r.world.backup == s.backup
    ensures s.editing ==> r.world == s
    ensures s.editing ==> forall p :: p in r.painted <==> InBounds(s.width, s.height, p.0, p.1) && s.cells[p.0][p.1] == ALIVE
    ensures s.editing ==> ColumnMajor(r.painted)
    ensures !s.editing ==> forall i, j :: InBounds(s.width, s.height, i, j) ==> r.world.cells[i][j] == next(s.cells, i, j)
    ensures !s.editing ==> r.painted == PaintReports(reports)
    ensures !s.editing ==> forall p :: p in r.painted <==>
      exists k :: 0 <= k < |reports| && reports[k].state == ALIVE && p == (reports[k].x, reports[k].y)
  {
    if s.editing then
      GridPaintSpec(s.cells, s.width, s.height, s.width);
      Frame(s, GridPaint(s.cells, s.width, s.height, s.width))
    else
      var current := s.cells;
      PaintReportsSpec(reports);
      Frame(s.(cells := Tabulate(s.width, s.height, (i, j) => next(current, i, j))), PaintReports(reports))
  }

  /** The operations that never take a new backup: everything except
      starting an edit from running mode. */
  datatype Action =
    | PointAt(px: real, py: real, x: real, y: real)
    | ClearAll
    | LoadImage(sampler: (int, int) -> int)
    | Tick(next: (Cells, int, int) -> int, reports: seq<Report>)
    | Leave
    | Restore

  function Apply(s: World, a: Action, cellSize: CellSize): (r: World)
    requires Valid(s) && s.backup.Some?
    ensures Valid(r) && SameShape(s, r) && r.backup == s.backup
  {
    match a
    case PointAt(px, py, x, y) => OnPointDetected(s, px, py, x, y, cellSize)
    case ClearAll => Clear(s)
    case LoadImage(sampler) => LoadWorldFrom(s, sampler)
    case Tick(next, reports) => DoStep(s, next, reports).world
    case Leave => EndEdition(s)
    case Restore => RestoreLastWorld(s)
  }

  /** Runs a sequence of actions; none of them touches the backup. */
  function Run(s: World, actions: seq<Action>, cellSize: CellSize): (r: World)
    requires Valid(s) && s.backup.Some?
    ensures Valid(r) && SameShape(s, r) && r.backup == s.backup
    decreases |actions|
  {
    if |actions| == 0 then s else Run(Apply(s, actions[0], cellSize), actions[1..], cellSize)
  }

  /** Starting an edit twice in a row is the same as starting it once. */
  lemma StartEditionIdempotent(s: World)
    requires Valid(s)
    ensures StartEdition(StartEdition(s)) == StartEdition(s)
  {
  }

  /** The restore round trip: start editing from running mode, do anything
      that does not start a new edit (paint, clear, load, step, stop
      editing, even restore), then restore: the grid is back, cell for cell,
      to what it was before editing started. */
  lemma {:induction false} RestoreRoundTrip(s: World, actions: seq<Action>, cellSize: CellSize)
    requires Valid(s) && !s.editing
    ensures RestoreLastWorld(Run(StartEdition(s), actions, cellSize)).cells == s.cells
  {
  }

  /** A second start while already editing does not move the restore point:
      a restore still goes back to the grid before the first start. */
  lemma {:induction false} RestoreIgnoresRepeatedStart(s: World, before: seq<Action>, after: seq<Action>, cellSize: CellSize)
    requires Valid(s) && !s.editing
    requires Run(StartEdition(s), before, cellSize).editing
    ensures var t := StartEdition(Run(StartEdition(s), before, cellSize));
      RestoreLastWorld(Run(t, after, cellSize)).cells == s.cells
  {
  }

  /** Two pointer points commute: the order in which a drag visits cells does
      not matter to the resulting grid, and neither do the previous
      positions passed along with each point. */
  lemma {:induction false} PointsCommute(s: World, pa: real, pb: real, a: real, b: real,
                                         pc: real, pd: real, c: real, d: real,
                                         pa': real, pb': real, pc': real, pd': real, cellSize: CellSize)
    requires Valid(s)
    ensures OnPointDetected(OnPointDetected(s, pa, pb, a, b, cellSize), pc, pd, c, d, cellSize)
         == OnPointDetected(OnPointDetected(s, pc', pd', c, d, cellSize), pa', pb', a, b, cellSize)
  {
    var ab := OnPointDetected(OnPointDetected(s, pa, pb, a, b, cellSize), pc, pd, c, d, cellSize);
    var cd := OnPointDetected(OnPointDetected(s, pc', pd', c, d, cellSize), pa', pb', a, b, cellSize);
    Extensionality(ab.cells, cd.cells, s.width, s.height);
  }

  /** Touching the same point twice is the same as touching it once, whatever
      previous positions come with the two calls. */
  lemma {:induction false} PointIdempotent(s: World, px: real, py: real, px': real, py': real,
                                           x: real, y: real, cellSize: CellSize)
    requires Valid(s)
    ensures var once := OnPointDetected(s, px, py, x, y, cellSize);
      OnPointDetected(once, px', py', x, y, cellSize) == once
  {
    var once := OnPointDetected(s, px, py, x, y, cellSize);
    var twice := OnPointDetected(once, px', py', x, y, cellSize);
    Extensionality(once.cells, twice.cells, s.width, s.height);
  }

  /** After a clear, a held frame paints nothing. */
  lemma {:induction false} ClearedHeldFramePaintsNothing(s: World, next: (Cells, int, int) -> int, reports: seq<Report>)
    requires Valid(s) && s.editing
    ensures DoStep(Clear(s), next, reports).painted == []
  {
    var t := Clear(s);
    DeadGridPaintsNothing(t.cells, t.width, t.height);
  }

  /** While editing a restore is always possible, and it goes back to the
      backup. */
  lemma RestoreWhileEditing(s: World)
    requires Valid(s) && s.editing
    ensures s.backup.Some? && RestoreLastWorld(s).cells == s.backup.value
    ensures RestoreLastWorld(s).editing
  {
  }

  /** A clear forgets the grid it is given: any two states of the same
      automaton, with or without a backup, clear to the same grid. */
  lemma {:induction false} ClearForgetsGrid(s: World, t: World)
    requires Valid(s) && Valid(t) && SameShape(s, t)
    ensures Clear(s).cells == Clear(t).cells
  {
    Extensionality(Clear(s).cells, Clear(t).cells, s.width, s.height);
  }

  /** Clearing erases whatever happened to the grid since: after any
      sequence of actions that keeps the backup, a clear yields the same grid
      as a clear right away. */
  lemma {:induction false} ClearErasesEdits(s: World, actions: seq<Action>, cellSize: CellSize)
    requires Valid(s) && s.backup.Some?
    ensures Clear(Run(s, actions, cellSize)).cells == Clear(s).cells
  {
    var r := Run(s, actions, cellSize);
    Extensionality(Clear(r).cells, Clear(s).cells, s.width, s.height);
  }
}
