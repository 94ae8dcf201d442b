/**
 * Time-step control of the solver: the initial condition and the first time
 * step chosen in `main` (petsc/euler2d/fdweno.c:174, 241-267), and the
 * per-step `Monitor` (lines 563-607), which decides when to save a snapshot
 * and recomputes the step from the CFL number.
 *
 * Both reduce the local stable steps `dt_local` of the owned cells to their
 * minimum.  `main` starts that minimum from 1.0e-20 where `Monitor` starts it
 * from 1.0e20; `Startup` models the former as written and
 * `StartupCorrected` the evidently intended start.
 */
module TimeStep {
  import opened Vectors
  import opened Euler
  import opened Boundary
  import opened Collective

  /** Initial value of `dtlocal` in `main` (line 174). */
  const MainDtStart: real := 1.0e-20
  /** Initial value of `dtlocal` in `Monitor` (line 592). */
  const MonitorDtStart: real := 1.0e20
  /** Distance to the final time below which `Monitor` deems it reached (lines 577, 583). */
  const FinalTolerance: real := 1.0e-13

  datatype Option<T> = None | Some(value: T)

  /** Every cell of `g` has a finite positive local time step. */
  predicate Physical(gamma: real, root: real -> real, g: Grid, dx: real, dy: real)
  {
    forall j, i {:trigger DtDefined(gamma, root, g[j][i], dx, dy)} ::
      0 <= j < |g| && 0 <= i < |g[j]| ==> DtDefined(gamma, root, g[j][i], dx, dy)
  }

  /** `dt_local` of every cell of a row. */
  function DtRow(gamma: real, root: real -> real, r: seq<Vec4>, dx: real, dy: real): (d: seq<real>)
    requires forall i {:trigger DtDefined(gamma, root, r[i], dx, dy)} ::
               0 <= i < |r| ==> DtDefined(gamma, root, r[i], dx, dy)
    ensures |d| == |r|
  {
    if r == [] then []
    else DtRow(gamma, root, r[..|r| - 1], dx, dy) + [DtLocal(gamma, root, r[|r| - 1], dx, dy)]
  }

  /** `dt_local` of every cell. */
  function DtGrid(gamma: real, root: real -> real, g: Grid, dx: real, dy: real): (d: seq<seq<real>>)
    requires Physical(gamma, root, g, dx, dy)
    ensures |d| == |g| && forall j :: 0 <= j < |g| ==> |d[j]| == |g[j]|
  {
    if g == [] then []
    else DtGrid(gamma, root, g[..|g| - 1], dx, dy) + [DtRow(gamma, root, g[|g| - 1], dx, dy)]
  }

  lemma {:induction false} DtRowCell(gamma: real, root: real -> real, r: seq<Vec4>, dx: real, dy: real, i: int)
    requires forall i {:trigger DtDefined(gamma, root, r[i], dx, dy)} ::
               0 <= i < |r| ==> DtDefined(gamma, root, r[i], dx, dy)
    requires 0 <= i < |r|
    ensures DtRow(gamma, root, r, dx, dy)[i] == DtLocal(gamma, root, r[i], dx, dy)
  {
    if i < |r| - 1 {
      DtRowCell(gamma, root, r[..|r| - 1], dx, dy, i);
    }
  }

  /** Entry `(j, i)` of `DtGrid` is `dt_local` of cell `(j, i)`, which is positive. */
  lemma {:induction false} DtGridCell(gamma: real, root: real -> real, g: Grid, dx: real, dy: real, j: int, i: int)
    requires Physical(gamma, root, g, dx, dy) && 0 <= j < |g| && 0 <= i < |g[j]|
    ensures DtGrid(gamma, root, g, dx, dy)[j][i] == DtLocal(gamma, root, g[j][i], dx, dy)
    ensures DtGrid(gamma, root, g, dx, dy)[j][i] > 0.0
  {
    if j < |g| - 1 {
      DtGridCell(gamma, root, g[..|g| - 1], dx, dy, j, i);
    } else {
      DtRowCell(gamma, root, g[j], dx, dy, i);
    }
  }

  /**
   * `PetscMin` folded over the entries of `d` in the order of the loops, row
   * by row and left to right, starting from `start` and stopping before row
   * `j`, column `i`.
   */
  function MinUpTo(start: real, d: seq<seq<real>>, j: int, i: int): real
    requires 0 <= j <= |d| && 0 <= i && (j < |d| ==> i <= |d[j]|) && (j == |d| ==> i == 0)
    decreases j, i
  {
    if i == 0 then (if j == 0 then start else MinUpTo(start, d, j - 1, |d[j - 1]|))
    else Min(MinUpTo(start, d, j, i - 1), d[j][i - 1])
  }

  /** Entry `(jj, ii)` comes before `(j, i)` in row-major order. */
  predicate Before(jj: int, ii: int, j: int, i: int)
  {
    jj < j || (jj == j && ii < i)
  }

  /** The partial fold is a lower bound of `start` and of the entries visited, and is one of them. */
  lemma {:induction false} MinUpToBounds(start: real, d: seq<seq<real>>, j: int, i: int)
    requires 0 <= j <= |d| && 0 <= i && (j < |d| ==> i <= |d[j]|) && (j == |d| ==> i == 0)
    ensures MinUpTo(start, d, j, i) <= start
    ensures forall jj, ii :: 0 <= jj < |d| && 0 <= ii < |d[jj]| && Before(jj, ii, j, i) ==>
              MinUpTo(start, d, j, i) <= d[jj][ii]
    ensures MinUpTo(start, d, j, i) == start ||
            exists jj, ii :: 0 <= jj < |d| && 0 <= ii < |d[jj]| && Before(jj, ii, j, i) &&
                             MinUpTo(start, d, j, i) == d[jj][ii]
    decreases j, i
  {
    if i == 0 {
      if j > 0 {
        MinUpToBounds(start, d, j - 1, |d[j - 1]|);
      }
    } else {
      MinUpToBounds(start, d, j, i - 1);
    }
  }

  /**
   * The fold over all of `d`: a lower bound of `start` and of every entry
   * that is one of them.
   */
  function GridMin(start: real, d: seq<seq<real>>): (m: real)
    ensures m <= start
    ensures forall j, i :: 0 <= j < |d| && 0 <= i < |d[j]| ==> m <= d[j][i]
    ensures m == start || exists j, i :: 0 <= j < |d| && 0 <= i < |d[j]| && m == d[j][i]
  {
    MinUpToBounds(start, d, |d|, 0);
    MinUpTo(start, d, |d|, 0)
  }

  /** Centre of cell `i` of a uniform grid starting at `lo` with spacing `h` (lines 244-245). */
  function CellCenter(lo: real, i: int, h: real): real
  {
    lo + i as real * h + 0.5 * h
  }

  /** The conserved initial state of owned cell `(j, c)`: `prim2con` of `initcond` at its centre. */
  function InitialCon(gamma: real, init: (real, real) -> Vec4, t: Tile, xmin: real, ymin: real, dx: real, dy: real,
                      j: int, c: int): Vec4
    requires gamma != 1.0
  {
    Prim2Con(gamma, InitialPrim(init, t, xmin, ymin, dx, dy, j, c))
  }

  /** The first `n` cells of row `j` of `InitialGrid`. */
  function InitialCells(gamma: real, init: (real, real) -> Vec4, t: Tile,
                        xmin: real, ymin: real, dx: real, dy: real, j: int, n: nat): (r: seq<Vec4>)
    requires gamma != 1.0
    ensures |r| == n
  {
    if n == 0 then []
    else InitialCells(gamma, init, t, xmin, ymin, dx, dy, j, n - 1) + [InitialCon(gamma, init, t, xmin, ymin, dx, dy, j, n - 1)]
  }

  /** The first `n` rows of `InitialGrid`. */
  function InitialRows(gamma: real, init: (real, real) -> Vec4, t: Tile,
                       xmin: real, ymin: real, dx: real, dy: real, n: nat): (g: Grid)
    requires gamma != 1.0 && t.nlocx >= 0
    ensures Shaped(g, n, t.nlocx)
  {
    if n == 0 then []
    else InitialRows(gamma, init, t, xmin, ymin, dx, dy, n - 1) + [InitialCells(gamma, init, t, xmin, ymin, dx, dy, n - 1, t.nlocx)]
  }

  /**
   * The conserved state `prim2con(initcond(x, y))` of every owned cell of the
   * tile at its centre; row `j`, column `c` is global cell
   * `(jbeg + j, ibeg + c)`.
   */
  function InitialGrid(gamma: real, init: (real, real) -> Vec4, t: Tile,
                       xmin: real, ymin: real, dx: real, dy: real): (g: Grid)
    requires gamma != 1.0 && t.nlocx >= 0 && t.nlocy >= 0
    ensures Shaped(g, t.nlocy, t.nlocx)
    ensures forall j, c {:trigger InitialCon(gamma, init, t, xmin, ymin, dx, dy, j, c)} ::
              0 <= j < t.nlocy && 0 <= c < t.nlocx ==> g[j][c] == InitialCon(gamma, init, t, xmin, ymin, dx, dy, j, c)
  {
    var g := InitialRows(gamma, init, t, xmin, ymin, dx, dy, t.nlocy);
    forall j, c | 0 <= j < t.nlocy && 0 <= c < t.nlocx
      ensures g[j][c] == InitialCon(gamma, init, t, xmin, ymin, dx, dy, j, c)
    {
      InitialRowsCell(gamma, init, t, xmin, ymin, dx, dy, t.nlocy, j, c);
    }
    g
  }

  lemma {:induction false} InitialCellsCell(gamma: real, init: (real, real) -> Vec4, t: Tile,
                                            xmin: real, ymin: real, dx: real, dy: real, j: int, n: nat, c: int)
    requires gamma != 1.0 && 0 <= c < n
    ensures InitialCells(gamma, init, t, xmin, ymin, dx, dy, j, n)[c] == InitialCon(gamma, init, t, xmin, ymin, dx, dy, j, c)
  {
    if c < n - 1 {
      InitialCellsCell(gamma, init, t, xmin, ymin, dx, dy, j, n - 1, c);
    }
  }

  lemma {:induction false} InitialRowsCell(gamma: real, init: (real, real) -> Vec4, t: Tile,
                                           xmin: real, ymin: real, dx: real, dy: real, n: nat, j: int, c: int)
    requires gamma != 1.0 && 0 <= j < n && 0 <= c < t.nlocx
    ensures InitialRows(gamma, init, t, xmin, ymin, dx, dy, n)[j][c] == InitialCon(gamma, init, t, xmin, ymin, dx, dy, j, c)
  {
    if j < n - 1 {
      InitialRowsCell(gamma, init, t, xmin, ymin, dx, dy, n - 1, j, c);
    } else {
      InitialCellsCell(gamma, init, t, xmin, ymin, dx, dy, j, t.nlocx, c);
    }
  }

  /**
   * Every owned cell holds the initial state at its centre: converted back to
   * primitive variables it is `initcond(x, y)`, wherever the density is not zero.
   */
  lemma InitialGridHoldsInit(gamma: real, init: (real, real) -> Vec4, t: Tile,
                             xmin: real, ymin: real, dx: real, dy: real, j: int, c: int)
    requires gamma != 1.0 && 0 <= j < t.nlocy && 0 <= c < t.nlocx
    requires InitialPrim(init, t, xmin, ymin, dx, dy, j, c).c0 != 0.0
    ensures var g := InitialGrid(gamma, init, t, xmin, ymin, dx, dy);
            g[j][c].c0 != 0.0 &&
            Con2Prim(gamma, g[j][c]) == init(CellCenter(xmin, t.ibeg + c, dx), CellCenter(ymin, t.jbeg + j, dy))
  {
    assert InitialGrid(gamma, init, t, xmin, ymin, dx, dy)[j][c] == InitialCon(gamma, init, t, xmin, ymin, dx, dy, j, c);
    PrimitiveRoundTrip(gamma, InitialPrim(init, t, xmin, ymin, dx, dy, j, c));
  }

  /** `initcond` at the centre of owned cell `(jbeg + j, ibeg + c)`. */
  function InitialPrim(init: (real, real) -> Vec4, t: Tile, xmin: real, ymin: real, dx: real, dy: real,
                       j: int, c: int): Vec4
  {
    init(CellCenter(xmin, t.ibeg + c, dx), CellCenter(ymin, t.jbeg + j, dy))
  }

  /**
   * The body of the loop at lines 242-249 for owned cell `(j, i)`: the
   * conserved initial state at the cell's centre and its `dt_local`.
   */
  method InitialCell(t: Tile, gamma: real, root: real -> real, init: (real, real) -> Vec4,
                     xmin: real, ymin: real, dx: real, dy: real, j: int, i: int,
                     ghost g: Grid, ghost d: seq<seq<real>>)
    returns (con: Vec4, step: real)
    requires gamma != 1.0 && 0 <= j < t.nlocy && 0 <= i < t.nlocx
    requires g == InitialGrid(gamma, init, t, xmin, ymin, dx, dy)
    requires Physical(gamma, root, g, dx, dy) && d == DtGrid(gamma, root, g, dx, dy)
    ensures con == g[j][i] && step == d[j][i]
  {
    var x := CellCenter(xmin, t.ibeg + i, dx);
    var y := CellCenter(ymin, t.jbeg + j, dy);
    con := Prim2Con(gamma, init(x, y));
    assert con == InitialCon(gamma, init, t, xmin, ymin, dx, dy, j, i);
    DtGridCell(gamma, root, g, dx, dy, j, i);
    step := DtLocal(gamma, root, con, dx, dy);
  }

  /**
   * One pass of the outer loop at lines 241-250: row `j` of `u` is set to
   * row `j` of the initial grid `g` and its local steps, row `j` of `d`, are
   * folded into `acc`, the minimum over the rows before it.
   */
  method InitialRow(u: array2<Vec4>, t: Tile, gamma: real, root: real -> real, init: (real, real) -> Vec4,
                    xmin: real, ymin: real, dx: real, dy: real, start: real, j: int, acc: real,
                    ghost g: Grid, ghost d: seq<seq<real>>)
    returns (dtlocal: real)
    requires u.Length0 == t.nlocy && u.Length1 == t.nlocx && gamma != 1.0 && 0 <= j < t.nlocy
    requires g == InitialGrid(gamma, init, t, xmin, ymin, dx, dy)
    requires Physical(gamma, root, g, dx, dy) && d == DtGrid(gamma, root, g, dx, dy)
    requires acc == MinUpTo(start, d, j, 0)
    modifies u
    ensures forall i :: 0 <= i < t.nlocx ==> u[j, i] == g[j][i]
    ensures forall jj, i :: 0 <= jj < t.nlocy && jj != j && 0 <= i < t.nlocx ==> u[jj, i] == old(u[jj, i])
    ensures dtlocal == MinUpTo(start, d, j, t.nlocx)
  {
    dtlocal := acc;
    for i := 0 to t.nlocx
      invariant forall ii :: 0 <= ii < i ==> u[j, ii] == g[j][ii]
      invariant forall jj, ii :: 0 <= jj < t.nlocy && jj != j && 0 <= ii < t.nlocx ==> u[jj, ii] == old(u[jj, ii])
      invariant dtlocal == MinUpTo(start, d, j, i)
    {
      var con, step := InitialCell(t, gamma, root, init, xmin, ymin, dx, dy, j, i, g, d);
      u[j, i] := con;
      dtlocal := Min(dtlocal, step);
    }
  }

  /**
   * Lines 241-250: set every owned cell of the solution `u` (owned cells
   * only, indexed from the tile's corner) to the initial condition and fold
   * its local time step into `dtlocal`, which starts at `start`.
   */
  method InitialCondition(u: array2<Vec4>, t: Tile, gamma: real, root: real -> real, init: (real, real) -> Vec4,
                          xmin: real, ymin: real, dx: real, dy: real, start: real)
    returns (dtlocal: real)
    requires u.Length0 == t.nlocy && u.Length1 == t.nlocx && gamma != 1.0
    requires Physical(gamma, root, InitialGrid(gamma, init, t, xmin, ymin, dx, dy), dx, dy)
    modifies u
    ensures Rows(u) == InitialGrid(gamma, init, t, xmin, ymin, dx, dy)
    ensures dtlocal == GridMin(start, DtGrid(gamma, root, Rows(u), dx, dy))
  {
    ghost var g := InitialGrid(gamma, init, t, xmin, ymin, dx, dy);
    ghost var d := DtGrid(gamma, root, g, dx, dy);
    dtlocal := InitialAllRows(u, t, gamma, root, init, xmin, ymin, dx, dy, start, g, d);
    GridExt(Rows(u), g, t.nlocy, t.nlocx);
  }

  /** The outer loop of lines 241-250, row by row. */
  method InitialAllRows(u: array2<Vec4>, t: Tile, gamma: real, root: real -> real, init: (real, real) -> Vec4,
                         xmin: real, ymin: real, dx: real, dy: real, start: real, ghost g: Grid, ghost d: seq<seq<real>>)
    returns (dtlocal: real)
    requires u.Length0 == t.nlocy && u.Length1 == t.nlocx && gamma != 1.0
    requires g == InitialGrid(gamma, init, t, xmin, ymin, dx, dy)
    requires Physical(gamma, root, g, dx, dy) && d == DtGrid(gamma, root, g, dx, dy)
    modifies u
    ensures forall j, i :: 0 <= j < t.nlocy && 0 <= i < t.nlocx ==> u[j, i] == g[j][i]
    ensures dtlocal == MinUpTo(start, d, t.nlocy, 0)
  {
    dtlocal := start;
    for j := 0 to t.nlocy
      invariant forall jj, ii :: 0 <= jj < j && 0 <= ii < t.nlocx ==> u[jj, ii] == g[jj][ii]
      invariant dtlocal == MinUpTo(start, d, j, 0)
    {
      dtlocal := InitialRow(u, t, gamma, root, init, xmin, ymin, dx, dy, start, j, dtlocal, g, d);
    }
  }

  /**
   * Lines 253-267: with a positive `cfl` the step is `cfl` times the global
   * minimum; otherwise a positive `dt` given by the user is kept; otherwise
   * the program stops (`None`).
   */
  function SelectDt(cfl: real, dt: real, dtglobal: real): (r: Option<real>)
    ensures r.Some? <==> cfl > 0.0 || dt > 0.0
    ensures r.Some? && cfl > 0.0 ==> r.value == CflStep(cfl, dtglobal)
    ensures r.Some? && cfl <= 0.0 ==> r.value == dt && r.value > 0.0
  {
    if cfl > 0.0 then Some(CflStep(cfl, dtglobal))
    else if dt > 0.0 then Some(dt)
    else None
  }

  /**
   * The first time step, from the minimum of the local steps `steps` started
   * at `start` and reduced with the other processes' minima `others` (line 252).
   */
  function InitialDt(start: real, cfl: real, dt: real, steps: seq<seq<real>>, others: seq<real>): Option<real>
  {
    SelectDt(cfl, dt, GlobalMin(start, steps, others))
  }

  /**
   * `dtglobal` (line 252 and 599): the local fold from `start` reduced with the
   * other processes' minima; a lower bound of all of them that is one of them.
   */
  function GlobalMin(start: real, steps: seq<seq<real>>, others: seq<real>): (m: real)
    ensures m <= start
    ensures forall j, i :: 0 <= j < |steps| && 0 <= i < |steps[j]| ==> m <= steps[j][i]
    ensures forall k :: 0 <= k < |others| ==> m <= others[k]
    ensures || m == start
            || (exists j, i :: 0 <= j < |steps| && 0 <= i < |steps[j]| && m == steps[j][i])
            || (exists k :: 0 <= k < |others| && m == others[k])
  {
    ReduceMin(GridMin(start, steps), others)
  }

  /** `main` from the initial condition to the first time step, as written. */
  method Startup(u: array2<Vec4>, t: Tile, gamma: real, root: real -> real, init: (real, real) -> Vec4,
                 xmin: real, ymin: real, dx: real, dy: real, cfl: real, dt: real, others: seq<real>)
    returns (r: Option<real>)
    requires u.Length0 == t.nlocy && u.Length1 == t.nlocx && gamma != 1.0
    requires Physical(gamma, root, InitialGrid(gamma, init, t, xmin, ymin, dx, dy), dx, dy)
    modifies u
    ensures Rows(u) == InitialGrid(gamma, init, t, xmin, ymin, dx, dy)
    ensures r == InitialDt(MainDtStart, cfl, dt, DtGrid(gamma, root, Rows(u), dx, dy), others)
  {
    var dtlocal := InitialCondition(u, t, gamma, root, init, xmin, ymin, dx, dy, MainDtStart);
    r := SelectDt(cfl, dt, ReduceMin(dtlocal, others));
  }

  /** `main` with `dtlocal` started at 1.0e20, as `Monitor` does. */
  method StartupCorrected(u: array2<Vec4>, t: Tile, gamma: real, root: real -> real, init: (real, real) -> Vec4,
                          xmin: real, ymin: real, dx: real, dy: real, cfl: real, dt: real, others: seq<real>)
    returns (r: Option<real>)
    requires u.Length0 == t.nlocy && u.Length1 == t.nlocx && gamma != 1.0
    requires Physical(gamma, root, InitialGrid(gamma, init, t, xmin, ymin, dx, dy), dx, dy)
    modifies u
    ensures Rows(u) == InitialGrid(gamma, init, t, xmin, ymin, dx, dy)
    ensures r == InitialDt(MonitorDtStart, cfl, dt, DtGrid(gamma, root, Rows(u), dx, dy), others)
  {
    var dtlocal := InitialCondition(u, t, gamma, root, init, xmin, ymin, dx, dy, MonitorDtStart);
    r := SelectDt(cfl, dt, ReduceMin(dtlocal, others));
  }

  /**
   * As written, a CFL-based first step never exceeds `cfl * 1.0e-20`,
   * whatever the flow.
   */
  lemma MainStartTooSmall(cfl: real, dt: real, steps: seq<seq<real>>, others: seq<real>)
    requires cfl > 0.0
    ensures InitialDt(MainDtStart, cfl, dt, steps, others).Some?
    ensures InitialDt(MainDtStart, cfl, dt, steps, others).value <= CflStep(cfl, MainDtStart)
  {
    var m := GlobalMin(MainDtStart, steps, others);
    assert m <= MainDtStart;
    CflStepMonotone(cfl, m, MainDtStart);
  }

  /** One cell whose stable step is 1: `cfl = 0.5` gives 5.0e-21 instead of 0.5. */
  lemma MainStartCounterexample()
    ensures InitialDt(MainDtStart, 0.5, -1.0, [[1.0]], []) == Some(0.5e-20)
    ensures InitialDt(MonitorDtStart, 0.5, -1.0, [[1.0]], []) == Some(0.5)
  {
    assert MinUpTo(MainDtStart, [[1.0]], 1, 0) == 1.0e-20;
    assert MinUpTo(MonitorDtStart, [[1.0]], 1, 0) == 1.0;
  }

  /**
   * Started at 1.0e20, a CFL-based first step is `cfl` times the smallest
   * stable step of all cells on all processes, whenever those are below
   * 1.0e20: the minimum is one of the steps, not the start value.
   */
  lemma CorrectedStartIsCflMin(cfl: real, dt: real, steps: seq<seq<real>>, others: seq<real>)
    requires cfl > 0.0 && steps != [] && steps[0] != []
    requires forall j, i :: 0 <= j < |steps| && 0 <= i < |steps[j]| ==> steps[j][i] < MonitorDtStart
    ensures InitialDt(MonitorDtStart, cfl, dt, steps, others) == Some(CflStep(cfl, GlobalMin(MonitorDtStart, steps, others)))
    ensures (exists j, i :: 0 <= j < |steps| && 0 <= i < |steps[j]| && GlobalMin(MonitorDtStart, steps, others) == steps[j][i])
            || exists k :: 0 <= k < |others| && GlobalMin(MonitorDtStart, steps, others) == others[k]
  {
    var g := GridMin(MonitorDtStart, steps);
    assert g <= steps[0][0] < MonitorDtStart;
    assert exists j, i :: 0 <= j < |steps| && 0 <= i < |steps[j]| && g == steps[j][i];
  }

  /** `ctx->cfl * dtglobal` (line 255) and `dtglobal *= ctx->cfl` (line 600). */
  function CflStep(cfl: real, m: real): real
  {
    cfl * m
  }

  /** A positive CFL number preserves the order of steps. */
  lemma CflStepMonotone(cfl: real, a: real, b: real)
    requires cfl > 0.0 && a <= b
    ensures CflStep(cfl, a) <= CflStep(cfl, b)
  {
    MulMonotone(cfl, a, b);
  }

  lemma MulMonotone(k: real, a: real, b: real)
    requires k >= 0.0 && a <= b
    ensures k * a <= k * b
  {
  }

  /** `Monitor` considers the final time reached (lines 577, 583). */
  predicate NearFinal(time: real, tf: real)
  {
    Abs(time - tf) < FinalTolerance
  }

  /**
   * Lines 601-602: shorten the step `d` so as not to pass the final time.
   */
  function Clamp(time: real, tf: real, d: real): (r: real)
    ensures time + r <= tf
    ensures r <= d
    ensures time + d <= tf ==> r == d
    ensures time + d > tf ==> time + r == tf
  {
    if time + d > tf then tf - time else d
  }

  /** `dt_local(u[j][i])` (line 596). */
  method CellDt(u: array2<Vec4>, gamma: real, root: real -> real, dx: real, dy: real, j: int, i: int)
    returns (step: real)
    requires Physical(gamma, root, Rows(u), dx, dy) && 0 <= j < u.Length0 && 0 <= i < u.Length1
    ensures step == DtGrid(gamma, root, Rows(u), dx, dy)[j][i]
  {
    step := DtLocal(gamma, root, u[j, i], dx, dy);
    DtGridCell(gamma, root, Rows(u), dx, dy, j, i);
  }

  /**
   * One pass of the outer loop at lines 593-597: the local steps of row `j`
   * folded into `acc`, the minimum over the rows before it.
   */
  method RowMinDt(u: array2<Vec4>, gamma: real, root: real -> real, dx: real, dy: real, start: real,
                  j: int, acc: real)
    returns (dtlocal: real)
    requires Physical(gamma, root, Rows(u), dx, dy) && 0 <= j < u.Length0
    requires acc == MinUpTo(start, DtGrid(gamma, root, Rows(u), dx, dy), j, 0)
    ensures dtlocal == MinUpTo(start, DtGrid(gamma, root, Rows(u), dx, dy), j + 1, 0)
  {
    ghost var d := DtGrid(gamma, root, Rows(u), dx, dy);
    dtlocal := acc;
    for i := 0 to u.Length1
      invariant dtlocal == MinUpTo(start, d, j, i)
    {
      var step := CellDt(u, gamma, root, dx, dy, j, i);
      dtlocal := Min(dtlocal, step);
    }
  }

  /**
   * Lines 590-597: the smallest local step of the owned cells of `u`
   * (owned cells only, indexed from the tile's corner), starting from `start`.
   */
  method LocalMinDt(u: array2<Vec4>, gamma: real, root: real -> real, dx: real, dy: real, start: real)
    returns (dtlocal: real)
    requires Physical(gamma, root, Rows(u), dx, dy)
    ensures dtlocal == GridMin(start, DtGrid(gamma, root, Rows(u), dx, dy))
  {
    dtlocal := start;
    for j := 0 to u.Length0
      invariant dtlocal == MinUpTo(start, DtGrid(gamma, root, Rows(u), dx, dy), j, 0)
    {
      dtlocal := RowMinDt(u, gamma, root, dx, dy, start, j, dtlocal);
    }
  }

  /**
   * `Monitor` after step `step` at time `time`, with the other processes'
   * minima `others`.  `snapshot` says whether the solution is saved; `newDt`
   * is the step passed to `TSSetTimeStep`, if any.
   */
  method Monitor(step: int, time: real, u: array2<Vec4>, gamma: real, root: real -> real, dx: real, dy: real,
                 si: int, tf: real, cfl: real, others: seq<real>)
    returns (snapshot: bool, newDt: Option<real>)
    requires si != 0
    requires step >= 0 && !NearFinal(time, tf) && cfl > 0.0 ==> Physical(gamma, root, Rows(u), dx, dy)
    ensures snapshot <==> step >= 0 && (step % si == 0 || NearFinal(time, tf))
    ensures newDt.Some? <==> step >= 0 && !NearFinal(time, tf) && cfl > 0.0
    ensures newDt.Some? ==>
              newDt.value == NextDt(time, tf, cfl, GlobalMin(MonitorDtStart, DtGrid(gamma, root, Rows(u), dx, dy), others))
  {
    snapshot, newDt := false, None;
    if step < 0 {
      return;
    }
    snapshot := step % si == 0 || NearFinal(time, tf);
    if NearFinal(time, tf) {
      return;
    }
    if cfl > 0.0 {
      var dtlocal := LocalMinDt(u, gamma, root, dx, dy, MonitorDtStart);
      var dtglobal := ReduceMin(dtlocal, others);
      ghost var m := dtglobal;
      dtglobal := CflStep(cfl, dtglobal);
      if time + dtglobal > tf {
        dtglobal := tf - time;
      }
      assert dtglobal == NextDt(time, tf, cfl, m);
      newDt := Some(dtglobal);
    }
  }

  /**
   * Lines 599-602: `cfl` times the global minimum `m` of the local steps,
   * shortened so as not to pass the final time.
   */
  function NextDt(time: real, tf: real, cfl: real, m: real): (r: real)
    ensures r <= cfl * m && time + r <= tf
    ensures time + cfl * m <= tf ==> r == cfl * m
    ensures time + cfl * m > tf ==> time + r == tf
  {
    Clamp(time, tf, CflStep(cfl, m))
  }

  /** Sum of the Courant numbers along x and y of a step `dt` for the speeds `s`. */
  function CourantNumber(dt: real, s: Speeds, dx: real, dy: real): real
    requires dx > 0.0 && dy > 0.0
  {
    dt * s.x / dx + dt * s.y / dy
  }

  /**
   * A step no longer than `cfl` times a cell's `dt_local` has a Courant
   * number of at most `cfl` in that cell.
   */
  lemma CflBound(gamma: real, root: real -> real, con: Vec4, dx: real, dy: real, cfl: real, v: real)
    requires DtDefined(gamma, root, con, dx, dy) && cfl > 0.0
    requires v <= CflStep(cfl, DtLocal(gamma, root, con, dx, dy))
    ensures CourantNumber(v, ComputeLambda(gamma, root, con), dx, dy) <= cfl
  {
    var s := ComputeLambda(gamma, root, con);
    var d := DtLocal(gamma, root, con, dx, dy);
    assert s.x >= 0.0 && s.y >= 0.0;
    assert CourantNumber(d, s, dx, dy) == 1.0;
    CourantScaled(v, d, cfl, s, dx, dy);
  }

  /** The Courant number is linear in the step: `cfl` times a step of Courant number one has `cfl`. */
  lemma CourantScaled(v: real, d: real, cfl: real, s: Speeds, dx: real, dy: real)
    requires dx > 0.0 && dy > 0.0 && s.x >= 0.0 && s.y >= 0.0 && cfl > 0.0
    requires CourantNumber(d, s, dx, dy) == 1.0 && v <= CflStep(cfl, d)
    ensures CourantNumber(v, s, dx, dy) <= cfl
  {
    var k := s.x / dx + s.y / dy;
    assert s.x / dx >= 0.0 && s.y / dy >= 0.0;
    CourantLinear(v, s, dx, dy);
    CourantLinear(d, s, dx, dy);
    ScaleBelow(v, d, k, cfl);
  }

  lemma ScaleBelow(v: real, d: real, k: real, cfl: real)
    requires k >= 0.0 && d * k == 1.0 && v <= CflStep(cfl, d)
    ensures v * k <= cfl
  {
    MulMonotone(k, v, cfl * d);
    assert k * (cfl * d) == cfl * (d * k);
  }

  lemma CourantLinear(dt: real, s: Speeds, dx: real, dy: real)
    requires dx > 0.0 && dy > 0.0
    ensures CourantNumber(dt, s, dx, dy) == dt * (s.x / dx + s.y / dy)
  {
  }

  /**
   * The step `Monitor` sets keeps the Courant number of every owned cell at
   * most `cfl`, the clamp to the final time included.
   */
  lemma MonitorStepRespectsCfl(gamma: real, root: real -> real, g: Grid, dx: real, dy: real,
                               time: real, tf: real, cfl: real, others: seq<real>, j: int, i: int)
    requires Physical(gamma, root, g, dx, dy) && cfl > 0.0
    requires 0 <= j < |g| && 0 <= i < |g[j]| && DtDefined(gamma, root, g[j][i], dx, dy)
    ensures CourantNumber(NextDt(time, tf, cfl, GlobalMin(MonitorDtStart, DtGrid(gamma, root, g, dx, dy), others)),
                          ComputeLambda(gamma, root, g[j][i]), dx, dy) <= cfl
  {
    var d := DtGrid(gamma, root, g, dx, dy);
    var m := GlobalMin(MonitorDtStart, d, others);
    DtGridCell(gamma, root, g, dx, dy, j, i);
    assert m <= d[j][i] == DtLocal(gamma, root, g[j][i], dx, dy);
    ClampBelow(time, tf, cfl, m, DtLocal(gamma, root, g[j][i], dx, dy));
    CflBound(gamma, root, g[j][i], dx, dy, cfl, NextDt(time, tf, cfl, m));
  }

  lemma ClampBelow(time: real, tf: real, cfl: real, m: real, b: real)
    requires cfl > 0.0 && m <= b
    ensures NextDt(time, tf, cfl, m) <= CflStep(cfl, b)
  {
    CflStepMonotone(cfl, m, b);
  }
}
