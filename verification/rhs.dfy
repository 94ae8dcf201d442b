/**
 * The right-hand side `R(t, u)` of `du/dt = R(t, u)`, `RHSFunction`
 * (petsc/euler2d/fdweno.c:303-560), on one process's tile.
 *
 * The residual is zeroed, the wall ghosts are filled, the largest wave
 * speeds over the tile are reduced over all processes, every cell's state is
 * split into Lax-Friedrichs fluxes `f+` and `f-`, and the faces scatter their
 * fluxes into the residual.  As written, the flux a face scatters is the
 * array `flux`, which is declared (line 315) but never assigned: the
 * reconstructed values `UL` and `UR` are computed and dropped.  `RhsFunction`
 * models that code; `RhsFunctionCorrected` scatters `UL + UR`.
 */
module Rhs {
  import opened Vectors
  import opened Weno
  import opened Euler
  import opened Boundary
  import opened Residual
  import opened Collective

  /**
   * `weno5` applied to each of the four components (the `d` loops of lines
   * 488-492); five equal vectors reconstruct to that vector.
   */
  function WenoVec(a: Vec4, b: Vec4, c: Vec4, d: Vec4, e: Vec4): (r: Vec4)
    ensures a == b == c == d == e ==> r == a
  {
    ConstantExact(a.c0);
    ConstantExact(a.c1);
    ConstantExact(a.c2);
    ConstantExact(a.c3);
    Vec4(Weno5(a.c0, b.c0, c.c0, d.c0, e.c0), Weno5(a.c1, b.c1, c.c1, d.c1, e.c1),
         Weno5(a.c2, b.c2, c.c2, d.c2, e.c2), Weno5(a.c3, b.c3, c.c3, d.c3, e.c3))
  }

  /** Columns `lo .. hi-1` of row `r` of `g` all hold the same vector. */
  predicate FlatRow(t: Tile, g: Grid, r: int, lo: int, hi: int)
    requires Fits(t, g) && 0 <= r < t.Height() && 0 <= lo < hi <= t.Width()
  {
    forall k :: lo <= k < hi ==> g[r][k] == g[r][lo]
  }

  /** Rows `lo .. hi-1` of column `c` of `g` all hold the same vector. */
  predicate FlatCol(t: Tile, g: Grid, c: int, lo: int, hi: int)
    requires Fits(t, g) && 0 <= c < t.Width() && 0 <= lo < hi <= t.Height()
  {
    forall k :: lo <= k < hi ==> g[k][c] == g[lo][c]
  }

  /**
   * Flux through x-face `f` of owned row `j` (between local cells `f-1` and
   * `f`): `UL`, reconstructed from `f+` left to right, plus `UR`,
   * reconstructed from `f-` right to left (lines 488-492).  Where both
   * stencils are flat, the face carries the split fluxes they hold.
   */
  function XFaceFlux(t: Tile, p: Grid, m: Grid, j: int, f: int): (v: Vec4)
    requires Fits(t, p) && Fits(t, m) && 0 <= j < t.nlocy && 0 <= f <= t.nlocx
    ensures FlatRow(t, p, Sw + j, Sw + f - 3, Sw + f + 2) && FlatRow(t, m, Sw + j, Sw + f - 2, Sw + f + 3) ==>
              v == Add(p[Sw + j][Sw + f - 3], m[Sw + j][Sw + f - 2])
  {
    var r, i := Sw + j, Sw + f;
    Add(WenoVec(p[r][i - 3], p[r][i - 2], p[r][i - 1], p[r][i], p[r][i + 1]),
        WenoVec(m[r][i + 2], m[r][i + 1], m[r][i], m[r][i - 1], m[r][i - 2]))
  }

  /** Flux through y-face `f` of owned column `c` (lines 518-522). */
  function YFaceFlux(t: Tile, p: Grid, m: Grid, f: int, c: int): (v: Vec4)
    requires Fits(t, p) && Fits(t, m) && 0 <= f <= t.nlocy && 0 <= c < t.nlocx
    ensures FlatCol(t, p, Sw + c, Sw + f - 3, Sw + f + 2) && FlatCol(t, m, Sw + c, Sw + f - 2, Sw + f + 3) ==>
              v == Add(p[Sw + f - 3][Sw + c], m[Sw + f - 2][Sw + c])
  {
    var r, i := Sw + f, Sw + c;
    Add(WenoVec(p[r - 3][i], p[r - 2][i], p[r - 1][i], p[r][i], p[r + 1][i]),
        WenoVec(m[r + 2][i], m[r + 1][i], m[r][i], m[r - 1][i], m[r - 2][i]))
  }

  function XFaceFluxes(t: Tile, p: Grid, m: Grid): (fx: Grid)
    requires Fits(t, p) && Fits(t, m)
    ensures Shaped(fx, t.nlocy, t.nlocx + 1)
    ensures forall j, f :: 0 <= j < t.nlocy && 0 <= f <= t.nlocx ==> fx[j][f] == XFaceFlux(t, p, m, j, f)
  {
    seq(t.nlocy, j requires 0 <= j < t.nlocy =>
      seq(t.nlocx + 1, f requires 0 <= f <= t.nlocx => XFaceFlux(t, p, m, j, f)))
  }

  function YFaceFluxes(t: Tile, p: Grid, m: Grid): (fy: Grid)
    requires Fits(t, p) && Fits(t, m)
    ensures Shaped(fy, t.nlocy + 1, t.nlocx)
    ensures forall f, c :: 0 <= f <= t.nlocy && 0 <= c < t.nlocx ==> fy[f][c] == YFaceFlux(t, p, m, f, c)
  {
    seq(t.nlocy + 1, f requires 0 <= f <= t.nlocy =>
      seq(t.nlocx, c requires 0 <= c < t.nlocx => YFaceFlux(t, p, m, f, c)))
  }

  /** The same flux at every face: what the uninitialised `flux` array amounts to. */
  function Uniform(rows: nat, cols: nat, v: Vec4): (g: Grid)
    ensures Shaped(g, rows, cols)
    ensures forall j, i :: 0 <= j < rows && 0 <= i < cols ==> g[j][i] == v
  {
    seq(rows, j requires 0 <= j < rows => seq(cols, i requires 0 <= i < cols => v))
  }

  /** The owned cells visited before `(j, i)` in row-major order. */
  predicate Visited(t: Tile, jj: int, ii: int, j: int, i: int)
  {
    t.OwnedRow(jj) && t.OwnedCol(ii) && (jj < j || (jj == j && ii < i))
  }

  ghost predicate OwnedNonVacuum(t: Tile, u: array2<Vec4>)
    reads u
  {
    FitsArray(t, u) && forall j, i :: t.OwnedRow(j) && t.OwnedCol(i) ==> u[j, i].c0 != 0.0
  }

  /** `s` is the running maximum of the wave speeds of the cells visited before `(j, i)`. */
  ghost predicate RunningMax(t: Tile, u: array2<Vec4>, gamma: real, root: real -> real,
                             start: Speeds, s: Speeds, j: int, i: int)
    reads u
    requires OwnedNonVacuum(t, u)
  {
    && s.x >= start.x && s.y >= start.y
    && (forall jj, ii :: Visited(t, jj, ii, j, i) ==>
          s.x >= ComputeLambda(gamma, root, u[jj, ii]).x && s.y >= ComputeLambda(gamma, root, u[jj, ii]).y)
    && (s.x == start.x || exists jj, ii :: Visited(t, jj, ii, j, i) && s.x == ComputeLambda(gamma, root, u[jj, ii]).x)
    && (s.y == start.y || exists jj, ii :: Visited(t, jj, ii, j, i) && s.y == ComputeLambda(gamma, root, u[jj, ii]).y)
  }

  /**
   * Lines 453-460: the largest x and y wave speeds over the owned cells,
   * starting from `start` (the C code starts from the uninitialised
   * `lambdax`, `lambday`, so the start value is a parameter).
   */
  method MaxWaveSpeeds(u: array2<Vec4>, t: Tile, gamma: real, root: real -> real, start: Speeds)
    returns (s: Speeds)
    requires OwnedNonVacuum(t, u)
    ensures s.x >= start.x && s.y >= start.y
    ensures forall j, i :: t.OwnedRow(j) && t.OwnedCol(i) ==>
              s.x >= ComputeLambda(gamma, root, u[j, i]).x && s.y >= ComputeLambda(gamma, root, u[j, i]).y
    ensures s.x == start.x ||
            exists j, i :: t.OwnedRow(j) && t.OwnedCol(i) && s.x == ComputeLambda(gamma, root, u[j, i]).x
    ensures s.y == start.y ||
            exists j, i :: t.OwnedRow(j) && t.OwnedCol(i) && s.y == ComputeLambda(gamma, root, u[j, i]).y
  {
    s := start;
    for j := Sw to Sw + t.nlocy
      invariant RunningMax(t, u, gamma, root, start, s, j, Sw)
    {
      for i := Sw to Sw + t.nlocx
        invariant RunningMax(t, u, gamma, root, start, s, j, i)
      {
        var l := ComputeLambda(gamma, root, u[j, i]);
        s := Speeds(Max(s.x, l.x), Max(s.y, l.y));
      }
    }
  }

  /**
   * Lines 465-470: x-split fluxes along every owned row, ghost columns
   * included.
   */
  method SplitFluxesX(u: array2<Vec4>, fxp: array2<Vec4>, fxm: array2<Vec4>, t: Tile, gamma: real, lam: real)
    requires FitsArray(t, u) && FitsArray(t, fxp) && FitsArray(t, fxm)
    requires fxp != fxm && fxp != u && fxm != u
    requires NonVacuum(t, Rows(u))
    modifies fxp, fxm
    ensures forall j, i :: t.InHalo(j, i) ==>
              fxp[j, i] == if t.OwnedRow(j) then SplitFluxes(gamma, u[j, i], 1.0, 0.0, lam).plus else old(fxp[j, i])
    ensures forall j, i :: t.InHalo(j, i) ==>
              fxm[j, i] == if t.OwnedRow(j) then SplitFluxes(gamma, u[j, i], 1.0, 0.0, lam).minus else old(fxm[j, i])
  {
    for j := Sw to Sw + t.nlocy
      invariant forall jj, ii :: t.InHalo(jj, ii) ==>
                  fxp[jj, ii] == if t.OwnedRow(jj) && jj < j then SplitFluxes(gamma, u[jj, ii], 1.0, 0.0, lam).plus
                                 else old(fxp[jj, ii])
      invariant forall jj, ii :: t.InHalo(jj, ii) ==>
                  fxm[jj, ii] == if t.OwnedRow(jj) && jj < j then SplitFluxes(gamma, u[jj, ii], 1.0, 0.0, lam).minus
                                 else old(fxm[jj, ii])
    {
      for i := 0 to t.Width()
        invariant forall jj, ii :: t.InHalo(jj, ii) ==>
                    fxp[jj, ii] == if t.OwnedRow(jj) && (jj < j || (jj == j && ii < i))
                                   then SplitFluxes(gamma, u[jj, ii], 1.0, 0.0, lam).plus else old(fxp[jj, ii])
        invariant forall jj, ii :: t.InHalo(jj, ii) ==>
                    fxm[jj, ii] == if t.OwnedRow(jj) && (jj < j || (jj == j && ii < i))
                                   then SplitFluxes(gamma, u[jj, ii], 1.0, 0.0, lam).minus else old(fxm[jj, ii])
      {
        assert Rows(u)[j][i] == u[j, i] && t.InCross(j, i);
        var s := SplitFluxes(gamma, u[j, i], 1.0, 0.0, lam);
        fxp[j, i], fxm[j, i] := s.plus, s.minus;
      }
    }
  }

  /**
   * Lines 472-477: y-split fluxes along every owned column, ghost rows
   * included.
   */
  method SplitFluxesY(u: array2<Vec4>, fyp: array2<Vec4>, fym: array2<Vec4>, t: Tile, gamma: real, lam: real)
    requires FitsArray(t, u) && FitsArray(t, fyp) && FitsArray(t, fym)
    requires fyp != fym && fyp != u && fym != u
    requires NonVacuum(t, Rows(u))
    modifies fyp, fym
    ensures forall j, i :: t.InHalo(j, i) ==>
              fyp[j, i] == if t.OwnedCol(i) then SplitFluxes(gamma, u[j, i], 0.0, 1.0, lam).plus else old(fyp[j, i])
    ensures forall j, i :: t.InHalo(j, i) ==>
              fym[j, i] == if t.OwnedCol(i) then SplitFluxes(gamma, u[j, i], 0.0, 1.0, lam).minus else old(fym[j, i])
  {
    for j := 0 to t.Height()
      invariant forall jj, ii :: t.InHalo(jj, ii) ==>
                  fyp[jj, ii] == if t.OwnedCol(ii) && jj < j then SplitFluxes(gamma, u[jj, ii], 0.0, 1.0, lam).plus
                                 else old(fyp[jj, ii])
      invariant forall jj, ii :: t.InHalo(jj, ii) ==>
                  fym[jj, ii] == if t.OwnedCol(ii) && jj < j then SplitFluxes(gamma, u[jj, ii], 0.0, 1.0, lam).minus
                                 else old(fym[jj, ii])
    {
      for i := Sw to Sw + t.nlocx
        invariant forall jj, ii :: t.InHalo(jj, ii) ==>
                    fyp[jj, ii] == if t.OwnedCol(ii) && (jj < j || (jj == j && ii < i))
                                   then SplitFluxes(gamma, u[jj, ii], 0.0, 1.0, lam).plus else old(fyp[jj, ii])
        invariant forall jj, ii :: t.InHalo(jj, ii) ==>
                    fym[jj, ii] == if t.OwnedCol(ii) && (jj < j || (jj == j && ii < i))
                                   then SplitFluxes(gamma, u[jj, ii], 0.0, 1.0, lam).minus else old(fym[jj, ii])
      {
        assert Rows(u)[j][i] == u[j, i] && t.InCross(j, i);
        var s := SplitFluxes(gamma, u[j, i], 0.0, 1.0, lam);
        fyp[j, i], fym[j, i] := s.plus, s.minus;
      }
    }
  }

  /** The arrays `RHSFunction` works on are six different arrays. */
  predicate Separate(u: array2<Vec4>, res: array2<Vec4>, fxp: array2<Vec4>, fxm: array2<Vec4>,
                     fyp: array2<Vec4>, fym: array2<Vec4>)
  {
    && u != res && u != fxp && u != fxm && u != fyp && u != fym
    && res != fxp && res != fxm && res != fyp && res != fym
    && fxp != fxm && fxp != fyp && fxp != fym
    && fyp != fxm && fym != fxm && fyp != fym
  }

  predicate Shapes(t: Tile, u: array2<Vec4>, res: array2<Vec4>, fxp: array2<Vec4>, fxm: array2<Vec4>,
                   fyp: array2<Vec4>, fym: array2<Vec4>)
  {
    && FitsArray(t, u) && FitsArray(t, fxp) && FitsArray(t, fxm) && FitsArray(t, fyp) && FitsArray(t, fym)
    && res.Length0 == t.nlocy && res.Length1 == t.nlocx
  }

  datatype Axis = X | Y

  function Along(s: Speeds, a: Axis): real
  {
    match a
    case X => s.x
    case Y => s.y
  }

  /**
   * `m` is the largest of `start`, the other processes' values `others` and
   * the owned cells' `compute_lambda` speeds along axis `a`: an upper bound
   * of all of them that is one of them.
   */
  ghost predicate Greatest(t: Tile, g: Grid, gamma: real, root: real -> real, a: Axis,
                           start: real, others: seq<real>, m: real)
    requires NonVacuum(t, g)
  {
    && m >= start
    && (forall k :: 0 <= k < |others| ==> m >= others[k])
    && (forall j, i :: t.OwnedRow(j) && t.OwnedCol(i) ==> m >= Along(ComputeLambda(gamma, root, g[j][i]), a))
    && (|| m == start
        || (exists k :: 0 <= k < |others| && m == others[k])
        || exists j, i :: t.OwnedRow(j) && t.OwnedCol(i) && m == Along(ComputeLambda(gamma, root, g[j][i]), a))
  }

  /** The speeds `lambdax`, `lambday` after the reductions of lines 462-463. */
  ghost predicate GlobalMaxSpeeds(t: Tile, g: Grid, gamma: real, root: real -> real, lambda0: Speeds,
                                  othersX: seq<real>, othersY: seq<real>, lam: Speeds)
    requires NonVacuum(t, g)
  {
    Greatest(t, g, gamma, root, X, lambda0.x, othersX, lam.x) && Greatest(t, g, gamma, root, Y, lambda0.y, othersY, lam.y)
  }

  /**
   * The split fluxes lines 465-477 leave in the four scratch grids: along x
   * on every cell of every owned row, along y on every cell of every owned
   * column, both with the reduced speeds `lam`.
   */
  ghost predicate SplitGrids(t: Tile, g: Grid, gamma: real, lam: Speeds, p: Grid, m: Grid, q: Grid, n: Grid)
    requires NonVacuum(t, g)
  {
    && Fits(t, p) && Fits(t, m) && Fits(t, q) && Fits(t, n)
    && (forall j, i :: t.OwnedRow(j) && 0 <= i < t.Width() ==>
          p[j][i] == SplitFluxes(gamma, g[j][i], 1.0, 0.0, lam.x).plus &&
          m[j][i] == SplitFluxes(gamma, g[j][i], 1.0, 0.0, lam.x).minus)
    && (forall j, i :: 0 <= j < t.Height() && t.OwnedCol(i) ==>
          q[j][i] == SplitFluxes(gamma, g[j][i], 0.0, 1.0, lam.y).plus &&
          n[j][i] == SplitFluxes(gamma, g[j][i], 0.0, 1.0, lam.y).minus)
  }

  /** Every cell the residual reads holds the same state. */
  ghost predicate UniformState(t: Tile, g: Grid)
  {
    Fits(t, g) && forall j, i :: t.InCross(j, i) ==> g[j][i] == g[Sw][Sw]
  }

  /**
   * Lines 333-477, everything before the faces: zero the residual, fill
   * the wall ghosts (stopping on a farfield side), reduce the wave speeds
   * over all processes and split the fluxes.  `lambda0` stands for the
   * uninitialised start of the maxima, `othersX` and `othersY` for the
   * other processes' maxima.
   */
  method SplitPhase(u: array2<Vec4>, res: array2<Vec4>, fxp: array2<Vec4>, fxm: array2<Vec4>,
                    fyp: array2<Vec4>, fym: array2<Vec4>, t: Tile, bcs: Bcs, gamma: real, root: real -> real,
                    lambda0: Speeds, othersX: seq<real>, othersY: seq<real>)
    returns (st: Status, lam: Speeds)
    requires Shapes(t, u, res, fxp, fxm, fyp, fym) && Separate(u, res, fxp, fxm, fyp, fym)
    requires FirstFailure(t, bcs).Ok? ==> NonVacuumOutsideFill(t, bcs, 4, Rows(u))
    modifies u, res, fxp, fxm, fyp, fym
    ensures st == FirstFailure(t, bcs)
    ensures Rows(u) == Filled(t, bcs, Stage(st), old(Rows(u)))
    ensures forall j, c :: 0 <= j < res.Length0 && 0 <= c < res.Length1 ==> res[j, c] == Zero()
    ensures st.Ok? ==> NonVacuum(t, Rows(u))
    ensures st.Ok? ==> GlobalMaxSpeeds(t, Rows(u), gamma, root, lambda0, othersX, othersY, lam)
    ensures st.Ok? ==> SplitGrids(t, Rows(u), gamma, lam, Rows(fxp), Rows(fxm), Rows(fyp), Rows(fym))
  {
    ZeroResidual(res);
    ghost var g := Rows(u);
    st := ApplyBoundaryConditions(u, t, bcs);
    lam := lambda0;
    if !st.Ok? {
      return;
    }
    FillKeepsNonVacuum(t, bcs, Stage(st), g);
    lam := FluxPhase(u, fxp, fxm, fyp, fym, t, gamma, root, lambda0, othersX, othersY);
  }

  /**
   * Lines 453-477 on a filled state: the global maximum wave speeds, then
   * the split fluxes of every cell the faces need.
   */
  method FluxPhase(u: array2<Vec4>, fxp: array2<Vec4>, fxm: array2<Vec4>, fyp: array2<Vec4>, fym: array2<Vec4>,
                   t: Tile, gamma: real, root: real -> real, lambda0: Speeds, othersX: seq<real>, othersY: seq<real>)
    returns (lam: Speeds)
    requires FitsArray(t, u) && FitsArray(t, fxp) && FitsArray(t, fxm) && FitsArray(t, fyp) && FitsArray(t, fym)
    requires fxp != fxm && fyp != fym && fxp != fyp && fxp != fym && fxm != fyp && fxm != fym
    requires u != fxp && u != fxm && u != fyp && u != fym
    requires NonVacuum(t, Rows(u))
    modifies fxp, fxm, fyp, fym
    ensures GlobalMaxSpeeds(t, Rows(u), gamma, root, lambda0, othersX, othersY, lam)
    ensures SplitGrids(t, Rows(u), gamma, lam, Rows(fxp), Rows(fxm), Rows(fyp), Rows(fym))
  {
    lam := GlobalSpeeds(u, t, gamma, root, lambda0, othersX, othersY);
    SplitFluxesX(u, fxp, fxm, t, gamma, lam.x);
    SplitFluxesY(u, fyp, fym, t, gamma, lam.y);
  }

  /**
   * Lines 453-463: the tile's largest wave speeds, reduced with the other
   * processes' maxima.
   */
  method GlobalSpeeds(u: array2<Vec4>, t: Tile, gamma: real, root: real -> real, lambda0: Speeds,
                      othersX: seq<real>, othersY: seq<real>)
    returns (lam: Speeds)
    requires FitsArray(t, u) && NonVacuum(t, Rows(u))
    ensures GlobalMaxSpeeds(t, Rows(u), gamma, root, lambda0, othersX, othersY, lam)
  {
    ghost var g := Rows(u);
    assert forall j, i :: t.OwnedRow(j) && t.OwnedCol(i) ==> g[j][i] == u[j, i] && t.InCross(j, i);
    var local := MaxWaveSpeeds(u, t, gamma, root, lambda0);
    lam := Speeds(ReduceMax(local.x, othersX), ReduceMax(local.y, othersY));
    ReducedIsGreatest(t, g, gamma, root, X, lambda0.x, local.x, othersX, lam.x);
    ReducedIsGreatest(t, g, gamma, root, Y, lambda0.y, local.y, othersY, lam.y);
  }

  /**
   * Reducing the tile's running maximum `local` over the other processes
   * gives the largest of the start, the other processes' values and the
   * owned cells' speeds.
   */
  lemma ReducedIsGreatest(t: Tile, g: Grid, gamma: real, root: real -> real, a: Axis,
                          start: real, local: real, others: seq<real>, m: real)
    requires NonVacuum(t, g)
    requires local >= start
    requires forall j, i :: t.OwnedRow(j) && t.OwnedCol(i) ==> local >= Along(ComputeLambda(gamma, root, g[j][i]), a)
    requires local == start ||
             exists j, i :: t.OwnedRow(j) && t.OwnedCol(i) && local == Along(ComputeLambda(gamma, root, g[j][i]), a)
    requires m == ReduceMax(local, others)
    ensures Greatest(t, g, gamma, root, a, start, others, m)
  {
  }

  /**
   * Lines 479-547 given the flux of every face: the x-faces, the y-faces,
   * then the scaling, on a residual that starts at zero.
   */
  method Assemble(res: array2<Vec4>, fx: Grid, fy: Grid, dx: real, dy: real)
    requires dx != 0.0 && dy != 0.0
    requires res.Length0 >= 1 && res.Length1 >= 1
    requires Shaped(fx, res.Length0, res.Length1 + 1) && Shaped(fy, res.Length0 + 1, res.Length1)
    requires forall j, c :: 0 <= j < res.Length0 && 0 <= c < res.Length1 ==> res[j, c] == Zero()
    modifies res
    ensures forall j, c :: 0 <= j < res.Length0 && 0 <= c < res.Length1 ==>
              res[j, c] == CellResidual(fx, fy, dx, dy, j, c)
  {
    ScatterX(res, fx, dy);
    ScatterY(res, fy, dx);
    ScaleResidual(res, dx, dy);
  }

  /**
   * `RHSFunction` as written: every face scatters the same never-assigned
   * `flux`, so every contribution a face adds to one cell it takes from the
   * next, and the residual of every owned cell is zero whatever the state.
   */
  method RhsFunction(u: array2<Vec4>, res: array2<Vec4>, fxp: array2<Vec4>, fxm: array2<Vec4>,
                     fyp: array2<Vec4>, fym: array2<Vec4>, t: Tile, bcs: Bcs, gamma: real, root: real -> real,
                     dx: real, dy: real, lambda0: Speeds, othersX: seq<real>, othersY: seq<real>, flux: Vec4)
    returns (st: Status)
    requires Shapes(t, u, res, fxp, fxm, fyp, fym) && Separate(u, res, fxp, fxm, fyp, fym)
    requires FirstFailure(t, bcs).Ok? ==> NonVacuumOutsideFill(t, bcs, 4, Rows(u))
    requires dx != 0.0 && dy != 0.0
    modifies u, res, fxp, fxm, fyp, fym
    ensures st == FirstFailure(t, bcs)
    ensures Rows(u) == Filled(t, bcs, Stage(st), old(Rows(u)))
    ensures forall j, c :: 0 <= j < res.Length0 && 0 <= c < res.Length1 ==> res[j, c] == Zero()
  {
    var lam;
    st, lam := SplitPhase(u, res, fxp, fxm, fyp, fym, t, bcs, gamma, root, lambda0, othersX, othersY);
    if !st.Ok? {
      return;
    }
    var fx := Uniform(t.nlocy, t.nlocx + 1, flux);
    var fy := Uniform(t.nlocy + 1, t.nlocx, flux);
    Assemble(res, fx, fy, dx, dy);
    forall j, c | 0 <= j < res.Length0 && 0 <= c < res.Length1
      ensures CellResidual(fx, fy, dx, dy, j, c) == Zero()
    {
      UniformFluxesGiveZero(fx, fy, dx, dy, flux, flux, j, c);
    }
  }

  /**
   * `RHSFunction` with the face flux the reconstruction computes: each
   * x-face scatters `UL + UR` from the split fluxes around it, and likewise
   * each y-face.  `lam` is the pair of reduced wave speeds the split fluxes
   * are formed with.
   */
  method RhsFunctionCorrected(u: array2<Vec4>, res: array2<Vec4>, fxp: array2<Vec4>, fxm: array2<Vec4>,
                              fyp: array2<Vec4>, fym: array2<Vec4>, t: Tile, bcs: Bcs, gamma: real,
                              root: real -> real, dx: real, dy: real, lambda0: Speeds,
                              othersX: seq<real>, othersY: seq<real>)
    returns (st: Status, ghost lam: Speeds)
    requires Shapes(t, u, res, fxp, fxm, fyp, fym) && Separate(u, res, fxp, fxm, fyp, fym)
    requires FirstFailure(t, bcs).Ok? ==> NonVacuumOutsideFill(t, bcs, 4, Rows(u))
    requires dx != 0.0 && dy != 0.0
    modifies u, res, fxp, fxm, fyp, fym
    ensures st == FirstFailure(t, bcs)
    ensures Rows(u) == Filled(t, bcs, Stage(st), old(Rows(u)))
    ensures !st.Ok? ==> forall j, c :: 0 <= j < res.Length0 && 0 <= c < res.Length1 ==> res[j, c] == Zero()
    ensures st.Ok? ==> NonVacuum(t, Rows(u))
    ensures st.Ok? ==> GlobalMaxSpeeds(t, Rows(u), gamma, root, lambda0, othersX, othersY, lam)
    ensures st.Ok? ==> SplitGrids(t, Rows(u), gamma, lam, Rows(fxp), Rows(fxm), Rows(fyp), Rows(fym))
    ensures st.Ok? ==> forall j, c :: 0 <= j < res.Length0 && 0 <= c < res.Length1 ==>
              res[j, c] == CellResidual(XFaceFluxes(t, Rows(fxp), Rows(fxm)), YFaceFluxes(t, Rows(fyp), Rows(fym)),
                                        dx, dy, j, c)
    ensures st.Ok? && UniformState(t, Rows(u)) ==>
              forall j, c :: 0 <= j < res.Length0 && 0 <= c < res.Length1 ==> res[j, c] == Zero()
  {
    st, lam := SplitPhase(u, res, fxp, fxm, fyp, fym, t, bcs, gamma, root, lambda0, othersX, othersY);
    if !st.Ok? {
      return;
    }
    var fx := XFaceFluxes(t, Rows(fxp), Rows(fxm));
    var fy := YFaceFluxes(t, Rows(fyp), Rows(fym));
    Assemble(res, fx, fy, dx, dy);
    if UniformState(t, Rows(u)) {
      forall j, c | 0 <= j < res.Length0 && 0 <= c < res.Length1
        ensures res[j, c] == Zero()
      {
        FreeStreamPreserved(t, gamma, Rows(u), lam, Rows(fxp), Rows(fxm), Rows(fyp), Rows(fym), dx, dy, j, c);
      }
    }
  }

  /**
   * Free-stream preservation of the corrected scheme: where every cell the
   * residual reads holds one state and the split fluxes are formed from it,
   * every face carries the physical flux of that state and the residual of
   * every cell is zero.
   */
  lemma FreeStreamPreserved(t: Tile, gamma: real, g: Grid, lam: Speeds, p: Grid, m: Grid, q: Grid, n: Grid,
                            dx: real, dy: real, j: int, c: int)
    requires NonVacuum(t, g) && UniformState(t, g) && SplitGrids(t, g, gamma, lam, p, m, q, n)
    requires dx != 0.0 && dy != 0.0 && 0 <= j < t.nlocy && 0 <= c < t.nlocx
    ensures CellResidual(XFaceFluxes(t, p, m), YFaceFluxes(t, q, n), dx, dy, j, c) == Zero()
  {
    var w := g[Sw][Sw];
    UniformXFaces(t, gamma, g, lam, p, m, q, n);
    UniformYFaces(t, gamma, g, lam, p, m, q, n);
    UniformFluxesGiveZero(XFaceFluxes(t, p, m), YFaceFluxes(t, q, n), dx, dy,
                          PhysicalFlux(gamma, w, 1.0, 0.0), PhysicalFlux(gamma, w, 0.0, 1.0), j, c);
  }

  /** On a uniform state every x-face carries the physical x-flux of that state. */
  lemma UniformXFaces(t: Tile, gamma: real, g: Grid, lam: Speeds, p: Grid, m: Grid, q: Grid, n: Grid)
    requires NonVacuum(t, g) && UniformState(t, g) && SplitGrids(t, g, gamma, lam, p, m, q, n)
    ensures forall jj, f :: 0 <= jj < t.nlocy && 0 <= f <= t.nlocx ==>
              XFaceFluxes(t, p, m)[jj][f] == PhysicalFlux(gamma, g[Sw][Sw], 1.0, 0.0)
  {
    var w := g[Sw][Sw];
    forall jj, f | 0 <= jj < t.nlocy && 0 <= f <= t.nlocx
      ensures XFaceFlux(t, p, m, jj, f) == PhysicalFlux(gamma, w, 1.0, 0.0)
    {
      var r, i := Sw + jj, Sw + f;
      UniformRow(t, gamma, g, lam, p, m, q, n, r);
      assert FlatRow(t, p, r, i - 3, i + 2) && FlatRow(t, m, r, i - 2, i + 3);
    }
  }

  /** On a uniform state every y-face carries the physical y-flux of that state. */
  lemma UniformYFaces(t: Tile, gamma: real, g: Grid, lam: Speeds, p: Grid, m: Grid, q: Grid, n: Grid)
    requires NonVacuum(t, g) && UniformState(t, g) && SplitGrids(t, g, gamma, lam, p, m, q, n)
    ensures forall f, cc :: 0 <= f <= t.nlocy && 0 <= cc < t.nlocx ==>
              YFaceFluxes(t, q, n)[f][cc] == PhysicalFlux(gamma, g[Sw][Sw], 0.0, 1.0)
  {
    var w := g[Sw][Sw];
    forall f, cc | 0 <= f <= t.nlocy && 0 <= cc < t.nlocx
      ensures YFaceFlux(t, q, n, f, cc) == PhysicalFlux(gamma, w, 0.0, 1.0)
    {
      var r, i := Sw + f, Sw + cc;
      UniformColumn(t, gamma, g, lam, p, m, q, n, i);
      assert FlatCol(t, q, i, r - 3, r + 2) && FlatCol(t, n, i, r - 2, r + 3);
    }
  }

  /** On a uniform state an owned row of the x-split grids is constant. */
  lemma UniformRow(t: Tile, gamma: real, g: Grid, lam: Speeds, p: Grid, m: Grid, q: Grid, n: Grid, r: int)
    requires NonVacuum(t, g) && UniformState(t, g) && SplitGrids(t, g, gamma, lam, p, m, q, n)
    requires t.OwnedRow(r)
    ensures forall k :: 0 <= k < t.Width() ==>
              p[r][k] == SplitFluxes(gamma, g[Sw][Sw], 1.0, 0.0, lam.x).plus &&
              m[r][k] == SplitFluxes(gamma, g[Sw][Sw], 1.0, 0.0, lam.x).minus
  {
    forall k | 0 <= k < t.Width()
      ensures g[r][k] == g[Sw][Sw]
    {
      assert t.InCross(r, k);
    }
  }

  /** On a uniform state an owned column of the y-split grids is constant. */
  lemma UniformColumn(t: Tile, gamma: real, g: Grid, lam: Speeds, p: Grid, m: Grid, q: Grid, n: Grid, c: int)
    requires NonVacuum(t, g) && UniformState(t, g) && SplitGrids(t, g, gamma, lam, p, m, q, n)
    requires t.OwnedCol(c)
    ensures forall k :: 0 <= k < t.Height() ==>
              q[k][c] == SplitFluxes(gamma, g[Sw][Sw], 0.0, 1.0, lam.y).plus &&
              n[k][c] == SplitFluxes(gamma, g[Sw][Sw], 0.0, 1.0, lam.y).minus
  {
    forall k | 0 <= k < t.Height()
      ensures g[k][c] == g[Sw][Sw]
    {
      assert t.InCross(k, c);
    }
  }
}
