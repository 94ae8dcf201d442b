/**
 * Point-wise physics of the 2D Euler equations (petsc/euler2d/fdweno.c:58-114):
 * conserved/primitive transforms, wave speeds, the local stable time step and
 * the global Lax-Friedrichs flux splitting.
 *
 * A conserved state is `Vec4(rho, rho*vx, rho*vy, E)`, a primitive state
 * `Vec4(rho, vx, vy, p)`.  The ratio of specific heats `gamma` is a parameter
 * (its value lives in a header that is not part of this model).  The square
 * root of the sound-speed formula is the parameter `root`.
 */
module Euler {
  import opened Vectors

  function Abs(x: real): real { if x < 0.0 then -x else x }

  /** Conserved to primitive variables (`con2prim`, lines 58-64). */
  function Con2Prim(gamma: real, con: Vec4): (prim: Vec4)
    requires con.c0 != 0.0
    ensures prim.c0 == con.c0
    ensures prim.c0 * prim.c1 == con.c1 && prim.c0 * prim.c2 == con.c2
  {
    var vx := con.c1 / con.c0;
    var vy := con.c2 / con.c0;
    Vec4(con.c0, vx, vy, (con.c3 - 0.5 * con.c0 * (vx * vx + vy * vy)) * (gamma - 1.0))
  }

  /** Primitive to conserved variables (`prim2con`, lines 67-73). */
  function Prim2Con(gamma: real, prim: Vec4): (con: Vec4)
    requires gamma != 1.0
    ensures con.c0 == prim.c0
    ensures (con.c3 - 0.5 * prim.c0 * (prim.c1 * prim.c1 + prim.c2 * prim.c2)) * (gamma - 1.0) == prim.c3
  {
    Vec4(prim.c0, prim.c0 * prim.c1, prim.c0 * prim.c2,
         0.5 * prim.c0 * (prim.c1 * prim.c1 + prim.c2 * prim.c2) + prim.c3 / (gamma - 1.0))
  }

  /** Converting to primitive variables and back restores the conserved state. */
  lemma ConservedRoundTrip(gamma: real, con: Vec4)
    requires gamma != 1.0 && con.c0 != 0.0
    ensures Prim2Con(gamma, Con2Prim(gamma, con)) == con
  {
    var prim := Con2Prim(gamma, con);
    var ke := 0.5 * prim.c0 * (prim.c1 * prim.c1 + prim.c2 * prim.c2);
    assert prim.c3 == (con.c3 - ke) * (gamma - 1.0);
    MulDivCancel(con.c3 - ke, gamma - 1.0);
  }

  lemma MulDivCancel(x: real, g: real)
    requires g != 0.0
    ensures (x * g) / g == x
  {
  }

  /** Converting to conserved variables and back restores the primitive state. */
  lemma PrimitiveRoundTrip(gamma: real, prim: Vec4)
    requires gamma != 1.0 && prim.c0 != 0.0
    ensures Con2Prim(gamma, Prim2Con(gamma, prim)) == prim
  {
    var con := Prim2Con(gamma, prim);
    var back := Con2Prim(gamma, con);
    assert back.c1 == prim.c1 by {
      assert prim.c0 * back.c1 == prim.c0 * prim.c1;
    }
    assert back.c2 == prim.c2 by {
      assert prim.c0 * back.c2 == prim.c0 * prim.c2;
    }
  }

  /** Pressure as `compute_lambda` evaluates it (line 80). */
  function Pressure(gamma: real, con: Vec4): real
    requires con.c0 != 0.0
  {
    var vx := con.c1 / con.c0;
    var vy := con.c2 / con.c0;
    (gamma - 1.0) * (con.c3 - 0.5 * con.c0 * (vx * vx + vy * vy))
  }

  /** The argument of the square root in the sound speed `sqrt(gamma*p/rho)`. */
  function SoundArg(gamma: real, con: Vec4): real
    requires con.c0 != 0.0
  {
    gamma * Pressure(gamma, con) / con.c0
  }

  /** Both places that form the sound speed (lines 80-81 and 91-92) take the same square root. */
  lemma SoundArgAgrees(gamma: real, con: Vec4)
    requires con.c0 != 0.0
    ensures gamma * Con2Prim(gamma, con).c3 / Con2Prim(gamma, con).c0 == SoundArg(gamma, con)
  {
    assert Con2Prim(gamma, con).c3 == Pressure(gamma, con);
  }

  datatype Speeds = Speeds(x: real, y: real)

  /**
   * Largest characteristic speed along x and along y (`compute_lambda`,
   * lines 76-85): `|v| + a` with `a` the sound speed.
   */
  function ComputeLambda(gamma: real, root: real -> real, con: Vec4): (s: Speeds)
    requires con.c0 != 0.0
    ensures root(SoundArg(gamma, con)) >= 0.0 ==>
              s.x >= Abs(con.c1 / con.c0) && s.y >= Abs(con.c2 / con.c0)
  {
    var a := root(SoundArg(gamma, con));
    Speeds(Abs(con.c1 / con.c0) + a, Abs(con.c2 / con.c0) + a)
  }

  /** What `dt_local` needs for `1/(sx/dx + sy/dy)` to be a finite positive number. */
  predicate DtDefined(gamma: real, root: real -> real, con: Vec4, dx: real, dy: real)
  {
    con.c0 != 0.0 && dx > 0.0 && dy > 0.0 && root(SoundArg(gamma, con)) > 0.0
  }

  /**
   * A time step `dt` whose Courant numbers `dt*sx/dx` and `dt*sy/dy` add up to
   * one, so that neither exceeds one.
   */
  predicate CourantSplit(dt: real, s: Speeds, dx: real, dy: real)
    requires dx > 0.0 && dy > 0.0
  {
    && dt * s.x / dx + dt * s.y / dy == 1.0
    && dt * s.x <= dx && dt * s.y <= dy
  }

  /** Local stable time step (`dt_local`, lines 88-96). */
  function DtLocal(gamma: real, root: real -> real, con: Vec4, dx: real, dy: real): (dt: real)
    requires DtDefined(gamma, root, con, dx, dy)
    ensures dt > 0.0
    ensures CourantSplit(dt, ComputeLambda(gamma, root, con), dx, dy)
  {
    SpeedsAgree(gamma, root, con);
    StepFromSpeeds(PrimSpeeds(gamma, root, Con2Prim(gamma, con)), dx, dy)
  }

  /** `sx` and `sy` of `dt_local`, formed from the primitive state (lines 92-94). */
  function PrimSpeeds(gamma: real, root: real -> real, prim: Vec4): (s: Speeds)
    requires prim.c0 != 0.0
    ensures root(gamma * prim.c3 / prim.c0) >= 0.0 ==> s.x >= Abs(prim.c1) && s.y >= Abs(prim.c2)
  {
    var a := root(gamma * prim.c3 / prim.c0);
    Speeds(Abs(prim.c1) + a, Abs(prim.c2) + a)
  }

  /** `1/(sx/dx + sy/dy)`, the last line of `dt_local`. */
  function StepFromSpeeds(s: Speeds, dx: real, dy: real): (dt: real)
    requires s.x > 0.0 && s.y > 0.0 && dx > 0.0 && dy > 0.0
    ensures dt > 0.0 && CourantSplit(dt, s, dx, dy)
  {
    DtProperties(s.x, s.y, dx, dy);
    1.0 / (s.x / dx + s.y / dy)
  }

  /** `dt_local` uses the same speeds as `compute_lambda`. */
  lemma SpeedsAgree(gamma: real, root: real -> real, con: Vec4)
    requires con.c0 != 0.0
    ensures PrimSpeeds(gamma, root, Con2Prim(gamma, con)) == ComputeLambda(gamma, root, con)
  {
    var prim := Con2Prim(gamma, con);
    SoundArgAgrees(gamma, con);
    SameArgument(root, gamma * prim.c3 / prim.c0, SoundArg(gamma, con));
    assert prim.c1 == con.c1 / con.c0 && prim.c2 == con.c2 / con.c0;
  }

  lemma SameArgument(f: real -> real, x: real, y: real)
    requires x == y
    ensures f(x) == f(y)
  {
  }

  /** The local time step in terms of the wave speeds of `compute_lambda`. */
  lemma DtLocalFromLambda(gamma: real, root: real -> real, con: Vec4, dx: real, dy: real)
    requires DtDefined(gamma, root, con, dx, dy)
    ensures ComputeLambda(gamma, root, con).x > 0.0 && ComputeLambda(gamma, root, con).y > 0.0
    ensures DtLocal(gamma, root, con, dx, dy) == StepFromSpeeds(ComputeLambda(gamma, root, con), dx, dy)
  {
    SpeedsAgree(gamma, root, con);
  }

  lemma DtProperties(sx: real, sy: real, dx: real, dy: real)
    requires sx > 0.0 && sy > 0.0 && dx > 0.0 && dy > 0.0
    ensures sx / dx + sy / dy > 0.0
    ensures 1.0 / (sx / dx + sy / dy) > 0.0
    ensures CourantSplit(1.0 / (sx / dx + sy / dy), Speeds(sx, sy), dx, dy)
  {
    var qx, qy := sx / dx, sy / dy;
    assert qx > 0.0 && qy > 0.0;
    var dt := 1.0 / (qx + qy);
    assert dt * (qx + qy) == 1.0;
    assert dt * sx / dx == dt * qx;
    assert dt * sy / dy == dt * qy;
    MulNonNegative(dt, qy);
    MulNonNegative(dt, qx);
    assert dt * qx <= 1.0;
    assert dt * sx == (dt * qx) * dx;
    MulNonNegative(1.0 - dt * qx, dx);
    assert dt * sy == (dt * qy) * dy;
    MulNonNegative(1.0 - dt * qy, dy);
  }

  /** Scaling both grid spacings by `k` scales the local time step by `k`. */
  lemma DtLocalScales(gamma: real, root: real -> real, con: Vec4, dx: real, dy: real, k: real)
    requires DtDefined(gamma, root, con, dx, dy) && k > 0.0
    ensures DtDefined(gamma, root, con, k * dx, k * dy)
    ensures DtLocal(gamma, root, con, k * dx, k * dy) == k * DtLocal(gamma, root, con, dx, dy)
  {
    var s := ComputeLambda(gamma, root, con);
    assert k * dx > 0.0 && k * dy > 0.0;
    DtLocalFromLambda(gamma, root, con, dx, dy);
    DtLocalFromLambda(gamma, root, con, k * dx, k * dy);
    StepScales(s.x, s.y, dx, dy, k);
    assert StepFromSpeeds(s, k * dx, k * dy) == k * StepFromSpeeds(s, dx, dy);
  }

  lemma StepScales(sx: real, sy: real, dx: real, dy: real, k: real)
    requires sx > 0.0 && sy > 0.0 && dx > 0.0 && dy > 0.0 && k > 0.0
    ensures sx / dx + sy / dy > 0.0
    ensures 1.0 / (sx / (k * dx) + sy / (k * dy)) == k * (1.0 / (sx / dx + sy / dy))
  {
    var q := sx / dx + sy / dy;
    assert sx / (k * dx) == (sx / dx) / k;
    assert sy / (k * dy) == (sy / dy) / k;
    assert sx / (k * dx) + sy / (k * dy) == q / k;
  }

  /**
   * The Euler flux written from primitive variables and total energy `e`:
   * `(rho vn, p nx + rho vx vn, p ny + rho vy vn, (e + p) vn)` with `vn = v.n`.
   */
  function EulerFlux(prim: Vec4, e: real, nx: real, ny: real): Vec4
  {
    var vn := prim.c1 * nx + prim.c2 * ny;
    Vec4(prim.c0 * vn, prim.c3 * nx + prim.c0 * prim.c1 * vn, prim.c3 * ny + prim.c0 * prim.c2 * vn,
         (e + prim.c3) * vn)
  }

  /**
   * The flux of `split_fluxes` along the unit normal `(nx, ny)` (lines
   * 102-107): the Euler flux of the state.
   */
  function PhysicalFlux(gamma: real, u: Vec4, nx: real, ny: real): (f: Vec4)
    requires u.c0 != 0.0
    ensures f == EulerFlux(Con2Prim(gamma, u), u.c3, nx, ny)
  {
    FluxForm(Con2Prim(gamma, u), u, nx, ny);
    FluxOf(u, Con2Prim(gamma, u), nx, ny)
  }

  /** `FluxOf`'s contract, stated as a step for callers that know the momenta agree. */
  lemma FluxForm(p: Vec4, u: Vec4, nx: real, ny: real)
    requires p.c0 * p.c1 == u.c1 && p.c0 * p.c2 == u.c2
    ensures FluxOf(u, p, nx, ny) == EulerFlux(p, u.c3, nx, ny)
  {
  }

  /**
   * Lines 104-107, given the conserved state `u` and its primitive form `p`:
   * whenever `p` has the momenta of `u`, the Euler flux of `p`.
   */
  function FluxOf(u: Vec4, p: Vec4, nx: real, ny: real): (f: Vec4)
    ensures p.c0 * p.c1 == u.c1 && p.c0 * p.c2 == u.c2 ==> f == EulerFlux(p, u.c3, nx, ny)
  {
    MomentumAlgebra(p.c0, p.c1, p.c2, u.c1, u.c2, nx, ny);
    var mass := u.c1 * nx + u.c2 * ny;
    Vec4(mass, p.c3 * nx + p.c1 * mass, p.c3 * ny + p.c2 * mass, (u.c3 + p.c3) * (p.c1 * nx + p.c2 * ny))
  }

  lemma MomentumAlgebra(rho: real, vx: real, vy: real, mx: real, my: real, nx: real, ny: real)
    ensures rho * vx == mx && rho * vy == my ==>
              && mx * nx + my * ny == rho * (vx * nx + vy * ny)
              && vx * (mx * nx + my * ny) == rho * vx * (vx * nx + vy * ny)
              && vy * (mx * nx + my * ny) == rho * vy * (vx * nx + vy * ny)
  {
  }

  datatype Split = Split(plus: Vec4, minus: Vec4)

  /**
   * Global Lax-Friedrichs splitting (`split_fluxes`, lines 99-114):
   * the two halves add up to the flux and differ by `lambda * U`.
   */
  function SplitFluxes(gamma: real, u: Vec4, nx: real, ny: real, lam: real): (s: Split)
    requires u.c0 != 0.0
    ensures Add(s.plus, s.minus) == PhysicalFlux(gamma, u, nx, ny)
    ensures Sub(s.plus, s.minus) == Scale(lam, u)
    ensures s.plus.c0 + s.minus.c0 == u.c1 * nx + u.c2 * ny
  {
    var f := PhysicalFlux(gamma, u, nx, ny);
    Split(Scale(0.5, Add(f, Scale(lam, u))), Scale(0.5, Sub(f, Scale(lam, u))))
  }

  /**
   * With positive density and `lambda >= |v.n|`, the forward half carries
   * mass forward and the backward half carries it backward.
   */
  lemma SplitMassUpwind(gamma: real, u: Vec4, nx: real, ny: real, lam: real)
    requires u.c0 > 0.0
    requires lam >= Abs(u.c1 / u.c0 * nx + u.c2 / u.c0 * ny)
    ensures SplitFluxes(gamma, u, nx, ny, lam).plus.c0 >= 0.0
    ensures SplitFluxes(gamma, u, nx, ny, lam).minus.c0 <= 0.0
  {
    var vn := u.c1 / u.c0 * nx + u.c2 / u.c0 * ny;
    assert u.c1 * nx + u.c2 * ny == u.c0 * vn by {
      assert u.c0 * (u.c1 / u.c0) == u.c1;
      assert u.c0 * (u.c2 / u.c0) == u.c2;
    }
    MulNonNegative(u.c0, lam + vn);
    MulNonNegative(u.c0, lam - vn);
  }
}
