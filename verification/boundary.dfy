/**
 * Ghost-cell fill at the true domain boundary, the first part of
 * `RHSFunction` (petsc/euler2d/fdweno.c:340-451).
 *
 * A process owns the tile of global columns `ibeg .. ibeg+nlocx-1` and rows
 * `jbeg .. jbeg+nlocy-1`, stored with a halo of `Sw` cells on every side.
 * The model indexes the halo-extended tile locally: `u[j, i]` with row
 * `0 <= j < nlocy + 2*Sw` and column `0 <= i < nlocx + 2*Sw`, so global
 * column `ibeg + k` is local column `Sw + k` (and likewise for rows).
 * A wall side mirrors the three owned cells nearest to it into its three
 * ghost cells, negating the momentum normal to the wall; a farfield side is
 * a fatal "Not implemented" error.
 */
module Boundary {
  import opened Vectors

  /** Stencil width, three cells on either side for WENO5 (line 14). */
  const Sw: int := 3

  datatype Bc = Wall | Periodic | Farfield | Supersonic

  /** Boundary type of each side of the global domain. */
  datatype Bcs = Bcs(left: Bc, right: Bc, bottom: Bc, top: Bc)

  /** The sides, in the order `RHSFunction` treats them. */
  datatype Side = Left | Right | Bottom | Top

  function Index(s: Side): int
  {
    match s
    case Left => 0
    case Right => 1
    case Bottom => 2
    case Top => 3
  }

  /** Outcome of the fill: success, or `SETERRQ(..., "Not implemented")` on a side. */
  datatype Status = Ok | NotImplemented(side: Side)

  /**
   * The process's part of the `nx` by `ny` grid.  The tile is at least `Sw`
   * cells wide and high (the distributed array refuses narrower tiles), so a
   * mirror reads owned cells only.
   */
  datatype Tile = Tile(nx: int, ny: int, ibeg: int, jbeg: int, nlocx: int, nlocy: int)
  {
    predicate Valid()
    {
      && 0 <= ibeg && Sw <= nlocx && ibeg + nlocx <= nx
      && 0 <= jbeg && Sw <= nlocy && jbeg + nlocy <= ny
    }

    /** Columns of the halo-extended tile. */
    function Width(): int { nlocx + 2 * Sw }

    /** Rows of the halo-extended tile. */
    function Height(): int { nlocy + 2 * Sw }

    predicate OwnedRow(j: int) { Sw <= j < Sw + nlocy }

    predicate OwnedCol(i: int) { Sw <= i < Sw + nlocx }

    predicate InHalo(j: int, i: int) { 0 <= j < Height() && 0 <= i < Width() }

    /** Owned cells and the ghost strips beside them; the corner ghosts are never read. */
    predicate InCross(j: int, i: int) { InHalo(j, i) && (OwnedRow(j) || OwnedCol(i)) }

    /** The owned cell that ghost column (left) or row (bottom, top) mirrors. */
    function LeftMirror(i: int): int { 2 * Sw - 1 - i }

    function RightMirror(i: int): int { 2 * (Sw + nlocx) - 1 - i }

    function BottomMirror(j: int): int { 2 * Sw - 1 - j }

    function TopMirror(j: int): int { 2 * (Sw + nlocy) - 1 - j }

    predicate LeftGhost(j: int, i: int) { OwnedRow(j) && 0 <= i < Sw }

    predicate RightGhost(j: int, i: int) { OwnedRow(j) && Sw + nlocx <= i < Width() }

    predicate BottomGhost(j: int, i: int) { OwnedCol(i) && 0 <= j < Sw }

    predicate TopGhost(j: int, i: int) { OwnedCol(i) && Sw + nlocy <= j < Height() }
  }

  /** Wall reflection across a vertical wall: x-momentum negated (lines 347-360). */
  function ReflectX(c: Vec4): Vec4 { Vec4(c.c0, -c.c1, c.c2, c.c3) }

  /** Wall reflection across a horizontal wall: y-momentum negated (lines 403-416). */
  function ReflectY(c: Vec4): Vec4 { Vec4(c.c0, c.c1, -c.c2, c.c3) }

  datatype Action = Mirror | Fail | Skip

  /** The boundary type of side `s`. */
  function SideBc(bcs: Bcs, s: Side): Bc
  {
    match s
    case Left => bcs.left
    case Right => bcs.right
    case Bottom => bcs.bottom
    case Top => bcs.top
  }

  /** The tile lies along side `s` of the global domain. */
  predicate Touches(t: Tile, s: Side)
  {
    match s
    case Left => t.ibeg == 0
    case Right => t.ibeg + t.nlocx == t.nx
    case Bottom => t.jbeg == 0
    case Top => t.jbeg + t.nlocy == t.ny
  }

  /**
   * What `RHSFunction` does on each side (lines 342-450).  A side mirrors
   * iff the tile lies along it and it is a wall.  Only the left test for
   * farfield checks that the tile lies along the side (line 364); the right,
   * bottom and top tests (lines 392, 420, 448) fail on every process.
   */
  function SideAction(t: Tile, bcs: Bcs, s: Side): (a: Action)
    ensures a == Mirror <==> Touches(t, s) && SideBc(bcs, s) == Wall
    ensures a == Fail <==> SideBc(bcs, s) == Farfield && (s == Left ==> Touches(t, s))
  {
    match s
    case Left =>
      if t.ibeg == 0 && bcs.left == Wall then Mirror
      else if t.ibeg == 0 && bcs.left == Farfield then Fail
      else Skip
    case Right =>
      if t.ibeg + t.nlocx == t.nx && bcs.right == Wall then Mirror
      else if bcs.right == Farfield then Fail
      else Skip
    case Bottom =>
      if t.jbeg == 0 && bcs.bottom == Wall then Mirror
      else if bcs.bottom == Farfield then Fail
      else Skip
    case Top =>
      if t.jbeg + t.nlocy == t.ny && bcs.top == Wall then Mirror
      else if bcs.top == Farfield then Fail
      else Skip
  }

  /** The status the fill ends with: the first side, in order, that fails. */
  function FirstFailure(t: Tile, bcs: Bcs): (st: Status)
    ensures st.Ok? <==> forall s :: SideAction(t, bcs, s) != Fail
    ensures st.NotImplemented? ==>
              SideAction(t, bcs, st.side) == Fail &&
              forall s :: Index(s) < Index(st.side) ==> SideAction(t, bcs, s) != Fail
  {
    if SideAction(t, bcs, Left) == Fail then NotImplemented(Left)
    else if SideAction(t, bcs, Right) == Fail then NotImplemented(Right)
    else if SideAction(t, bcs, Bottom) == Fail then NotImplemented(Bottom)
    else if SideAction(t, bcs, Top) == Fail then NotImplemented(Top)
    else Ok
  }

  /** How many sides, in order, have been treated when the fill stops with `st`. */
  function Stage(st: Status): int
  {
    if st.Ok? then 4 else Index(st.side)
  }

  /** Side `s` is among the first `n` sides and mirrors. */
  predicate Mirrors(t: Tile, bcs: Bcs, n: int, s: Side)
  {
    Index(s) < n && SideAction(t, bcs, s) == Mirror
  }

  predicate Fits(t: Tile, g: Grid)
  {
    t.Valid() && Shaped(g, t.Height(), t.Width())
  }

  /** Cell `(j, i)` of the tile `g` once the first `n` sides are treated. */
  function FilledCell(t: Tile, bcs: Bcs, n: int, g: Grid, j: int, i: int): Vec4
    requires Fits(t, g) && t.InHalo(j, i)
  {
    if t.LeftGhost(j, i) && Mirrors(t, bcs, n, Left) then ReflectX(g[j][t.LeftMirror(i)])
    else if t.RightGhost(j, i) && Mirrors(t, bcs, n, Right) then ReflectX(g[j][t.RightMirror(i)])
    else if t.BottomGhost(j, i) && Mirrors(t, bcs, n, Bottom) then ReflectY(g[t.BottomMirror(j)][i])
    else if t.TopGhost(j, i) && Mirrors(t, bcs, n, Top) then ReflectY(g[t.TopMirror(j)][i])
    else g[j][i]
  }

  /** The whole tile once the first `n` sides are treated. */
  function Filled(t: Tile, bcs: Bcs, n: int, g: Grid): (h: Grid)
    requires Fits(t, g)
    ensures Fits(t, h)
    ensures forall j, i :: t.InHalo(j, i) ==> h[j][i] == FilledCell(t, bcs, n, g, j, i)
  {
    seq(t.Height(), j requires 0 <= j < t.Height() =>
      seq(t.Width(), i requires 0 <= i < t.Width() => FilledCell(t, bcs, n, g, j, i)))
  }

  predicate FitsArray(t: Tile, u: array2<Vec4>)
  {
    t.Valid() && u.Length0 == t.Height() && u.Length1 == t.Width()
  }

  /** Left wall: ghost columns `ibeg-1 .. ibeg-3` (lines 342-363). */
  method FillLeft(u: array2<Vec4>, t: Tile)
    requires FitsArray(t, u)
    modifies u
    ensures Rows(u) == Mirrored(t, Left, old(Rows(u)))
    ensures forall j, i :: t.InHalo(j, i) ==>
              u[j, i] == if t.LeftGhost(j, i) then ReflectX(old(u[j, t.LeftMirror(i)])) else old(u[j, i])
  {
    var i := Sw - 1;
    for j := Sw to Sw + t.nlocy
      invariant forall jj, ii :: t.InHalo(jj, ii) ==>
                  u[jj, ii] == if t.LeftGhost(jj, ii) && jj < j then ReflectX(old(u[jj, t.LeftMirror(ii)]))
                               else old(u[jj, ii])
    {
      var a, b, c := u[j, i + 1], u[j, i + 2], u[j, i + 3];
      u[j, i], u[j, i - 1], u[j, i - 2] := ReflectX(a), ReflectX(b), ReflectX(c);
    }
    forall j, i | t.InHalo(j, i)
      ensures Rows(u)[j][i] == Mirrored(t, Left, old(Rows(u)))[j][i]
    {
    }
    GridExt(Rows(u), Mirrored(t, Left, old(Rows(u))), t.Height(), t.Width());
  }

  /** Right wall: ghost columns `ibeg+nlocx .. ibeg+nlocx+2` (lines 370-391). */
  method FillRight(u: array2<Vec4>, t: Tile)
    requires FitsArray(t, u)
    modifies u
    ensures Rows(u) == Mirrored(t, Right, old(Rows(u)))
    ensures forall j, i :: t.InHalo(j, i) ==>
              u[j, i] == if t.RightGhost(j, i) then ReflectX(old(u[j, t.RightMirror(i)])) else old(u[j, i])
  {
    var i := Sw + t.nlocx;
    for j := Sw to Sw + t.nlocy
      invariant forall jj, ii :: t.InHalo(jj, ii) ==>
                  u[jj, ii] == if t.RightGhost(jj, ii) && jj < j then ReflectX(old(u[jj, t.RightMirror(ii)]))
                               else old(u[jj, ii])
    {
      var a, b, c := u[j, i - 1], u[j, i - 2], u[j, i - 3];
      u[j, i], u[j, i + 1], u[j, i + 2] := ReflectX(a), ReflectX(b), ReflectX(c);
    }
    forall j, i | t.InHalo(j, i)
      ensures Rows(u)[j][i] == Mirrored(t, Right, old(Rows(u)))[j][i]
    {
    }
    GridExt(Rows(u), Mirrored(t, Right, old(Rows(u))), t.Height(), t.Width());
  }

  /** Bottom wall: ghost rows `jbeg-1 .. jbeg-3` (lines 398-419). */
  method FillBottom(u: array2<Vec4>, t: Tile)
    requires FitsArray(t, u)
    modifies u
    ensures Rows(u) == Mirrored(t, Bottom, old(Rows(u)))
    ensures forall j, i :: t.InHalo(j, i) ==>
              u[j, i] == if t.BottomGhost(j, i) then ReflectY(old(u[t.BottomMirror(j), i])) else old(u[j, i])
  {
    var j := Sw - 1;
    for i := Sw to Sw + t.nlocx
      invariant forall jj, ii :: t.InHalo(jj, ii) ==>
                  u[jj, ii] == if t.BottomGhost(jj, ii) && ii < i then ReflectY(old(u[t.BottomMirror(jj), ii]))
                               else old(u[jj, ii])
    {
      var a, b, c := u[j + 1, i], u[j + 2, i], u[j + 3, i];
      u[j, i], u[j - 1, i], u[j - 2, i] := ReflectY(a), ReflectY(b), ReflectY(c);
    }
    forall j, i | t.InHalo(j, i)
      ensures Rows(u)[j][i] == Mirrored(t, Bottom, old(Rows(u)))[j][i]
    {
    }
    GridExt(Rows(u), Mirrored(t, Bottom, old(Rows(u))), t.Height(), t.Width());
  }

  /** Top wall: ghost rows `jbeg+nlocy .. jbeg+nlocy+2` (lines 426-447). */
  method FillTop(u: array2<Vec4>, t: Tile)
    requires FitsArray(t, u)
    modifies u
    ensures Rows(u) == Mirrored(t, Top, old(Rows(u)))
    ensures forall j, i :: t.InHalo(j, i) ==>
              u[j, i] == if t.TopGhost(j, i) then ReflectY(old(u[t.TopMirror(j), i])) else old(u[j, i])
  {
    var j := Sw + t.nlocy;
    for i := Sw to Sw + t.nlocx
      invariant forall jj, ii :: t.InHalo(jj, ii) ==>
                  u[jj, ii] == if t.TopGhost(jj, ii) && ii < i then ReflectY(old(u[t.TopMirror(jj), ii]))
                               else old(u[jj, ii])
    {
      var a, b, c := u[j - 1, i], u[j - 2, i], u[j - 3, i];
      u[j, i], u[j + 1, i], u[j + 2, i] := ReflectY(a), ReflectY(b), ReflectY(c);
    }
    forall j, i | t.InHalo(j, i)
      ensures Rows(u)[j][i] == Mirrored(t, Top, old(Rows(u)))[j][i]
    {
      if t.TopGhost(j, i) {
        assert old(Rows(u))[t.TopMirror(j)][i] == old(u[t.TopMirror(j), i]);
      }
    }
    GridExt(Rows(u), Mirrored(t, Top, old(Rows(u))), t.Height(), t.Width());
  }

  /**
   * The boundary part of `RHSFunction` (lines 340-451): the four sides in
   * order; a farfield side stops with an error, leaving the sides before it
   * treated.
   */
  method ApplyBoundaryConditions(u: array2<Vec4>, t: Tile, bcs: Bcs) returns (st: Status)
    requires FitsArray(t, u)
    modifies u
    ensures st == FirstFailure(t, bcs)
    ensures Rows(u) == Filled(t, bcs, Stage(st), old(Rows(u)))
  {
    ghost var g := Rows(u);
    FilledNone(t, bcs, g);
    if t.ibeg == 0 && bcs.left == Wall {
      FillLeft(u, t);
    } else if t.ibeg == 0 && bcs.left == Farfield {
      return NotImplemented(Left);
    }
    StepSide(t, bcs, Left, g, g, Rows(u));
    ghost var h := Rows(u);

    if t.ibeg + t.nlocx == t.nx && bcs.right == Wall {
      FillRight(u, t);
    } else if bcs.right == Farfield {
      return NotImplemented(Right);
    }
    StepSide(t, bcs, Right, g, h, Rows(u));
    h := Rows(u);

    if t.jbeg == 0 && bcs.bottom == Wall {
      FillBottom(u, t);
    } else if bcs.bottom == Farfield {
      return NotImplemented(Bottom);
    }
    StepSide(t, bcs, Bottom, g, h, Rows(u));
    h := Rows(u);

    if t.jbeg + t.nlocy == t.ny && bcs.top == Wall {
      FillTop(u, t);
    } else if bcs.top == Farfield {
      return NotImplemented(Top);
    }
    StepSide(t, bcs, Top, g, h, Rows(u));
    st := Ok;
  }

  /** The mirror image that side `s` writes into its ghost strip. */
  function SideFill(t: Tile, s: Side, g: Grid, j: int, i: int): Vec4
    requires Fits(t, g) && t.InHalo(j, i)
  {
    match s
    case Left => if t.LeftGhost(j, i) then ReflectX(g[j][t.LeftMirror(i)]) else g[j][i]
    case Right => if t.RightGhost(j, i) then ReflectX(g[j][t.RightMirror(i)]) else g[j][i]
    case Bottom => if t.BottomGhost(j, i) then ReflectY(g[t.BottomMirror(j)][i]) else g[j][i]
    case Top => if t.TopGhost(j, i) then ReflectY(g[t.TopMirror(j)][i]) else g[j][i]
  }

  /** The tile `g` with side `s` mirrored into its ghost strip. */
  function Mirrored(t: Tile, s: Side, g: Grid): (h: Grid)
    requires Fits(t, g)
    ensures Fits(t, h)
    ensures forall j, i :: t.InHalo(j, i) ==> h[j][i] == SideFill(t, s, g, j, i)
  {
    seq(t.Height(), j requires 0 <= j < t.Height() =>
      seq(t.Width(), i requires 0 <= i < t.Width() => SideFill(t, s, g, j, i)))
  }

  /** Before any side is treated the tile is as given. */
  lemma FilledNone(t: Tile, bcs: Bcs, g: Grid)
    requires Fits(t, g)
    ensures Filled(t, bcs, 0, g) == g
  {
    GridExt(Filled(t, bcs, 0, g), g, t.Height(), t.Width());
  }

  /** Treating side `s` after the sides before it gives the fill one stage further. */
  lemma StepSide(t: Tile, bcs: Bcs, s: Side, g: Grid, prev: Grid, next: Grid)
    requires Fits(t, g) && Fits(t, prev) && Fits(t, next)
    requires prev == Filled(t, bcs, Index(s), g)
    requires SideAction(t, bcs, s) != Fail
    requires next == if SideAction(t, bcs, s) == Mirror then Mirrored(t, s, prev) else prev
    ensures next == Filled(t, bcs, Index(s) + 1, g)
  {
    var f := Filled(t, bcs, Index(s) + 1, g);
    forall j, i | t.InHalo(j, i)
      ensures next[j][i] == f[j][i]
    {
      if SideAction(t, bcs, s) == Mirror {
        match s
        case Left =>
          if t.LeftGhost(j, i) { FillFrame(t, bcs, Index(s), g, j, t.LeftMirror(i)); }
        case Right =>
          if t.RightGhost(j, i) { FillFrame(t, bcs, Index(s), g, j, t.RightMirror(i)); }
        case Bottom =>
          if t.BottomGhost(j, i) { FillFrame(t, bcs, Index(s), g, t.BottomMirror(j), i); }
        case Top =>
          if t.TopGhost(j, i) { FillFrame(t, bcs, Index(s), g, t.TopMirror(j), i); }
      }
    }
    GridExt(next, f, t.Height(), t.Width());
  }

  /**
   * On a mirroring side, the k-th ghost cell (k = 1, 2, 3) outside the tile
   * holds the k-th owned cell inside it, with the wall-normal momentum negated
   * and every other component copied.
   */
  lemma WallGhostsMirror(t: Tile, bcs: Bcs, g: Grid, j: int, k: int)
    requires Fits(t, g) && 1 <= k <= Sw
    ensures t.OwnedRow(j) && SideAction(t, bcs, Left) == Mirror ==>
              Filled(t, bcs, 4, g)[j][Sw - k] == ReflectX(g[j][Sw + k - 1])
    ensures t.OwnedRow(j) && SideAction(t, bcs, Right) == Mirror ==>
              Filled(t, bcs, 4, g)[j][Sw + t.nlocx - 1 + k] == ReflectX(g[j][Sw + t.nlocx - k])
    ensures t.OwnedCol(j) && SideAction(t, bcs, Bottom) == Mirror ==>
              Filled(t, bcs, 4, g)[Sw - k][j] == ReflectY(g[Sw + k - 1][j])
    ensures t.OwnedCol(j) && SideAction(t, bcs, Top) == Mirror ==>
              Filled(t, bcs, 4, g)[Sw + t.nlocy - 1 + k][j] == ReflectY(g[Sw + t.nlocy - k][j])
  {
  }

  /**
   * The fill writes ghost cells of mirroring sides only: owned cells, corner
   * ghosts and the ghost strips of every other side are unchanged.
   */
  lemma FillFrame(t: Tile, bcs: Bcs, n: int, g: Grid, j: int, i: int)
    requires Fits(t, g) && t.InHalo(j, i)
    ensures t.OwnedRow(j) == t.OwnedCol(i) ==> Filled(t, bcs, n, g)[j][i] == g[j][i]
    ensures (t.LeftGhost(j, i) && !Mirrors(t, bcs, n, Left)) || (t.RightGhost(j, i) && !Mirrors(t, bcs, n, Right))
            || (t.BottomGhost(j, i) && !Mirrors(t, bcs, n, Bottom)) || (t.TopGhost(j, i) && !Mirrors(t, bcs, n, Top))
            ==> Filled(t, bcs, n, g)[j][i] == g[j][i]
  {
  }

  /** Applying the fill a second time changes nothing. */
  lemma FillIdempotent(t: Tile, bcs: Bcs, n: int, g: Grid)
    requires Fits(t, g)
    ensures Filled(t, bcs, n, Filled(t, bcs, n, g)) == Filled(t, bcs, n, g)
  {
    var h := Filled(t, bcs, n, g);
    var h2 := Filled(t, bcs, n, h);
    forall j, i | t.InHalo(j, i)
      ensures h2[j][i] == h[j][i]
    {
      if t.LeftGhost(j, i) {
        FillFrame(t, bcs, n, g, j, t.LeftMirror(i));
      } else if t.RightGhost(j, i) {
        FillFrame(t, bcs, n, g, j, t.RightMirror(i));
      } else if t.BottomGhost(j, i) {
        FillFrame(t, bcs, n, g, t.BottomMirror(j), i);
      } else if t.TopGhost(j, i) {
        FillFrame(t, bcs, n, g, t.TopMirror(j), i);
      }
    }
    GridExt(h2, h, t.Height(), t.Width());
  }

  /** Every cell the residual reads holds a nonzero density. */
  ghost predicate NonVacuum(t: Tile, g: Grid)
  {
    Fits(t, g) && forall j, i :: t.InCross(j, i) ==> g[j][i].c0 != 0.0
  }

  /** Cell `(j, i)` is a ghost that one of the first `n` sides mirrors into, so the fill overwrites it. */
  predicate Overwritten(t: Tile, bcs: Bcs, n: int, j: int, i: int)
  {
    || (t.LeftGhost(j, i) && Mirrors(t, bcs, n, Left))
    || (t.RightGhost(j, i) && Mirrors(t, bcs, n, Right))
    || (t.BottomGhost(j, i) && Mirrors(t, bcs, n, Bottom))
    || (t.TopGhost(j, i) && Mirrors(t, bcs, n, Top))
  }

  /**
   * Every cell the residual reads and the first `n` sides leave as they are
   * holds a nonzero density; the ghosts the fill overwrites may hold anything.
   */
  ghost predicate NonVacuumOutsideFill(t: Tile, bcs: Bcs, n: int, g: Grid)
  {
    Fits(t, g) && forall j, i :: t.InCross(j, i) && !Overwritten(t, bcs, n, j, i) ==> g[j][i].c0 != 0.0
  }

  /**
   * The fill copies owned densities into the ghosts it overwrites, so the
   * filled tile has nonzero density in every cell the residual reads exactly
   * when the cells the fill leaves alone have.
   */
  lemma FillKeepsNonVacuum(t: Tile, bcs: Bcs, n: int, g: Grid)
    requires Fits(t, g)
    ensures NonVacuum(t, Filled(t, bcs, n, g)) <==> NonVacuumOutsideFill(t, bcs, n, g)
  {
    var h: Grid := Filled(t, bcs, n, g);
    if NonVacuumOutsideFill(t, bcs, n, g) {
      forall j: int, i: int | t.InCross(j, i)
        ensures h[j][i].c0 != 0.0
      {
        if t.LeftGhost(j, i) && Mirrors(t, bcs, n, Left) {
          assert t.InCross(j, t.LeftMirror(i));
        } else if t.RightGhost(j, i) && Mirrors(t, bcs, n, Right) {
          assert t.InCross(j, t.RightMirror(i));
        } else if t.BottomGhost(j, i) && Mirrors(t, bcs, n, Bottom) {
          assert t.InCross(t.BottomMirror(j), i);
        } else if t.TopGhost(j, i) && Mirrors(t, bcs, n, Top) {
          assert t.InCross(t.TopMirror(j), i);
        }
      }
    }
    if NonVacuum(t, h) {
      forall j: int, i: int | t.InCross(j, i) && !Overwritten(t, bcs, n, j, i)
        ensures g[j][i].c0 != 0.0
      {
        assert h[j][i] == g[j][i];
      }
    }
  }

  /**
   * A fluid at rest needs no reflection: where every cell the residual reads
   * holds the same state with zero momentum, the fill leaves those cells
   * holding it.
   */
  lemma FillKeepsRest(t: Tile, bcs: Bcs, n: int, g: Grid, w: Vec4)
    requires Fits(t, g) && w.c1 == 0.0 && w.c2 == 0.0
    requires forall j, i :: t.InCross(j, i) ==> g[j][i] == w
    ensures forall j, i :: t.InCross(j, i) ==> Filled(t, bcs, n, g)[j][i] == w
  {
    forall j, i | t.InCross(j, i)
      ensures Filled(t, bcs, n, g)[j][i] == w
    {
      if t.LeftGhost(j, i) {
        assert t.InCross(j, t.LeftMirror(i));
      } else if t.RightGhost(j, i) {
        assert t.InCross(j, t.RightMirror(i));
      } else if t.BottomGhost(j, i) {
        assert t.InCross(t.BottomMirror(j), i);
      } else if t.TopGhost(j, i) {
        assert t.InCross(t.TopMirror(j), i);
      }
    }
  }
}
