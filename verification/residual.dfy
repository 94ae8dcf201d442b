/**
 * Residual assembly of `RHSFunction` (petsc/euler2d/fdweno.c:333-338 and
 * 479-547): zero the residual of every owned cell, let every x-face and
 * every y-face of the tile add its flux to the cell on one side and take it
 * from the cell on the other, then scale by `-1/(dx*dy)`.
 *
 * The residual array holds the owned cells only, indexed locally:
 * `res[j, c]` is global cell `(jbeg + j, ibeg + c)`.  X-face `f` of row `j`
 * (`0 <= f <= nlocx`) lies between cells `c = f-1` and `c = f`; y-face `f`
 * of column `c` lies between rows `f-1` and `f`.  The face fluxes come in as
 * grids: `fx` has `nlocy` rows of `nlocx+1` faces, `fy` has `nlocy+1` rows
 * of `nlocx` faces.
 */
module Residual {
  import opened Vectors

  /** Column `c` of a grid, bottom to top. */
  function Column(g: Grid, c: int): (col: seq<Vec4>)
    requires 0 <= c && forall j :: 0 <= j < |g| ==> c < |g[j]|
    ensures |col| == |g|
    ensures forall j :: 0 <= j < |g| ==> col[j] == g[j][c]
  {
    seq(|g|, j requires 0 <= j < |g| => g[j][c])
  }

  /**
   * What a line of faces puts into the cells between them: cell `k` gains
   * `h` times the flux through face `k+1` and loses `h` times the flux
   * through face `k`.
   */
  function Differences(faces: seq<Vec4>, h: real): (d: seq<Vec4>)
    requires |faces| >= 1
    ensures |d| == |faces| - 1
  {
    seq(|faces| - 1, k requires 0 <= k < |faces| - 1 => Sub(Scale(h, faces[k + 1]), Scale(h, faces[k])))
  }

  /**
   * The scatter is conservative: every interior face adds to one cell what
   * it takes from the other, so the cells of a line together gain only what
   * crosses the two end faces.
   */
  lemma {:induction false} Telescopes(faces: seq<Vec4>, h: real)
    requires |faces| >= 1
    ensures Sum(Differences(faces, h)) == Sub(Scale(h, faces[|faces| - 1]), Scale(h, faces[0]))
  {
    if |faces| > 1 {
      var init := faces[..|faces| - 1];
      Telescopes(init, h);
      assert Differences(faces, h)[..|faces| - 2] == Differences(init, h);
    }
  }

  /** A line of faces that all carry the same flux changes no cell. */
  lemma UniformFacesCancel(faces: seq<Vec4>, h: real, v: Vec4, k: int)
    requires |faces| >= 1 && 0 <= k < |faces| - 1
    requires forall m :: 0 <= m < |faces| ==> faces[m] == v
    ensures Differences(faces, h)[k] == Zero()
  {
    assert faces[k + 1] == faces[k];
  }

  /** Lines 333-338: every owned residual set to zero. */
  method ZeroResidual(res: array2<Vec4>)
    modifies res
    ensures forall j, c :: 0 <= j < res.Length0 && 0 <= c < res.Length1 ==> res[j, c] == Zero()
  {
    for j := 0 to res.Length0
      invariant forall jj, c :: 0 <= jj < j && 0 <= c < res.Length1 ==> res[jj, c] == Zero()
    {
      for c := 0 to res.Length1
        invariant forall jj, cc :: 0 <= jj < j && 0 <= cc < res.Length1 ==> res[jj, cc] == Zero()
        invariant forall cc :: 0 <= cc < c ==> res[j, cc] == Zero()
      {
        res[j, c] := Zero();
      }
    }
  }

  /**
   * Lines 479-511: the x-faces of every row, left to right.  The first face
   * only takes from the first cell and the last face only adds to the last
   * cell; every other face does both.
   */
  method ScatterX(res: array2<Vec4>, fx: Grid, dy: real)
    requires res.Length1 >= 1 && Shaped(fx, res.Length0, res.Length1 + 1)
    modifies res
    ensures forall j, c :: 0 <= j < res.Length0 && 0 <= c < res.Length1 ==>
              res[j, c] == Add(old(res[j, c]), Differences(fx[j], dy)[c])
  {
    var n := res.Length1;
    for j := 0 to res.Length0
      invariant forall jj, c :: 0 <= jj < res.Length0 && 0 <= c < n ==>
                  res[jj, c] == if jj < j then Add(old(res[jj, c]), Differences(fx[jj], dy)[c]) else old(res[jj, c])
    {
      for f := 0 to n + 1
        invariant forall jj, c :: 0 <= jj < res.Length0 && jj != j && 0 <= c < n ==>
                    res[jj, c] == if jj < j then Add(old(res[jj, c]), Differences(fx[jj], dy)[c]) else old(res[jj, c])
        invariant forall c {:trigger res[j, c]} :: 0 <= c < n ==>
                    res[j, c] == if c + 1 < f then Add(Sub(old(res[j, c]), Scale(dy, fx[j][c])), Scale(dy, fx[j][c + 1]))
                                 else if c < f then Sub(old(res[j, c]), Scale(dy, fx[j][c]))
                                 else old(res[j, c])
      {
        if f == 0 {
          res[j, f] := Sub(res[j, f], Scale(dy, fx[j][f]));
        } else if f == n {
          res[j, f - 1] := Add(res[j, f - 1], Scale(dy, fx[j][f]));
        } else {
          res[j, f] := Sub(res[j, f], Scale(dy, fx[j][f]));
          res[j, f - 1] := Add(res[j, f - 1], Scale(dy, fx[j][f]));
        }
      }
    }
  }

  /**
   * Lines 513-541: the y-faces, bottom to top, each across the owned
   * columns.  The bottom face only takes from the bottom cell and the top
   * face only adds to the top cell.
   */
  method ScatterY(res: array2<Vec4>, fy: Grid, dx: real)
    requires res.Length0 >= 1 && Shaped(fy, res.Length0 + 1, res.Length1)
    modifies res
    ensures forall j, c :: 0 <= j < res.Length0 && 0 <= c < res.Length1 ==>
              res[j, c] == Add(old(res[j, c]), Differences(Column(fy, c), dx)[j])
  {
    var m := res.Length0;
    for f := 0 to m + 1
      invariant forall j, c :: 0 <= j < m && 0 <= c < res.Length1 ==>
                  res[j, c] == if j + 1 < f then Add(Sub(old(res[j, c]), Scale(dx, fy[j][c])), Scale(dx, fy[j + 1][c]))
                               else if j < f then Sub(old(res[j, c]), Scale(dx, fy[j][c]))
                               else old(res[j, c])
    {
      for c := 0 to res.Length1
        invariant forall j, cc :: 0 <= j < m && 0 <= cc < res.Length1 ==>
                    res[j, cc] == if j + 1 < f || (j + 1 == f && cc < c) then Add(Sub(old(res[j, cc]), Scale(dx, fy[j][cc])), Scale(dx, fy[j + 1][cc]))
                                  else if j < f || (j == f && cc < c) then Sub(old(res[j, cc]), Scale(dx, fy[j][cc]))
                                  else old(res[j, cc])
      {
        if f == 0 {
          res[f, c] := Sub(res[f, c], Scale(dx, fy[f][c]));
        } else if f == m {
          res[f - 1, c] := Add(res[f - 1, c], Scale(dx, fy[f][c]));
        } else {
          res[f, c] := Sub(res[f, c], Scale(dx, fy[f][c]));
          res[f - 1, c] := Add(res[f - 1, c], Scale(dx, fy[f][c]));
        }
      }
    }
  }

  /** Lines 543-547: every owned residual multiplied by `-1/(dx*dy)`. */
  method ScaleResidual(res: array2<Vec4>, dx: real, dy: real)
    requires dx != 0.0 && dy != 0.0
    modifies res
    ensures forall j, c :: 0 <= j < res.Length0 && 0 <= c < res.Length1 ==>
              res[j, c] == Scale(-(1.0 / (dx * dy)), old(res[j, c]))
  {
    var lam := 1.0 / (dx * dy);
    for j := 0 to res.Length0
      invariant forall jj, c :: 0 <= jj < res.Length0 && 0 <= c < res.Length1 ==>
                  res[jj, c] == if jj < j then Scale(-lam, old(res[jj, c])) else old(res[jj, c])
    {
      for c := 0 to res.Length1
        invariant forall jj, cc :: 0 <= jj < res.Length0 && 0 <= cc < res.Length1 ==>
                    res[jj, cc] == if jj < j || (jj == j && cc < c) then Scale(-lam, old(res[jj, cc])) else old(res[jj, cc])
      {
        res[j, c] := Scale(-lam, res[j, c]);
      }
    }
  }

  /**
   * Cell `(j, c)` of the assembled residual, from zero through the scaling.
   * It is the finite-volume divergence: minus the x-flux difference across
   * the cell over `dx`, minus the y-flux difference over `dy`.
   */
  function CellResidual(fx: Grid, fy: Grid, dx: real, dy: real, j: int, c: int): (v: Vec4)
    requires dx != 0.0 && dy != 0.0
    requires |fx| >= 1 && Shaped(fx, |fx|, |fx[0]|) && |fx[0]| >= 2
    requires Shaped(fy, |fx| + 1, |fx[0]| - 1)
    requires 0 <= j < |fx| && 0 <= c < |fx[0]| - 1
    ensures v == Scale(-1.0, Add(Scale(1.0 / dx, Sub(fx[j][c + 1], fx[j][c])), Scale(1.0 / dy, Sub(fy[j + 1][c], fy[j][c]))))
  {
    DifferenceAt(fx[j], dy, c);
    DifferenceAt(Column(fy, c), dx, j);
    ScaledDivergence(fx[j][c + 1], fx[j][c], fy[j + 1][c], fy[j][c], dx, dy);
    Scale(-(1.0 / (dx * dy)), Add(Add(Zero(), Differences(fx[j], dy)[c]), Differences(Column(fy, c), dx)[j]))
  }

  lemma DifferenceAt(faces: seq<Vec4>, h: real, k: int)
    requires 0 <= k < |faces| - 1
    ensures Differences(faces, h)[k] == Sub(Scale(h, faces[k + 1]), Scale(h, faces[k]))
  {
  }

  lemma ScaledDivergence(p1: Vec4, p0: Vec4, q1: Vec4, q0: Vec4, dx: real, dy: real)
    requires dx != 0.0 && dy != 0.0
    ensures Scale(-(1.0 / (dx * dy)), Add(Add(Zero(), Sub(Scale(dy, p1), Scale(dy, p0))), Sub(Scale(dx, q1), Scale(dx, q0))))
            == Scale(-1.0, Add(Scale(1.0 / dx, Sub(p1, p0)), Scale(1.0 / dy, Sub(q1, q0))))
  {
    var a, b := Sub(p1, p0), Sub(q1, q0);
    var l := -(1.0 / (dx * dy));
    calc {
      Scale(l, Add(Add(Zero(), Sub(Scale(dy, p1), Scale(dy, p0))), Sub(Scale(dx, q1), Scale(dx, q0))));
      == { ScaleSubDistributes(dy, p1, p0); ScaleSubDistributes(dx, q1, q0); }
      Scale(l, Add(Add(Zero(), Scale(dy, a)), Scale(dx, b)));
      == { assert Add(Zero(), Scale(dy, a)) == Scale(dy, a); }
      Scale(l, Add(Scale(dy, a), Scale(dx, b)));
      == { ScaleAddDistributes(l, Scale(dy, a), Scale(dx, b)); }
      Add(Scale(l, Scale(dy, a)), Scale(l, Scale(dx, b)));
      == { ScaleScale(l, dy, a); ScaleScale(l, dx, b); }
      Add(Scale(l * dy, a), Scale(l * dx, b));
      == { InverseArea(dx, dy); }
      Add(Scale(-1.0 * (1.0 / dx), a), Scale(-1.0 * (1.0 / dy), b));
      == { ScaleScale(-1.0, 1.0 / dx, a); ScaleScale(-1.0, 1.0 / dy, b); }
      Add(Scale(-1.0, Scale(1.0 / dx, a)), Scale(-1.0, Scale(1.0 / dy, b)));
      == { ScaleAddDistributes(-1.0, Scale(1.0 / dx, a), Scale(1.0 / dy, b)); }
      Scale(-1.0, Add(Scale(1.0 / dx, a), Scale(1.0 / dy, b)));
    }
  }

  /** `-(1/(dx*dy))*dy == -(1/dx)` and `-(1/(dx*dy))*dx == -(1/dy)`. */
  lemma InverseArea(dx: real, dy: real)
    requires dx != 0.0 && dy != 0.0
    ensures -(1.0 / (dx * dy)) * dy == -1.0 * (1.0 / dx)
    ensures -(1.0 / (dx * dy)) * dx == -1.0 * (1.0 / dy)
  {
    var l := 1.0 / (dx * dy);
    assert l * (dx * dy) == 1.0;
    assert (l * dy) * dx == 1.0;
    assert (l * dx) * dy == 1.0;
  }

  /**
   * When the flux through every x-face is the same and so is the flux
   * through every y-face, the residual of every cell is zero.
   */
  lemma UniformFluxesGiveZero(fx: Grid, fy: Grid, dx: real, dy: real, v: Vec4, w: Vec4, j: int, c: int)
    requires dx != 0.0 && dy != 0.0
    requires |fx| >= 1 && Shaped(fx, |fx|, |fx[0]|) && |fx[0]| >= 2
    requires Shaped(fy, |fx| + 1, |fx[0]| - 1)
    requires 0 <= j < |fx| && 0 <= c < |fx[0]| - 1
    requires forall jj, f :: 0 <= jj < |fx| && 0 <= f < |fx[jj]| ==> fx[jj][f] == v
    requires forall f, cc :: 0 <= f < |fy| && 0 <= cc < |fy[f]| ==> fy[f][cc] == w
    ensures CellResidual(fx, fy, dx, dy, j, c) == Zero()
  {
    var x := Differences(fx[j], dy)[c];
    var y := Differences(Column(fy, c), dx)[j];
    assert x == Zero() by { UniformFacesCancel(fx[j], dy, v, c); }
    assert y == Zero() by { UniformFacesCancel(Column(fy, c), dx, w, j); }
    calc {
      CellResidual(fx, fy, dx, dy, j, c);
      Scale(-(1.0 / (dx * dy)), Add(Add(Zero(), x), y));
      Scale(-(1.0 / (dx * dy)), Zero());
      { ScaleZero(-(1.0 / (dx * dy))); }
      Zero();
    }
  }
}
