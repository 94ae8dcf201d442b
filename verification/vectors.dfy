/**
 * The four-component state stored at every grid point (`nvar == 4`):
 * a conserved state (density, x-momentum, y-momentum, total energy), a
 * primitive state (density, x-velocity, y-velocity, pressure), a split
 * flux or a residual.  The C code works on `double[4]` and loops over
 * the component index `d`; here those loops become the component-wise
 * operations below.
 */
module Vectors {

  datatype Vec4 = Vec4(c0: real, c1: real, c2: real, c3: real)

  function Zero(): Vec4 { Vec4(0.0, 0.0, 0.0, 0.0) }

  function Add(a: Vec4, b: Vec4): Vec4
  {
    Vec4(a.c0 + b.c0, a.c1 + b.c1, a.c2 + b.c2, a.c3 + b.c3)
  }

  function Sub(a: Vec4, b: Vec4): Vec4
  {
    Vec4(a.c0 - b.c0, a.c1 - b.c1, a.c2 - b.c2, a.c3 - b.c3)
  }

  function Scale(k: real, a: Vec4): Vec4
  {
    Vec4(k * a.c0, k * a.c1, k * a.c2, k * a.c3)
  }

  lemma MulNonNegative(x: real, y: real)
    requires x >= 0.0 && y >= 0.0
    ensures x * y >= 0.0
  {
  }

  lemma ScaleZero(k: real)
    ensures Scale(k, Zero()) == Zero()
  {
  }

  lemma ScaleSubDistributes(h: real, a: Vec4, b: Vec4)
    ensures Sub(Scale(h, a), Scale(h, b)) == Scale(h, Sub(a, b))
  {
    assert h * a.c0 - h * b.c0 == h * (a.c0 - b.c0);
    assert h * a.c1 - h * b.c1 == h * (a.c1 - b.c1);
    assert h * a.c2 - h * b.c2 == h * (a.c2 - b.c2);
    assert h * a.c3 - h * b.c3 == h * (a.c3 - b.c3);
  }

  lemma ScaleAddDistributes(k: real, a: Vec4, b: Vec4)
    ensures Scale(k, Add(a, b)) == Add(Scale(k, a), Scale(k, b))
  {
    assert k * (a.c0 + b.c0) == k * a.c0 + k * b.c0;
    assert k * (a.c1 + b.c1) == k * a.c1 + k * b.c1;
    assert k * (a.c2 + b.c2) == k * a.c2 + k * b.c2;
    assert k * (a.c3 + b.c3) == k * a.c3 + k * b.c3;
  }

  lemma ScaleScale(k: real, h: real, a: Vec4)
    ensures Scale(k, Scale(h, a)) == Scale(k * h, a)
  {
    assert k * (h * a.c0) == (k * h) * a.c0;
    assert k * (h * a.c1) == (k * h) * a.c1;
    assert k * (h * a.c2) == (k * h) * a.c2;
    assert k * (h * a.c3) == (k * h) * a.c3;
  }

  /** Component-wise sum of a sequence of vectors. */
  function Sum(s: seq<Vec4>): Vec4
  {
    if s == [] then Zero() else Add(Sum(s[..|s| - 1]), s[|s| - 1])
  }

  /** A grid of vectors, row by row: `g[j][i]` is the value at row j, column i. */
  type Grid = seq<seq<Vec4>>

  predicate Shaped(g: Grid, rows: int, cols: int)
  {
    |g| == rows && forall j :: 0 <= j < |g| ==> |g[j]| == cols
  }

  /** The contents of a two-dimensional array as a grid. */
  function Rows(a: array2<Vec4>): (g: Grid)
    reads a
    ensures Shaped(g, a.Length0, a.Length1)
    ensures forall j, i :: 0 <= j < a.Length0 && 0 <= i < a.Length1 ==> g[j][i] == a[j, i]
  {
    seq(a.Length0, j requires 0 <= j < a.Length0 reads a =>
      seq(a.Length1, i requires 0 <= i < a.Length1 reads a => a[j, i]))
  }

  /** Two grids of the same shape that agree everywhere are equal. */
  lemma GridExt(g: Grid, h: Grid, rows: int, cols: int)
    requires Shaped(g, rows, cols) && Shaped(h, rows, cols)
    requires forall j, i :: 0 <= j < rows && 0 <= i < cols ==> g[j][i] == h[j][i]
    ensures g == h
  {
    forall j | 0 <= j < rows
      ensures g[j] == h[j]
    {
      assert forall i :: 0 <= i < cols ==> g[j][i] == h[j][i];
    }
  }
}
