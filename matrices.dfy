/** Matrices of cells: the board grid, piece shapes, and the clockwise rotation of a shape. */
module Matrices {

  /** A row-major matrix of cells; 0 is an empty cell, any other value an occupied one. */
  type Grid = seq<seq<int>>

  /** `m` has exactly `h` rows of exactly `w` cells. */
  predicate IsRect(m: Grid, h: nat, w: nat)
  {
    |m| == h && forall i :: 0 <= i < h ==> |m[i]| == w
  }

  /** A piece shape: a non-empty rectangular matrix whose cells are 0 or 1. */
  predicate IsShape(s: Grid)
  {
    |s| > 0 && |s[0]| > 0 && IsRect(s, |s|, |s[0]|) &&
    forall i, j :: 0 <= i < |s| && 0 <= j < |s[i]| ==> s[i][j] == 0 || s[i][j] == 1
  }

  /** The cells of column `i`, read from the top row to the bottom row. */
  function Column(m: Grid, i: nat): seq<int>
    requires forall k :: 0 <= k < |m| ==> i < |m[k]|
  {
    seq(|m|, k requires 0 <= k < |m| => m[k][i])
  }

  /** The cells of `s` in the opposite order. */
  function Reverse(s: seq<int>): seq<int>
  {
    seq(|s|, k requires 0 <= k < |s| => s[|s| - 1 - k])
  }

  /**
   * Quarter turn clockwise: row `i` of the result is column `i` of `s`
   * read from the bottom up, so an h-by-w matrix becomes w-by-h.
   */
  function Rotate(s: Grid): (r: Grid)
    requires |s| > 0 && IsRect(s, |s|, |s[0]|)
    ensures IsRect(r, |s[0]|, |s|)
    ensures forall i, j :: 0 <= i < |s[0]| && 0 <= j < |s| ==> r[i][j] == s[|s| - 1 - j][i]
    ensures IsShape(s) ==> IsShape(r)
  {
    seq(|s[0]|, i requires 0 <= i < |s[0]| => Reverse(Column(s, i)))
  }

  /** Two quarter turns are a half turn: the matrix read backwards in both directions. */
  lemma RotateTwice(s: Grid)
    requires |s| > 0 && |s[0]| > 0 && IsRect(s, |s|, |s[0]|)
    ensures |Rotate(s)| > 0
    ensures IsRect(Rotate(Rotate(s)), |s|, |s[0]|)
    ensures forall i, j :: 0 <= i < |s| && 0 <= j < |s[0]| ==>
      Rotate(Rotate(s))[i][j] == s[|s| - 1 - i][|s[0]| - 1 - j]
  {
  }

  /** Four quarter turns give back the original rectangular matrix. */
  lemma {:induction false} RotateFour(s: Grid)
    requires |s| > 0 && |s[0]| > 0 && IsRect(s, |s|, |s[0]|)
    ensures |Rotate(s)| > 0 && |Rotate(Rotate(s))| > 0 && |Rotate(Rotate(Rotate(s)))| > 0
    ensures Rotate(Rotate(Rotate(Rotate(s)))) == s
  {
    var h, w := |s|, |s[0]|;
    RotateTwice(s);
    var half := Rotate(Rotate(s));
    RotateTwice(half);
    var full := Rotate(Rotate(half));
    forall i, j | 0 <= i < h && 0 <= j < w
      ensures full[i][j] == s[i][j]
    {
      assert full[i][j] == half[h - 1 - i][w - 1 - j];
    }
    SameCells(full, s, h, w);
  }

  /** Two `h` by `w` matrices that agree cell by cell are equal. */
  lemma SameCells(a: Grid, b: Grid, h: nat, w: nat)
    requires IsRect(a, h, w) && IsRect(b, h, w)
    requires forall i, j :: 0 <= i < h && 0 <= j < w ==> a[i][j] == b[i][j]
    ensures a == b
  {
    forall i | 0 <= i < h
      ensures a[i] == b[i]
    {
    }
  }
}
