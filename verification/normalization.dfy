/** Normalisation of a selected window (process_single_tr.py, lines 34-38): every voxel
    column is z-scored over the window's rows with the population standard deviation,
    non-finite values are replaced by zero, and the whole matrix is divided by the square
    root of its row count. The floating-point values themselves are not modelled: each
    entry is kept as a symbolic description of what it is computed from. */
module Normalization {

  /** Every row of `m` has exactly `width` entries. */
  predicate Rectangular(m: seq<seq<int>>, width: nat)
  {
    forall i :: 0 <= i < |m| ==> |m[i]| == width
  }

  /** Column `j` of `m`: the time series of one voxel over the rows of the window. */
  function Column(m: seq<seq<int>>, j: nat): (c: seq<int>)
    requires forall i :: 0 <= i < |m| ==> j < |m[i]|
    ensures |c| == |m|
  {
    seq(|m|, i requires 0 <= i < |m| => m[i][j])
  }

  /** One entry of a normalised window, left uninterpreted: it stands for
      `nan_to_num(zscore(series))[row] / sqrt(rows)`, where `series` is the voxel's
      column over the window and `rows` is the window's row count. */
  datatype Cell = Standardized(series: seq<int>, row: nat, rows: nat)

  /** The normalised form of a `|m|` by `width` window: the shape of the input. */
  function Normalize(m: seq<seq<int>>, width: nat): (r: seq<seq<Cell>>)
    requires Rectangular(m, width)
    ensures |r| == |m|
    ensures forall i :: 0 <= i < |r| ==> |r[i]| == width
  {
    seq(|m|, i requires 0 <= i < |m| =>
      seq(width, j requires 0 <= j < width => Standardized(Column(m, j), i, |m|)))
  }

  /** Each entry is standardised against its own voxel's column, at its own row, and
      divided by the square root of the window's row count. */
  lemma NormalizeEntries(m: seq<seq<int>>, width: nat)
    requires Rectangular(m, width)
    ensures forall i, j :: 0 <= i < |m| && 0 <= j < width ==>
      var c := Normalize(m, width)[i][j];
      c.row == i && c.series == Column(m, j) && c.rows == |m|
  {
    var r: seq<seq<Cell>> := Normalize(m, width);
    forall i, j | 0 <= i < |m| && 0 <= j < width
      ensures r[i][j].row == i && r[i][j].series == Column(m, j) && r[i][j].rows == |m|
    {
      var row := seq(width, j requires 0 <= j < width => Standardized(Column(m, j), i, |m|));
      assert r[i] == row;
      assert r[i][j] == Standardized(Column(m, j), i, |m|);
    }
  }

  /** An entry's series holds the raw value it was computed from at its own row. */
  lemma NormalizeKeepsRawValue(m: seq<seq<int>>, width: nat, i: nat, j: nat)
    requires Rectangular(m, width)
    requires i < |m| && j < width
    ensures var c := Normalize(m, width)[i][j];
      c.row < |c.series| && c.series[c.row] == m[i][j]
  {
    NormalizeEntries(m, width);
  }

  /** Columns are normalised independently: two windows of the same length that agree
      on voxel `j`'s column have the same normalised column `j`, whatever the other
      voxels hold. */
  lemma NormalizeIsColumnwise(a: seq<seq<int>>, b: seq<seq<int>>, width: nat, j: nat)
    requires Rectangular(a, width) && Rectangular(b, width)
    requires |a| == |b| && j < width
    requires forall i :: 0 <= i < |a| ==> a[i][j] == b[i][j]
    ensures forall i :: 0 <= i < |a| ==> Normalize(a, width)[i][j] == Normalize(b, width)[i][j]
  {
    NormalizeEntries(a, width);
    NormalizeEntries(b, width);
    assert Column(a, j) == Column(b, j);
  }
}
