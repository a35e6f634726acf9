/** Greyscale and binary pixel matrices, the threshold step of the captcha
    preprocessor and the fixed-pitch character cells cut out of its result.
    A matrix is a sequence of rows; numpy arrays are always rectangular, which
    `IsRect` states where it is needed. */
module Matrices {

  type Matrix = seq<seq<int>>

  /** Grey values strictly above this become white (255), the rest black (0). */
  const Threshold: int := 128
  const White: int := 255
  const Black: int := 0

  /** Every character cell is this many columns wide, and starts this many
      columns after the previous one. */
  const CellWidth: nat := 10

  /** `m` has exactly `h` rows of exactly `w` columns each. */
  predicate IsRect(m: Matrix, h: nat, w: nat)
  {
    |m| == h && forall i :: 0 <= i < h ==> |m[i]| == w
  }

  /** `a` and `b` have the same number of rows and equally long rows. */
  predicate SameShape(a: Matrix, b: Matrix)
  {
    |a| == |b| && forall i :: 0 <= i < |a| ==> |a[i]| == |b[i]|
  }

  /** Every pixel of `m` is black or white. */
  predicate IsBinary(m: Matrix)
  {
    forall i, j :: 0 <= i < |m| && 0 <= j < |m[i]| ==> m[i][j] == Black || m[i][j] == White
  }

  /** The threshold step of the preprocessor: `(matrix > 128) * 255`. */
  function Binarize(grey: Matrix): (bin: Matrix)
    ensures SameShape(bin, grey)
    ensures IsBinary(bin)
    ensures forall i, j :: 0 <= i < |bin| && 0 <= j < |bin[i]| ==> (bin[i][j] == White <==> grey[i][j] > Threshold)
  {
    seq(|grey|, i requires 0 <= i < |grey| =>
      seq(|grey[i]|, j requires 0 <= j < |grey[i]| => if grey[i][j] > Threshold then White else Black))
  }

  function Min(a: int, b: int): int
  {
    if a <= b then a else b
  }

  /** The cell at `position`: every row, columns [10 * position, 10 * position + 10).
      Like a numpy slice, the window is cut short at the right edge of a row and
      is empty past it. */
  function ExtractCell(m: Matrix, position: nat): (cell: Matrix)
    ensures |cell| == |m|
    ensures forall i :: 0 <= i < |m| ==>
      |cell[i]| == (if position * CellWidth + CellWidth <= |m[i]| then CellWidth
                    else if position * CellWidth <= |m[i]| then |m[i]| - position * CellWidth
                    else 0)
    ensures forall i, j :: 0 <= i < |m| && 0 <= j < |cell[i]| ==> cell[i][j] == m[i][position * CellWidth + j]
  {
    seq(|m|, i requires 0 <= i < |m| =>
      m[i][Min(position * CellWidth, |m[i]|)..Min(position * CellWidth + CellWidth, |m[i]|)])
  }

  /** Row `i` of the cells 0 .. n-1 laid side by side again. */
  function CellsRow(m: Matrix, i: nat, n: nat): seq<int>
    requires i < |m|
  {
    if n == 0 then [] else CellsRow(m, i, n - 1) + ExtractCell(m, n - 1)[i]
  }

  /** A cell that fits inside a rectangular matrix is a full-height, ten-column
      window onto it. */
  lemma CellFits(m: Matrix, h: nat, w: nat, position: nat)
    requires IsRect(m, h, w)
    requires position * CellWidth + CellWidth <= w
    ensures IsRect(ExtractCell(m, position), h, CellWidth)
    ensures forall i, j :: 0 <= i < h && 0 <= j < CellWidth ==> ExtractCell(m, position)[i][j] == m[i][position * CellWidth + j]
  {
  }

  /** Cells 0 .. n-1 put side by side give back the first 10 * n columns of
      every row: the segmentation neither drops nor repeats a column. */
  lemma {:induction false} CellsCoverColumns(m: Matrix, i: nat, n: nat)
    requires i < |m|
    requires n * CellWidth <= |m[i]|
    ensures CellsRow(m, i, n) == m[i][..n * CellWidth]
  {
    if n > 0 {
      CellsCoverColumns(m, i, n - 1);
      var row := m[i];
      assert ExtractCell(m, n - 1)[i] == row[(n - 1) * CellWidth..n * CellWidth];
      assert row[..(n - 1) * CellWidth] + row[(n - 1) * CellWidth..n * CellWidth] == row[..n * CellWidth];
    }
  }

  /** On the 20 x 70 captcha matrix the six cells read by the solver are each
      20 x 10, together they are exactly the first 60 columns, and the seventh
      window (columns 60 to 69) is the one left unread. */
  lemma CaptchaCells(m: Matrix)
    requires IsRect(m, 20, 70)
    ensures forall p :: 0 <= p < 6 ==> IsRect(ExtractCell(m, p), 20, CellWidth)
    ensures forall i :: 0 <= i < 20 ==> CellsRow(m, i, 6) == m[i][..60]
    ensures forall i :: 0 <= i < 20 ==> m[i] == CellsRow(m, i, 6) + ExtractCell(m, 6)[i]
  {
    forall p | 0 <= p < 6
      ensures IsRect(ExtractCell(m, p), 20, CellWidth)
    {
      CellFits(m, 20, 70, p);
    }
    forall i | 0 <= i < 20
      ensures CellsRow(m, i, 6) == m[i][..60]
      ensures m[i] == CellsRow(m, i, 6) + ExtractCell(m, 6)[i]
    {
      CellsCoverColumns(m, i, 6);
      assert ExtractCell(m, 6)[i] == m[i][60..70];
      assert m[i] == m[i][..60] + m[i][60..70];
    }
  }
}
