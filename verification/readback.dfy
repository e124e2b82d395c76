/** Reading a painted grid back into letters: the inverse of the simple-mode
    painter, which shows that the image encodes the painted prefix of the
    sequence without loss. */
module Readback {
  import opened Nucleotides
  import opened Dimensions
  import opened Layout
  import opened Painter

  /** The letters of the cells from index `k` on, read row-major, up to the
      first cell whose colour is not a base colour. */
  function ReadFrom(img: Image, g: Grid, k: nat): string
    requires g.width > 0 && Shaped(img, g.height, g.width)
    decreases g.width * g.height - k
  {
    if k >= g.width * g.height then []
    else
      RowBelowHeight(k, g.width, g.height);
      IndexOfCell(k, g.width);
      match BaseOfColor(img[Row(k, g.width)][Col(k, g.width)])
      case None => []
      case Some(n) => [Letter(n)] + ReadFrom(img, g, k + 1)
  }

  /** The letters of a painted grid, read row-major from its first cell. */
  function ReadBack(img: Image, g: Grid): string
    requires g.width > 0 && Shaped(img, g.height, g.width)
  {
    ReadFrom(img, g, 0)
  }

  lemma {:induction false} ReadFromPainted(s: string, g: Grid, k: nat)
    requires g.width > 0
    requires forall i :: 0 <= i < |s| ==> IsNucleotide(s[i])
    requires k <= PaintedCount(|s|, g)
    ensures ReadFrom(CellImage(s, g), g, k) == s[k..PaintedCount(|s|, g)]
    decreases g.width * g.height - k
  {
    var img, n := CellImage(s, g), PaintedCount(|s|, g);
    if k < n {
      RowBelowHeight(k, g.width, g.height);
      IndexOfCell(k, g.width);
      var base := Parse(s[k]).value;
      assert img[Row(k, g.width)][Col(k, g.width)] == Color(base);
      BaseOfColorInverse(base);
      ReadFromPainted(s, g, k + 1);
      assert s[k..n] == [s[k]] + s[k + 1..n];
    } else if k < g.width * g.height {
      RowBelowHeight(k, g.width, g.height);
      IndexOfCell(k, g.width);
      assert img[Row(k, g.width)][Col(k, g.width)] == Black;
      BaseOfColorInverse(A);
    }
  }

  /** Painting a normalized sequence and reading the grid back gives the
      painted prefix of the sequence; with an automatically resolved grid,
      the whole sequence. */
  lemma PaintThenReadBack(s: string, g: Grid)
    requires g.width > 0
    requires forall i :: 0 <= i < |s| ==> IsNucleotide(s[i])
    ensures ReadBack(CellImage(s, g), g) == s[..PaintedCount(|s|, g)]
    ensures PaintedCount(|s|, g) == |s| ==> ReadBack(CellImage(s, g), g) == s
  {
    ReadFromPainted(s, g, 0);
  }
}
