/** The row-major painters: the single-pixel loop of the simple script and
    the block loop of the text script, each checked against a cell-by-cell
    reference image. */
module Painter {
  import opened Nucleotides
  import opened Dimensions
  import opened Layout

  /** A pixel buffer indexed `[row][column]`; numpy's third axis is the `Rgb`. */
  type Image = seq<seq<Rgb>>

  /** `img` has `rows` rows of `cols` pixels each. */
  ghost predicate Shaped(img: Image, rows: nat, cols: nat) {
    |img| == rows && forall y :: 0 <= y < rows ==> |img[y]| == cols
  }

  /** Two images of the same shape with the same pixels are equal. */
  lemma SamePixels(a: Image, b: Image, rows: nat, cols: nat)
    requires Shaped(a, rows, cols) && Shaped(b, rows, cols)
    requires forall y, x :: 0 <= y < rows && 0 <= x < cols ==> a[y][x] == b[y][x]
    ensures a == b
  {
    assert forall y | 0 <= y < rows :: a[y] == b[y];
  }

  /** `np.zeros((rows, cols, 3), dtype=np.uint8)`: an all-black buffer. */
  function Blank(rows: nat, cols: nat): (img: Image)
    ensures Shaped(img, rows, cols)
    ensures forall y, x :: 0 <= y < rows && 0 <= x < cols ==> img[y][x] == Black
  {
    seq(rows, _ => seq(cols, _ => Black))
  }

  /** Reference colour of cell `(y, x)` in a grid of width `w`: the colour of
      the symbol whose row-major index the cell has, or black when the
      sequence is shorter than that. */
  function CellColor(s: string, w: nat, y: nat, x: nat): Rgb {
    if Index(y, x, w) < |s| then ColorOf(s[Index(y, x, w)]) else Black
  }

  /** The reference simple-mode image, defined cell by cell. */
  function CellImage(s: string, g: Grid): (img: Image)
    ensures Shaped(img, g.height, g.width)
  {
    seq(g.height, y requires 0 <= y => seq(g.width, x requires 0 <= x => CellColor(s, g.width, y, x)))
  }

  /** One pixel row stretched so that each pixel repeats `scale` times. */
  function StretchRow(row: seq<Rgb>, cols: nat, scale: Pos): (wide: seq<Rgb>)
    requires |row| == cols
    ensures |wide| == cols * scale
  {
    seq(cols * scale, px requires 0 <= px < cols * scale =>
      RowBelowHeight(px, scale, cols);
      row[px / scale])
  }

  /** Each `scale x scale` square of the result repeats one pixel of `img`. */
  function Upscale(img: Image, rows: nat, cols: nat, scale: Pos): (big: Image)
    requires Shaped(img, rows, cols)
    ensures Shaped(big, rows * scale, cols * scale)
  {
    seq(rows * scale, py requires 0 <= py < rows * scale =>
      RowBelowHeight(py, scale, rows);
      StretchRow(img[py / scale], cols, scale))
  }

  /** The simple-mode loop: symbol `i` is written to cell
      `(i // width, i % width)`, and the loop breaks at the first symbol whose
      row is not below the height. */
  method Paint(s: string, g: Grid) returns (img: Image)
    requires |s| > 0 ==> g.width > 0
    ensures img == CellImage(s, g)
  {
    img := Blank(g.height, g.width);
    var i := 0;
    while i < |s|
      invariant i <= |s| && i <= g.width * g.height
      invariant Shaped(img, g.height, g.width)
      invariant forall y, x :: 0 <= y < g.height && 0 <= x < g.width ==>
        img[y][x] == (if Index(y, x, g.width) < i then ColorOf(s[Index(y, x, g.width)]) else Black)
    {
      var row := Row(i, g.width);
      var col := Col(i, g.width);
      RowBelowHeight(i, g.width, g.height);
      if row >= g.height {
        break;
      }
      IndexOfCell(i, g.width);
      img := img[row := img[row][col := ColorOf(s[i])]];
      forall y, x | 0 <= y < g.height && 0 <= x < g.width
        ensures img[y][x] ==
          (if Index(y, x, g.width) < i + 1 then ColorOf(s[Index(y, x, g.width)]) else Black)
      {
        CellOfIndex(y, x, g.width);
      }
      i := i + 1;
    }
    var cells := CellImage(s, g);
    forall y, x | 0 <= y < g.height && 0 <= x < g.width
      ensures img[y][x] == cells[y][x]
    {
      IndexInGrid(y, x, g.width, g.height);
    }
    SamePixels(img, cells, g.height, g.width);
  }

  /** `img[start_y:end_y, start_x:end_x] = color`: paints the `bs x bs`
      square with top-left corner `(y0, x0)` and leaves every other pixel. */
  function FillBlock(img: Image, y0: nat, x0: nat, bs: nat, color: Rgb): (r: Image)
    ensures |r| == |img|
    ensures forall py :: 0 <= py < |img| ==> |r[py]| == |img[py]|
    ensures forall py, px :: 0 <= py < |r| && 0 <= px < |r[py]| ==>
      r[py][px] == (if y0 <= py < y0 + bs && x0 <= px < x0 + bs then color else img[py][px])
  {
    seq(|img|, py requires 0 <= py < |img| =>
      seq(|img[py]|, px requires 0 <= px < |img[py]| =>
        if y0 <= py < y0 + bs && x0 <= px < x0 + bs then color else img[py][px]))
  }

  /** Colour of pixel `(py, px)` once the blocks of the first `n` symbols are
      painted. */
  function PixelAfter(s: string, w: nat, bs: Pos, n: nat, py: nat, px: nat): Rgb {
    var k := Index(py / bs, px / bs, w);
    if k < n && k < |s| then ColorOf(s[k]) else Black
  }

  /** Loop invariant of the block painter: the blocks of the first `i`
      symbols carry their colours and every other pixel is still black. */
  ghost predicate BlocksPaintedUpTo(img: Image, s: string, g: Grid, bs: Pos, i: nat) {
    && i <= |s|
    && Shaped(img, g.height * bs, g.width * bs)
    && forall py, px :: 0 <= py < g.height * bs && 0 <= px < g.width * bs ==>
         img[py][px] == PixelAfter(s, g.width, bs, i, py, px)
  }

  /** One pixel of one iteration: filling the block of symbol `i` turns the
      pixel's colour after `i` symbols into its colour after `i + 1`. */
  lemma FillPixel(s: string, w: Pos, bs: Pos, i: nat, py: nat, px: nat, before: Rgb, after: Rgb)
    requires i < |s| && px < w * bs
    requires before == PixelAfter(s, w, bs, i, py, px)
    requires after == (if Row(i, w) * bs <= py < Row(i, w) * bs + bs && Col(i, w) * bs <= px < Col(i, w) * bs + bs
                       then ColorOf(s[i]) else before)
    ensures after == PixelAfter(s, w, bs, i + 1, py, px)
  {
    InBlockOf(py, px, bs, w, i);
  }

  /** Pixel `(py, px)` lies in the block of symbol `i` exactly when its block
      coordinates address index `i`. */
  lemma InBlockOf(py: nat, px: nat, bs: Pos, w: Pos, i: nat)
    requires px < w * bs
    ensures var row, col := Row(i, w), Col(i, w);
      (row * bs <= py < row * bs + bs && col * bs <= px < col * bs + bs)
      <==> Index(py / bs, px / bs, w) == i
  {
    var row, col := Row(i, w), Col(i, w);
    IndexOfCell(i, w);
    BlockOfPixel(py, bs, row);
    BlockOfPixel(px, bs, col);
    RowBelowHeight(px, bs, w);
    CellOfIndex(py / bs, px / bs, w);
  }

  /** One iteration of the block loop: filling the block of symbol `i` extends
      the invariant to `i + 1`. */
  lemma FillBlockStep(img: Image, s: string, g: Grid, bs: Pos, i: nat)
    requires g.width > 0 && i < |s| && Row(i, g.width) < g.height
    requires BlocksPaintedUpTo(img, s, g, bs, i)
    ensures BlocksPaintedUpTo(
      FillBlock(img, Row(i, g.width) * bs, Col(i, g.width) * bs, bs, ColorOf(s[i])), s, g, bs, i + 1)
  {
    var row, col := Row(i, g.width), Col(i, g.width);
    IndexOfCell(i, g.width);
    var img' := FillBlock(img, row * bs, col * bs, bs, ColorOf(s[i]));
    forall py, px | 0 <= py < g.height * bs && 0 <= px < g.width * bs
      ensures img'[py][px] == PixelAfter(s, g.width, bs, i + 1, py, px)
    {
      FillPixel(s, g.width, bs, i, py, px, img[py][px], img'[py][px]);
    }
  }

  /** Once the loop has stopped, the colour of a pixel after the painted
      symbols is the reference colour of its cell. */
  lemma DonePixel(s: string, g: Grid, bs: Pos, i: nat, py: nat, px: nat)
    requires i == PaintedCount(|s|, g)
    requires py / bs < g.height && px / bs < g.width
    ensures PixelAfter(s, g.width, bs, i, py, px) == CellColor(s, g.width, py / bs, px / bs)
  {
    IndexInGrid(py / bs, px / bs, g.width, g.height);
  }

  /** When the loop stops, the invariant is the upscaled reference image. */
  lemma BlocksPaintedDone(img: Image, s: string, g: Grid, bs: Pos, i: nat)
    requires i == PaintedCount(|s|, g)
    requires BlocksPaintedUpTo(img, s, g, bs, i)
    ensures img == Upscale(CellImage(s, g), g.height, g.width, bs)
  {
    var rows, cols := g.height * bs, g.width * bs;
    var cells := CellImage(s, g);
    var big := Upscale(cells, g.height, g.width, bs);
    forall py, px | 0 <= py < rows && 0 <= px < cols
      ensures img[py][px] == big[py][px]
    {
      UpscaleAt(cells, g.height, g.width, bs, py, px);
      DonePixel(s, g, bs, i, py, px);
    }
    SamePixels(img, big, rows, cols);
  }

  /** The block-mode loop: symbol `i` fills the `bs x bs` square at block
      `(i // width, i % width)`; it breaks like the simple loop. The result is
      the simple-mode reference image with every cell blown up to a block. */
  method PaintBlocks(s: string, g: Grid, bs: Pos) returns (img: Image, painted: nat)
    requires |s| > 0 ==> g.width > 0
    ensures img == Upscale(CellImage(s, g), g.height, g.width, bs)
    ensures painted == PaintedCount(|s|, g)
  {
    img := Blank(g.height * bs, g.width * bs);
    var i := 0;
    while i < |s|
      invariant i <= |s| && i <= g.width * g.height
      invariant BlocksPaintedUpTo(img, s, g, bs, i)
    {
      var row := Row(i, g.width);
      var col := Col(i, g.width);
      RowBelowHeight(i, g.width, g.height);
      if row >= g.height {
        break;
      }
      FillBlockStep(img, s, g, bs, i);
      img := FillBlock(img, row * bs, col * bs, bs, ColorOf(s[i]));
      i := i + 1;
    }
    BlocksPaintedDone(img, s, g, bs, i);
    painted := i;
  }

  /** The reference image holds symbol `i`'s colour at cell
      `(i // width, i % width)` for every painted `i`. */
  lemma CellImageAt(s: string, g: Grid, i: nat)
    requires g.width > 0 && i < PaintedCount(|s|, g)
    ensures Row(i, g.width) < g.height
    ensures CellImage(s, g)[Row(i, g.width)][Col(i, g.width)] == ColorOf(s[i])
  {
    RowBelowHeight(i, g.width, g.height);
    IndexOfCell(i, g.width);
  }

  /** The reference image holds symbol `i`'s colour at cell
      `(i // width, i % width)` for every painted `i`, and black in every cell
      whose index was not painted. */
  lemma CellImageContents(s: string, g: Grid)
    requires g.width > 0
    ensures forall i :: 0 <= i < PaintedCount(|s|, g) ==>
      Row(i, g.width) < g.height && CellImage(s, g)[Row(i, g.width)][Col(i, g.width)] == ColorOf(s[i])
    ensures forall y, x :: 0 <= y < g.height && 0 <= x < g.width && Index(y, x, g.width) >= PaintedCount(|s|, g) ==>
      CellImage(s, g)[y][x] == Black
  {
    var img := CellImage(s, g);
    forall i | 0 <= i < PaintedCount(|s|, g)
      ensures Row(i, g.width) < g.height && img[Row(i, g.width)][Col(i, g.width)] == ColorOf(s[i])
    {
      CellImageAt(s, g, i);
    }
    forall y, x | 0 <= y < g.height && 0 <= x < g.width && Index(y, x, g.width) >= PaintedCount(|s|, g)
      ensures img[y][x] == Black
    {
      IndexInGrid(y, x, g.width, g.height);
    }
  }

  /** A coordinate inside the span of block `r` of `n` blocks lies inside the
      buffer and belongs to block `r`. */
  lemma InsideSpan(p: nat, bs: Pos, r: nat, n: nat)
    requires r < n && r * bs <= p < r * bs + bs
    ensures p < n * bs && p / bs == r
  {
    ProductMonotone(r + 1, n, bs);
    BlockOfPixel(p, bs, r);
  }

  /** Block mode: every pixel of the square of a painted symbol lies inside
      the buffer and has that symbol's colour. */
  lemma BlockContents(s: string, g: Grid, bs: Pos, i: nat, py: nat, px: nat)
    requires g.width > 0 && i < PaintedCount(|s|, g)
    requires Row(i, g.width) * bs <= py < Row(i, g.width) * bs + bs
    requires Col(i, g.width) * bs <= px < Col(i, g.width) * bs + bs
    ensures py < g.height * bs && px < g.width * bs
    ensures Upscale(CellImage(s, g), g.height, g.width, bs)[py][px] == ColorOf(s[i])
  {
    var row, col := Row(i, g.width), Col(i, g.width);
    CellImageAt(s, g, i);
    IndexOfCell(i, g.width);
    InsideSpan(py, bs, row, g.height);
    InsideSpan(px, bs, col, g.width);
    UpscaleAt(CellImage(s, g), g.height, g.width, bs, py, px);
  }

  /** Pixel `(py, px)` of an upscaled image is the pixel of its block. */
  lemma UpscaleAt(img: Image, rows: nat, cols: nat, scale: Pos, py: nat, px: nat)
    requires Shaped(img, rows, cols)
    requires py < rows * scale && px < cols * scale
    ensures py / scale < rows && px / scale < cols
    ensures Upscale(img, rows, cols, scale)[py][px] == img[py / scale][px / scale]
  {
    RowBelowHeight(py, scale, rows);
    RowBelowHeight(px, scale, cols);
  }

  /** Block mode: a pixel whose block was never painted stays black. */
  lemma UnpaintedBlocksBlack(s: string, g: Grid, bs: Pos, py: nat, px: nat)
    requires g.width > 0
    requires py < g.height * bs && px < g.width * bs
    requires Index(py / bs, px / bs, g.width) >= PaintedCount(|s|, g)
    ensures Upscale(CellImage(s, g), g.height, g.width, bs)[py][px] == Black
  {
    RowBelowHeight(py, bs, g.height);
    RowBelowHeight(px, bs, g.width);
    IndexInGrid(py / bs, px / bs, g.width, g.height);
  }

  /** The squares of two different symbols share no pixel. */
  lemma BlocksDisjoint(w: Pos, bs: Pos, i: nat, j: nat, py: nat, px: nat)
    requires i != j
    requires Row(i, w) * bs <= py < Row(i, w) * bs + bs && Col(i, w) * bs <= px < Col(i, w) * bs + bs
    ensures !(Row(j, w) * bs <= py < Row(j, w) * bs + bs && Col(j, w) * bs <= px < Col(j, w) * bs + bs)
  {
    IndexOfCell(i, w);
    ProductMonotone(Col(i, w) + 1, w, bs);
    InBlockOf(py, px, bs, w, i);
    InBlockOf(py, px, bs, w, j);
  }
}
