/** Row-major index arithmetic shared by the painters and the glyph planner:
    symbol `i` sits in row `i // width`, column `i % width`, and the loops break
    at the first index whose row is not below the height. */
module Layout {
  import opened Wrappers
  import opened Dimensions

  /** `idx // width` */
  function Row(i: nat, w: Pos): nat { i / w }

  /** `idx % width` */
  function Col(i: nat, w: Pos): nat { i % w }

  /** The row-major index of cell `(y, x)` in a grid of width `w`. */
  function Index(y: nat, x: nat, w: nat): nat { y * w + x }

  lemma ProductMonotone(a: int, b: int, w: nat)
    requires a <= b
    ensures a * w <= b * w
  {
  }

  /** Addressing and indexing are inverse: the cell of index `Index(y, x, w)`
      is `(y, x)` whenever the column lies inside the grid. */
  lemma CellOfIndex(y: nat, x: nat, w: Pos)
    requires x < w
    ensures Row(Index(y, x, w), w) == y && Col(Index(y, x, w), w) == x
  {
    var i := Index(y, x, w);
    var q, r := i / w, i % w;
    assert i == q * w + r;
    if q < y {
      ProductMonotone(q + 1, y, w);
    } else if y < q {
      ProductMonotone(y + 1, q, w);
    }
  }

  /** Every index has a cell with its column inside the grid, and that cell's index is it. */
  lemma IndexOfCell(i: nat, w: Pos)
    ensures Col(i, w) < w
    ensures Index(Row(i, w), Col(i, w), w) == i
  {
  }

  /** The loop guard: an index's row is below the height exactly when the
      index is below the grid's capacity. */
  lemma RowBelowHeight(i: nat, w: Pos, h: nat)
    ensures Row(i, w) < h <==> i < w * h
  {
    IndexOfCell(i, w);
    var y := Row(i, w);
    if y < h {
      ProductMonotone(y + 1, h, w);
    } else {
      ProductMonotone(h, y, w);
    }
  }

  /** A cell inside the grid has an index below its capacity. */
  lemma IndexInGrid(y: nat, x: nat, w: Pos, h: nat)
    requires y < h && x < w
    ensures Index(y, x, w) < w * h
  {
    ProductMonotone(y + 1, h, w);
  }

  /** The number of symbols both loops handle before they run out of
      symbols or break on a full grid. */
  function PaintedCount(total: nat, g: Grid): nat
  {
    if total <= g.width * g.height then total else g.width * g.height
  }

  /** `PaintedCount` is where the loops stop: every index below it has a row
      inside the grid, and at it either the symbols ran out or the row is
      out of the grid. */
  lemma PaintedCountIsFirstBreak(total: nat, g: Grid)
    requires total > 0 ==> g.width > 0
    ensures var n := PaintedCount(total, g);
      && n <= total
      && (g.width > 0 ==> forall i: nat :: i < n ==> Row(i, g.width) < g.height)
      && (n == total || Row(n, g.width) >= g.height)
  {
    var n := PaintedCount(total, g);
    if g.width > 0 {
      forall i: nat | i < n ensures Row(i, g.width) < g.height {
        RowBelowHeight(i, g.width, g.height);
      }
      RowBelowHeight(n, g.width, g.height);
    }
  }

  /** A pixel coordinate falls in the block span `[r * bs, r * bs + bs)`
      exactly when its block coordinate `p // bs` is `r`. */
  lemma BlockOfPixel(p: nat, bs: Pos, r: nat)
    ensures r * bs <= p < r * bs + bs <==> p / bs == r
  {
    if r * bs <= p < r * bs + bs {
      CellOfIndex(r, p - r * bs, bs);
    } else {
      IndexOfCell(p, bs);
    }
  }

  /** When at least one dimension is resolved automatically no symbol is
      dropped: the loops paint the whole sequence. */
  lemma AutomaticPaintsAll(total: nat, width: Option<Pos>, height: Option<Pos>)
    requires Automatic(width, height)
    ensures PaintedCount(total, Resolve(total, width, height)) == total
  {
    ResolveFits(total, width, height);
  }

  /** Caller-fixed dimensions that are too small truncate: ten symbols in a
      3 x 2 grid paint six. */
  lemma TruncationExample()
    ensures PaintedCount(10, Resolve(10, Some(3), Some(2))) == 6
  {
  }
}
