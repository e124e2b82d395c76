/** The text overlay planner of block mode: `get_contrasting_text_color` and
    the loop that places one glyph per painted block. Only the planned
    (position, character, colour) triples are modelled; rasterizing them with
    a font is left to the drawing library. */
module Overlay {
  import opened Nucleotides
  import opened Dimensions
  import opened Layout
  import opened Painter

  /** Perceptual luminance with the ITU-R BT.601 luma weights, in exact arithmetic. */
  function Luma(c: Rgb): real {
    0.299 * c.r as real + 0.587 * c.g as real + 0.114 * c.b as real
  }

  /** Black text on a bright background, white text on a dark one. */
  function ContrastingColor(bg: Rgb): (fg: Rgb)
    ensures fg == Black || fg == White
    ensures fg == Black <==> 299 * bg.r + 587 * bg.g + 114 * bg.b > 128000
  {
    if Luma(bg) > 128.0 then Black else White
  }

  /** Brightening a background never turns black text white. */
  lemma ContrastMonotone(dark: Rgb, bright: Rgb)
    requires dark.r <= bright.r && dark.g <= bright.g && dark.b <= bright.b
    ensures ContrastingColor(dark) == Black ==> ContrastingColor(bright) == Black
  {
  }

  /** The text colours the palette produces: black on yellow and green,
      white on red, blue and the black fallback. */
  lemma ContrastPalette()
    ensures ContrastingColor(Yellow) == Black
    ensures ContrastingColor(Green) == Black
    ensures ContrastingColor(Red) == White
    ensures ContrastingColor(Blue) == White
    ensures ContrastingColor(Black) == White
  {
  }

  /** `draw.text(text_position, text, fill=text_color)`: PIL positions are (x, y). */
  datatype DrawInstruction = Draw(x: nat, y: nat, text: char, fill: Rgb)

  /** The glyph of symbol `k`: its own character, a quarter block right of and
      below the top-left corner of its block, in the colour contrasting with
      the block's colour. */
  function GlyphFor(s: string, w: Pos, bs: Pos, k: nat): DrawInstruction
    requires k < |s|
  {
    Draw(Col(k, w) * bs + bs / 4, Row(k, w) * bs + bs / 4, s[k], ContrastingColor(ColorOf(s[k])))
  }

  /** The anchor of a glyph lies inside its own block. */
  lemma AnchorInsideBlock(s: string, w: Pos, bs: Pos, k: nat)
    requires k < |s|
    ensures var d := GlyphFor(s, w, bs, k);
      && Row(k, w) * bs <= d.y < Row(k, w) * bs + bs
      && Col(k, w) * bs <= d.x < Col(k, w) * bs + bs
  {
  }

  /** The reference plan: one glyph per painted block, in painting order. */
  function GlyphPlan(s: string, g: Grid, bs: Pos): (plan: seq<DrawInstruction>)
    requires |s| > 0 ==> g.width > 0
    ensures |plan| == PaintedCount(|s|, g)
  {
    seq(PaintedCount(|s|, g), k requires 0 <= k < PaintedCount(|s|, g) => GlyphFor(s, g.width, bs, k))
  }

  /** The glyph loop: it visits the indices of the block loop, with the same
      break, and plans one glyph for each. */
  method PlanGlyphs(s: string, g: Grid, bs: Pos) returns (plan: seq<DrawInstruction>)
    requires |s| > 0 ==> g.width > 0
    ensures plan == GlyphPlan(s, g, bs)
  {
    plan := [];
    var i := 0;
    while i < |s|
      invariant i <= |s| && i <= g.width * g.height
      invariant |plan| == i
      invariant forall k :: 0 <= k < i ==> plan[k] == GlyphFor(s, g.width, bs, k)
    {
      var row := Row(i, g.width);
      var col := Col(i, g.width);
      RowBelowHeight(i, g.width, g.height);
      if row >= g.height {
        break;
      }
      var startY := row * bs;
      var startX := col * bs;
      var textColor := ContrastingColor(ColorOf(s[i]));
      plan := plan + [Draw(startX + bs / 4, startY + bs / 4, s[i], textColor)];
      i := i + 1;
    }
  }

  /** Every planned glyph is drawn over its own block: its anchor is a pixel
      of the buffer whose colour is the colour of the glyph's character, and
      the glyph's colour is the contrasting colour of that pixel. */
  lemma GlyphsOnTheirBlocks(s: string, g: Grid, bs: Pos)
    requires |s| > 0 ==> g.width > 0
    ensures var plan, img := GlyphPlan(s, g, bs), Upscale(CellImage(s, g), g.height, g.width, bs);
      forall k :: 0 <= k < |plan| ==>
        && plan[k].y < g.height * bs && plan[k].x < g.width * bs
        && img[plan[k].y][plan[k].x] == ColorOf(plan[k].text)
        && plan[k].fill == ContrastingColor(img[plan[k].y][plan[k].x])
  {
    var plan, img := GlyphPlan(s, g, bs), Upscale(CellImage(s, g), g.height, g.width, bs);
    forall k | 0 <= k < |plan|
      ensures && plan[k].y < g.height * bs && plan[k].x < g.width * bs
              && img[plan[k].y][plan[k].x] == ColorOf(plan[k].text)
              && plan[k].fill == ContrastingColor(img[plan[k].y][plan[k].x])
    {
      AnchorInsideBlock(s, g.width, bs, k);
      BlockContents(s, g, bs, k, plan[k].y, plan[k].x);
    }
  }

  /** Glyphs are legible on the palette: black on T (green) and G (yellow),
      white on A (red) and C (blue). */
  lemma GlyphColors(s: string, w: Pos, bs: Pos, k: nat)
    requires k < |s| && IsNucleotide(s[k])
    ensures GlyphFor(s, w, bs, k).fill == (if s[k] in {'T', 'G'} then Black else White)
  {
  }
}
