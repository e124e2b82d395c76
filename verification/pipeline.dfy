/** The two entry points with file reading, logging and image encoding taken
    away: `dna_to_image` and `dna_to_image_with_text` receive the decoded text
    and return what they would hand to the image library. */
module Pipeline {
  import opened Wrappers
  import opened Nucleotides
  import opened Normalizer
  import opened Dimensions
  import opened Layout
  import opened Painter
  import opened Overlay
  import opened Readback

  /** `dna_to_image`: normalize, resolve the grid, paint one pixel per symbol. */
  method DnaToImage(text: string, width: Option<Pos>, height: Option<Pos>)
    returns (g: Grid, img: Image)
    ensures g == Resolve(|Normalize(text)|, width, height)
    ensures img == CellImage(Normalize(text), g)
    ensures Automatic(width, height) ==> PaintedCount(|Normalize(text)|, g) == |Normalize(text)|
    ensures Automatic(width, height) && Normalize(text) != [] ==>
      g.width > 0 && ReadBack(img, g) == Normalize(text)
  {
    var s := Normalize(text);
    g := Resolve(|s|, width, height);
    ResolveFits(|s|, width, height);
    img := Paint(s, g);
    if Automatic(width, height) {
      AutomaticPaintsAll(|s|, width, height);
      if s != [] {
        NormalizeSelects(text);
        forall i | 0 <= i < |s| ensures IsNucleotide(s[i]) {
          NucleotideLetters(s[i]);
        }
        PaintThenReadBack(s, g);
      }
    }
  }

  /** What block mode hands to the image library: the grid in blocks, the
      painted buffer and the glyphs to draw on it. */
  datatype Rendering = Rendering(grid: Grid, pixels: Image, glyphs: seq<DrawInstruction>)

  /** `dna_to_image_with_text`: like `DnaToImage`, but returns nothing for a
      sequence without nucleotides, paints `blockSize x blockSize` squares and
      plans one glyph per painted square. */
  method DnaToImageWithText(text: string, blockSize: Pos, width: Option<Pos>, height: Option<Pos>)
    returns (out: Option<Rendering>)
    ensures out.None? <==> Normalize(text) == []
    ensures out.Some? ==>
      var s := Normalize(text);
      var g := Resolve(|s|, width, height);
      && out.value.grid == g
      && g.width >= 1 && g.height >= 1
      && out.value.pixels == Upscale(CellImage(s, g), g.height, g.width, blockSize)
      && out.value.glyphs == GlyphPlan(s, g, blockSize)
      && |out.value.glyphs| == PaintedCount(|s|, g)
  {
    var s := Normalize(text);
    if |s| == 0 {
      return None;
    }
    var g := Resolve(|s|, width, height);
    ResolveFits(|s|, width, height);
    var pixels, _ := PaintBlocks(s, g, blockSize);
    var glyphs := PlanGlyphs(s, g, blockSize);
    out := Some(Rendering(g, pixels, glyphs));
  }

  /** The 3 x 3 grid of "ACGTACGT": colours in row-major order, last cell black. */
  lemma ExampleImage(s: string)
    requires s == "ACGTACGT"
    ensures var img := CellImage(s, Grid(3, 3));
      && img[0][0] == Red && img[0][1] == Blue && img[0][2] == Yellow
      && img[1][0] == Green && img[1][1] == Red && img[1][2] == Blue
      && img[2][0] == Yellow && img[2][1] == Green && img[2][2] == Black
  {
    var img := CellImage(s, Grid(3, 3));
    assert img[0][0] == ColorOf(s[0]) && img[0][1] == ColorOf(s[1]) && img[0][2] == ColorOf(s[2]);
    assert img[1][0] == ColorOf(s[3]) && img[1][1] == ColorOf(s[4]) && img[1][2] == ColorOf(s[5]);
    assert img[2][0] == ColorOf(s[6]) && img[2][1] == ColorOf(s[7]) && img[2][2] == Black;
  }

  /** Worked example: "acgtXX\nACGT" normalizes to eight symbols, which the
      automatic resolver lays out in a 3 x 3 square. */
  lemma WorkedExample(text: string)
    requires text == "acgtXX\nACGT"
    ensures Normalize(text) == "ACGTACGT"
    ensures Resolve(|Normalize(text)|, None, None) == Grid(3, 3)
  {
    NormalizeExample(text);
    ResolveExamples();
  }
}
