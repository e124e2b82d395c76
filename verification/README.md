# DNA-to-image converter: a Dafny model of the layout core

The repository has two Python scripts. `dna_to_image.py` turns a text file of
nucleotides into a TIFF image with one pixel per nucleotide.
`dna_to_image_with_text.py` draws one coloured `block_size x block_size` square
per nucleotide and writes the nucleotide's letter on top. Both share one
deterministic pipeline, and this project models it:

1. **Normalizer** (`normalizer.dfy`): upper-case the text, then keep only
   `A`, `T`, `C`, `G`, in order.
2. **Dimension resolver** (`dimensions.dfy`): use both dimensions if both are
   given, otherwise compute the missing one by ceiling division, otherwise use
   the smallest square. Ceilings are computed exactly on integers.
3. **Row-major painters** (`layout.dfy`, `painter.dfy`): symbol `i` goes to
   cell `(i // width, i % width)`, and the loop breaks at the first row that
   is not below the height. The simple loop writes one pixel per cell. The
   block loop fills a square per cell. Each loop is a method proved equal to a
   reference image defined cell by cell (`CellImage`), and the block image is
   the reference image scaled up by `block_size` (`Upscale`).
4. **Contrast chooser** (`overlay.dfy`): black text when the ITU-R BT.601
   luma `0.299 R + 0.587 G + 0.114 B` is above 128, white otherwise.
5. **Glyph planner** (`overlay.dfy`): for each painted block, one
   (position, character, colour) draw instruction. Its anchor is offset by
   `block_size // 4` from the block's top-left corner.

`nucleotides.dfy` holds the closed alphabet and the colour table.
`pipeline.dfy` composes the stages into the two entry points. Block mode
returns `None` when the sequence is empty. `readback.dfy` reads a painted
grid back into letters, which shows that painting loses nothing within the
grid's capacity.

In `ACGTACGT` the second symbol is `C`, so cell (0, 1) of its 3 x 3 image is
blue (`Pipeline.ExampleImage`).

## Model

| member | source | states |
|---|---|---|
| Nucleotides.Parse | dna_to_image.py:7-13 | a character is found in the colour table only under its own letter |
| Nucleotides.ColorOf | dna_to_image.py:49 | a nucleotide letter gets a non-black colour; any other character falls back to black `(0, 0, 0)` |
| Nucleotides.Palette | dna_to_image.py:7-13 | the fixed table: A red `(255,0,0)`, T green `(0,255,0)`, C blue `(0,0,255)`, G yellow `(255,255,0)`, anything else black |
| Nucleotides.ColorInjective | dna_to_image_with_text.py:21-27 | distinct bases get distinct colours, and no base is black |
| Nucleotides.BaseOfColorInverse | dna_to_image_with_text.py:21-27 | the colour table can be inverted: each base colour reads back as its base, and black reads back as no base |
| Normalizer.KeptPositions | dna_to_image.py:20 | the filter keeps exactly the positions holding A, T, C or G, in increasing order, and its output is the input read at those positions |
| Normalizer.NormalizeSelects | dna_to_image.py:17-20 | the normalized sequence contains only A, T, C, G and is the order-preserving subsequence of the upper-cased text made of all its nucleotide letters |
| Normalizer.NormalizeIdempotent | dna_to_image.py:20 | normalizing a normalized sequence returns it unchanged |
| Normalizer.NormalizeAppend | dna_to_image_with_text.py:31-34 | normalization works per character: it distributes over concatenation |
| Normalizer.StripIsInvisible | dna_to_image.py:17 | stripping leading and trailing characters of Python's whitespace set does not change the normalized sequence |
| Normalizer.LowerCaseKept | dna_to_image.py:17 | a lower-case a, t, c or g survives as its upper-case letter |
| Normalizer.NormalizeExample | dna_to_image_with_text.py:31-34 | `"acgtXX\nACGT"` normalizes to `"ACGTACGT"` |
| Dimensions.CeilDiv | dna_to_image.py:30 | the result `q` is the ceiling of `n / d`: `q` rows of `d` hold `n` items and `q - 1` rows do not |
| Dimensions.CeilSqrt | dna_to_image.py:36 | the result is the least `k` with `k * k >= n` |
| Dimensions.CeilRootUnique | dna_to_image.py:36 | only one number is the least side of a square holding `n` cells |
| Dimensions.CeilQuotientUnique | dna_to_image.py:28-33 | only one row count is the ceiling quotient |
| Dimensions.Resolve | dna_to_image.py:25-36 | both dimensions given are used verbatim; a given width fixes the height as the ceiling of total/width, and a given height does the same for the width; with neither, width = height = the least `k` with `k * k >= total` |
| Dimensions.ResolveFits | dna_to_image_with_text.py:43-54 | a resolved grid (not both overridden) holds every symbol, and for a non-empty sequence both dimensions are at least 1 |
| Dimensions.ResolveMinimal | dna_to_image.py:28-36 | the automatic dimension is the smallest that holds every symbol |
| Dimensions.ResolveEmpty | dna_to_image.py:34-36 | with no symbols the automatic grid has zero area |
| Dimensions.ResolveExamples | dna_to_image.py:25-36 | 10 symbols with width 5 give 5 x 2; 10, 9, 8 and 0 symbols give squares of side 4, 3, 3 and 0 |
| Layout.CellOfIndex | dna_to_image.py:45-46 | the cell of index `y * w + x` is `(y, x)`, so distinct indices get distinct cells |
| Layout.RowBelowHeight | dna_to_image.py:45-48 | the loop guard `row >= height` fires exactly when the index reaches `width * height` |
| Layout.PaintedCountIsFirstBreak | dna_to_image.py:44-48 | the loop stops at the first index whose row is not below the height, or at the end of the sequence; every earlier row is inside the grid |
| Layout.AutomaticPaintsAll | dna_to_image.py:25-48 | when at least one dimension is resolved automatically, no symbol is dropped |
| Layout.TruncationExample | dna_to_image.py:47-48 | ten symbols in a caller-fixed 3 x 2 grid paint six |
| Painter.Blank | dna_to_image.py:41 | the fresh buffer has the requested shape and is all black |
| Painter.Paint | dna_to_image.py:41-49 | the simple loop produces the reference image: cell `(y, x)` has the colour of symbol `y * width + x`, or black when there is no such symbol |
| Painter.CellImageContents | dna_to_image.py:44-49 | each painted symbol `i` sits at `(i // width, i % width)` in its colour; every cell whose index was not painted stays black |
| Painter.PaintBlocks | dna_to_image_with_text.py:59-75 | the block loop produces the reference image scaled up by `block_size`, a buffer of `height * bs` rows and `width * bs` columns; it reports as many painted blocks as the simple loop paints cells |
| Painter.BlockContents | dna_to_image_with_text.py:62-75 | every pixel in rows `[r*bs, r*bs+bs)` and columns `[c*bs, c*bs+bs)` of a painted symbol is inside the buffer and has that symbol's colour |
| Painter.UnpaintedBlocksBlack | dna_to_image_with_text.py:59-66 | pixels of blocks that were never painted stay black |
| Painter.BlocksDisjoint | dna_to_image_with_text.py:68-75 | the squares of two different symbols share no pixel |
| Overlay.ContrastingColor | dna_to_image_with_text.py:101-104 | the text colour is black or white, and black exactly when `299 R + 587 G + 114 B > 128000` (the luma is above 128) |
| Overlay.ContrastMonotone | dna_to_image_with_text.py:101-104 | brightening a background never turns black text white |
| Overlay.ContrastPalette | dna_to_image_with_text.py:101-104 | yellow and green backgrounds get black text; red, blue and black backgrounds get white text |
| Overlay.AnchorInsideBlock | dna_to_image_with_text.py:113-119 | a glyph's anchor `(c*bs + bs//4, r*bs + bs//4)` lies inside its own block |
| Overlay.GlyphPlan | dna_to_image_with_text.py:107-111 | the plan has exactly one instruction per painted block |
| Overlay.PlanGlyphs | dna_to_image_with_text.py:107-122 | the glyph loop visits the same indices as the block loop, in the same order and with the same break, and plans one glyph for each |
| Overlay.GlyphsOnTheirBlocks | dna_to_image_with_text.py:107-119 | each planned glyph is anchored on a buffer pixel whose colour is its character's colour, and its own colour is the contrasting colour of that pixel |
| Overlay.GlyphColors | dna_to_image_with_text.py:117-118 | T and G are written in black, A and C in white |
| Readback.ReadFromPainted | dna_to_image.py:44-49 | reading the painted cells row-major from index `k` returns the painted symbols from `k` on |
| Readback.PaintThenReadBack | dna_to_image.py:44-49 | reading a painted grid back returns the painted prefix of the sequence, and the whole sequence when nothing was truncated |
| Pipeline.DnaToImage | dna_to_image.py:17-49 | the simple entry point resolves the grid from the normalized length and returns the reference image; with an automatic grid it paints and can read back the whole sequence |
| Pipeline.DnaToImageWithText | dna_to_image_with_text.py:31-122 | block mode returns nothing exactly when the normalized sequence is empty; otherwise both grid dimensions are at least 1, the buffer is the scaled-up reference image, and the glyph plan has one glyph per painted block |
| Pipeline.ExampleImage | dna_to_image.py:44-49 | `ACGTACGT` in a 3 x 3 grid is red, blue, yellow / green, red, blue / yellow, green, black |
| Pipeline.WorkedExample | dna_to_image.py:17-36 | `"acgtXX\nACGT"` gives 8 symbols and a 3 x 3 grid |

## Left out

- File reading, `print` logging, `Image.fromarray`, `img.save` and TIFF encoding are left out. They are I/O or calls into PIL. The model takes the decoded text as input and returns the pixel buffer.
- Font loading (`ImageFont.truetype`, `load_default`, the `font_size` default of `block_size - 2` and the try/except fallbacks) and `draw.text` rasterization are left out as calls into PIL. Only the (position, character, colour) triples are modelled.
- The `argparse` command-line blocks are left out.
- `.strip()` is left out of the pipeline. `Normalizer.StripIsInvisible` shows that removing leading and trailing characters of Python's whitespace set (the 29 code points `str.strip()` removes) changes nothing.
- Normalizer.UpperChar: Python's `str.upper()` is modelled only as far as the filter can observe it. It covers ASCII `a`-`z` and the four code points whose upper-case form contains a nucleotide letter (U+1E97, U+1E9A, U+FB05, U+FB06). Every other character is kept unchanged. It is assumed, not proved, that such a character is A, T, C or G exactly when its real upper-case form is that same letter.
- Dimensions.CeilDiv and Dimensions.CeilSqrt are exact. The source goes through floating-point `total / width` and `math.sqrt`, which can round differently: `total / width` for totals beyond 2^53, and `math.sqrt` already for totals beyond 2^52 (for 2^52 + 1 it rounds the root down to 2^26, whose square is too small). That floating-point error is not modelled.
- Overlay.ContrastingColor uses exact real arithmetic. The source compares a floating-point luminance, and its rounding is not modelled.
- Python truthiness of the dimensions is not modelled. A width or height of `0` acts as "not given", and a negative one makes numpy fail. Both dimensions are `Option` of a positive integer instead.
- `block_size` is a positive integer. The source does not check it: `0` gives an empty buffer and a negative value makes numpy fail.
- The painters require `width > 0` when the sequence is non-empty, because the source divides by the width inside its loop. Every resolved grid meets this.
- The zero-area image of an empty sequence in simple mode is returned as an empty buffer. What PIL does with it is not modelled.
