/** The closed nucleotide alphabet and its fixed colour table
    (`color_map` and `color_map.get(n, (0, 0, 0))` in both scripts). */
module Nucleotides {
  import opened Wrappers

  /** One 8-bit colour channel (numpy `uint8`). */
  type Byte = x: int | 0 <= x < 256

  datatype Rgb = Rgb(r: Byte, g: Byte, b: Byte)

  const Black := Rgb(0, 0, 0)
  const White := Rgb(255, 255, 255)
  const Red := Rgb(255, 0, 0)
  const Green := Rgb(0, 255, 0)
  const Blue := Rgb(0, 0, 255)
  const Yellow := Rgb(255, 255, 0)

  datatype Base = A | T | C | G

  /** The character a base is written as (the keys of `color_map`). */
  function Letter(n: Base): char {
    match n
    case A => 'A'
    case T => 'T'
    case C => 'C'
    case G => 'G'
  }

  /** Dictionary lookup of a character among the keys of `color_map`. */
  function Parse(c: char): (r: Option<Base>)
    ensures r.Some? ==> Letter(r.value) == c
  {
    if c == 'A' then Some(A)
    else if c == 'T' then Some(T)
    else if c == 'C' then Some(C)
    else if c == 'G' then Some(G)
    else None
  }

  /** Membership test `x in color_map`. */
  predicate IsNucleotide(c: char) {
    Parse(c).Some?
  }

  /** The colour table itself. */
  function Color(n: Base): Rgb {
    match n
    case A => Red
    case T => Green
    case C => Blue
    case G => Yellow
  }

  /** `color_map.get(c, (0, 0, 0))`: the colour of a character, black for a
      character that is not a key of the table. */
  function ColorOf(c: char): (rgb: Rgb)
    ensures IsNucleotide(c) ==> rgb != Black
    ensures !IsNucleotide(c) ==> rgb == Black
  {
    match Parse(c)
    case Some(n) => Color(n)
    case None => Black
  }

  /** Parsing a base's letter gives the base back, and the letters are exactly
      the four keys of the table. */
  lemma ParseLetter(n: Base)
    ensures Parse(Letter(n)) == Some(n)
  {
  }

  lemma NucleotideLetters(c: char)
    ensures IsNucleotide(c) <==> c in {'A', 'T', 'C', 'G'}
  {
  }

  /** Distinct bases get distinct colours and no base is painted black, so the
      background of an unpainted cell never looks like a symbol. */
  lemma ColorInjective(m: Base, n: Base)
    ensures Color(m) == Color(n) ==> m == n
    ensures Color(n) != Black
  {
  }

  /** The fixed palette: A red, T green, C blue, G yellow, anything else black. */
  lemma Palette(c: char)
    ensures c == 'A' ==> ColorOf(c) == Rgb(255, 0, 0)
    ensures c == 'T' ==> ColorOf(c) == Rgb(0, 255, 0)
    ensures c == 'C' ==> ColorOf(c) == Rgb(0, 0, 255)
    ensures c == 'G' ==> ColorOf(c) == Rgb(255, 255, 0)
    ensures c !in {'A', 'T', 'C', 'G'} ==> ColorOf(c) == Rgb(0, 0, 0)
  {
  }

  /** Reads a colour back as a base: the inverse of the colour table. */
  function BaseOfColor(rgb: Rgb): (r: Option<Base>)
    ensures r.Some? ==> Color(r.value) == rgb
  {
    if rgb == Red then Some(A)
    else if rgb == Green then Some(T)
    else if rgb == Blue then Some(C)
    else if rgb == Yellow then Some(G)
    else None
  }

  lemma BaseOfColorInverse(n: Base)
    ensures BaseOfColor(Color(n)) == Some(n)
    ensures BaseOfColor(Black) == None
  {
  }
}
