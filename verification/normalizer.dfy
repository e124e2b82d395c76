/** The sequence normalizer: `text.strip().upper()` followed by
    `''.join(filter(lambda x: x in color_map, ...))`. */
module Normalizer {
  import opened Nucleotides

  /** Python's `str.upper()` on one character, as far as the nucleotide filter
      can observe it: ASCII letters are shifted to upper case, and the four
      code points whose full upper-case mapping contains one of A, T, C, G
      expand to two characters. Every other character is kept as it is; it is a
      nucleotide letter exactly when its true upper-case form is that same
      letter, so the filter treats both forms alike. */
  function UpperChar(c: char): (u: string)
    ensures 1 <= |u| <= 2
  {
    if 'a' <= c <= 'z' then [(c as int - 32) as char]
    else if c == '\U{1E97}' then ['T', '\U{0308}']   // LATIN SMALL LETTER T WITH DIAERESIS
    else if c == '\U{1E9A}' then ['A', '\U{02BE}']   // LATIN SMALL LETTER A WITH RIGHT HALF RING
    else if c == '\U{FB05}' || c == '\U{FB06}' then ['S', 'T']  // the "st" ligatures
    else [c]
  }

  /** `str.upper()`: the concatenation of the per-character mappings. */
  function Upper(s: string): string
  {
    if s == [] then [] else Upper(s[..|s| - 1]) + UpperChar(s[|s| - 1])
  }

  /** `''.join(filter(lambda x: x in color_map, u))`. */
  function Filter(u: string): (r: string)
    ensures forall i :: 0 <= i < |r| ==> IsNucleotide(r[i])
    ensures |r| <= |u|
  {
    if u == [] then []
    else if IsNucleotide(u[|u| - 1]) then Filter(u[..|u| - 1]) + [u[|u| - 1]]
    else Filter(u[..|u| - 1])
  }

  /** The valid-symbol sequence both scripts paint. */
  function Normalize(text: string): string
  {
    Filter(Upper(text))
  }

  /** `idx` lists, in increasing order, exactly the positions of `u` that hold a
      nucleotide letter, and `r` is `u` read at those positions: `r` is the
      order-preserving subsequence of `u` made of all its nucleotide letters. */
  ghost predicate SelectedBy(r: string, u: string, idx: seq<nat>) {
    && |idx| == |r|
    && (forall k :: 0 <= k < |idx| ==> idx[k] < |u| && r[k] == u[idx[k]])
    && (forall k, l :: 0 <= k < l < |idx| ==> idx[k] < idx[l])
    && (forall j :: 0 <= j < |u| ==> (IsNucleotide(u[j]) <==> j in idx))
  }

  /** The positions the filter keeps; its contract says the filter keeps
      every nucleotide letter, drops everything else and preserves order. */
  function KeptPositions(u: string): (idx: seq<nat>)
    ensures SelectedBy(Filter(u), u, idx)
  {
    if u == [] then []
    else
      var p := KeptPositions(u[..|u| - 1]);
      assert forall j :: 0 <= j < |u| - 1 ==> u[..|u| - 1][j] == u[j];
      if IsNucleotide(u[|u| - 1]) then p + [|u| - 1] else p
  }

  /** The normalized sequence holds only A, T, C and G and is the
      order-preserving subsequence of the upper-cased text made of all its
      nucleotide letters. */
  lemma NormalizeSelects(text: string)
    ensures forall i :: 0 <= i < |Normalize(text)| ==> Normalize(text)[i] in {'A', 'T', 'C', 'G'}
    ensures SelectedBy(Normalize(text), Upper(text), KeptPositions(Upper(text)))
  {
    var r := Normalize(text);
    forall i | 0 <= i < |r| ensures r[i] in {'A', 'T', 'C', 'G'} {
      NucleotideLetters(r[i]);
    }
  }

  lemma {:induction false} UpperAppend(a: string, b: string)
    ensures Upper(a + b) == Upper(a) + Upper(b)
    decreases |b|
  {
    if b == [] {
      assert a + b == a;
    } else {
      var b', c := b[..|b| - 1], b[|b| - 1];
      assert (a + b)[..|a + b| - 1] == a + b';
      assert (a + b)[|a + b| - 1] == c;
      UpperAppend(a, b');
      calc {
        Upper(a + b);
        Upper(a + b') + UpperChar(c);
        Upper(a) + Upper(b') + UpperChar(c);
        Upper(a) + Upper(b);
      }
    }
  }

  lemma {:induction false} FilterAppend(a: string, b: string)
    ensures Filter(a + b) == Filter(a) + Filter(b)
    decreases |b|
  {
    if b == [] {
      assert a + b == a;
    } else {
      var b', c := b[..|b| - 1], b[|b| - 1];
      assert (a + b)[..|a + b| - 1] == a + b';
      assert (a + b)[|a + b| - 1] == c;
      FilterAppend(a, b');
    }
  }

  /** Normalization works character by character: it distributes over concatenation. */
  lemma NormalizeAppend(a: string, b: string)
    ensures Normalize(a + b) == Normalize(a) + Normalize(b)
  {
    UpperAppend(a, b);
    FilterAppend(Upper(a), Upper(b));
  }

  /** A character that contributes nothing to the normalized sequence. */
  predicate Dropped(c: char) {
    Filter(UpperChar(c)) == []
  }

  /** The characters `str.strip()` removes: Python's whitespace set. */
  predicate IsPythonSpace(c: char) {
    || c in {'\t', '\n', '\U{0B}', '\U{0C}', '\r', '\U{1C}', '\U{1D}', '\U{1E}', '\U{1F}', ' '}
    || c in {'\U{85}', '\U{A0}', '\U{1680}', '\U{2028}', '\U{2029}', '\U{202F}', '\U{205F}', '\U{3000}'}
    || '\U{2000}' <= c <= '\U{200A}'
  }

  lemma {:induction false} AllDropped(p: string)
    requires forall i :: 0 <= i < |p| ==> Dropped(p[i])
    ensures Normalize(p) == []
    decreases |p|
  {
    if p != [] {
      var p' := p[..|p| - 1];
      assert p == p' + [p[|p| - 1]];
      AllDropped(p');
      NormalizeAppend(p', [p[|p| - 1]]);
      assert Upper([p[|p| - 1]]) == UpperChar(p[|p| - 1]) by {
        assert [p[|p| - 1]][..0] == [];
      }
    }
  }

  /** Stripping leading and trailing whitespace before normalizing changes
      nothing: whitespace is dropped by the filter anyway. */
  lemma StripIsInvisible(lead: string, body: string, trail: string)
    requires forall i :: 0 <= i < |lead| ==> IsPythonSpace(lead[i])
    requires forall i :: 0 <= i < |trail| ==> IsPythonSpace(trail[i])
    ensures Normalize(lead + body + trail) == Normalize(body)
  {
    forall i | 0 <= i < |lead| ensures Dropped(lead[i]) {
      NucleotideLetters(lead[i]);
    }
    forall i | 0 <= i < |trail| ensures Dropped(trail[i]) {
      NucleotideLetters(trail[i]);
    }
    AllDropped(lead);
    AllDropped(trail);
    NormalizeAppend(lead + body, trail);
    NormalizeAppend(lead, body);
  }

  lemma UpperFixesLetter(c: char)
    requires IsNucleotide(c)
    ensures UpperChar(c) == [c]
  {
    NucleotideLetters(c);
  }

  lemma {:induction false} UpperFixesNucleotides(s: string)
    requires forall i :: 0 <= i < |s| ==> IsNucleotide(s[i])
    ensures Upper(s) == s
    decreases |s|
  {
    if s != [] {
      var p, c := s[..|s| - 1], s[|s| - 1];
      UpperFixesNucleotides(p);
      UpperFixesLetter(c);
      assert Upper(s) == Upper(p) + UpperChar(c);
      assert s == p + [c];
    }
  }

  lemma {:induction false} FilterFixesNucleotides(s: string)
    requires forall i :: 0 <= i < |s| ==> IsNucleotide(s[i])
    ensures Filter(s) == s
    decreases |s|
  {
    if s != [] {
      FilterFixesNucleotides(s[..|s| - 1]);
      assert s == s[..|s| - 1] + [s[|s| - 1]];
    }
  }

  /** Normalizing an already normalized sequence returns it unchanged. */
  lemma NormalizeIdempotent(text: string)
    ensures Normalize(Normalize(text)) == Normalize(text)
  {
    UpperFixesNucleotides(Normalize(text));
    FilterFixesNucleotides(Normalize(text));
  }

  lemma LowerNucleotide(c: char)
    requires c in {'a', 't', 'c', 'g'}
    ensures |UpperChar(c)| == 1 && IsNucleotide(UpperChar(c)[0])
  {
    var u := UpperChar(c);
    if c == 'a' { assert u == ['A']; }
    else if c == 't' { assert u == ['T']; }
    else if c == 'c' { assert u == ['C']; }
    else { assert u == ['G']; }
  }

  lemma UpperOne(c: char)
    ensures Upper([c]) == UpperChar(c)
  {
    UpperAppend([], [c]);
    assert [] + [c] == [c];
  }

  /** Lower-case nucleotide letters are kept, upper-cased. */
  lemma LowerCaseKept(c: char)
    requires c in {'a', 't', 'c', 'g'}
    ensures Normalize([c]) == UpperChar(c)
    ensures |Normalize([c])| == 1 && IsNucleotide(Normalize([c])[0])
  {
    LowerNucleotide(c);
    UpperOne(c);
    FilterFixesNucleotides(UpperChar(c));
  }

  lemma {:induction false} NormalizeConcat3(a: string, b: string, c: string)
    ensures Normalize(a + b + c) == Normalize(a) + Normalize(b) + Normalize(c)
  {
    NormalizeAppend(a + b, c);
    NormalizeAppend(a, b);
  }

  lemma NormalizeFourChars(a: char, b: char, c: char, d: char)
    ensures Normalize([a, b, c, d]) == Normalize([a]) + Normalize([b]) + Normalize([c]) + Normalize([d])
  {
    NormalizeAppend([a], [b]);
    assert [a] + [b] == [a, b];
    NormalizeAppend([a, b], [c]);
    assert [a, b] + [c] == [a, b, c];
    NormalizeAppend([a, b, c], [d]);
    assert [a, b, c] + [d] == [a, b, c, d];
  }

  lemma ExampleLowerRun(t: string)
    requires t == "acgt"
    ensures Normalize(t) == "ACGT"
  {
    NormalizeFourChars('a', 'c', 'g', 't');
    LowerCaseKept('a');
    LowerCaseKept('c');
    LowerCaseKept('g');
    LowerCaseKept('t');
  }

  lemma ExampleNoise(t: string)
    requires t == "XX\n"
    ensures Normalize(t) == []
  {
    assert Dropped('X') by { assert UpperChar('X') == ['X']; }
    assert Dropped('\n') by { assert UpperChar('\n') == ['\n']; }
    assert forall i :: 0 <= i < |t| ==> t[i] == 'X' || t[i] == '\n';
    AllDropped(t);
  }

  lemma ExampleUpperRun(t: string)
    requires t == "ACGT"
    ensures Normalize(t) == "ACGT"
  {
    UpperFixesNucleotides(t);
    FilterFixesNucleotides(t);
  }

  /** Worked example: lower-case letters are kept upper-cased, other letters
      and line breaks are dropped, upper-case letters are kept. */
  lemma NormalizeExample(text: string)
    requires text == "acgtXX\nACGT"
    ensures Normalize(text) == "ACGTACGT"
  {
    var lower, noise, upper := text[..4], text[4..7], text[7..];
    ExampleLowerRun(lower);
    ExampleNoise(noise);
    ExampleUpperRun(upper);
    NormalizeConcat3(lower, noise, upper);
    assert lower + noise + upper == text;
  }
}
