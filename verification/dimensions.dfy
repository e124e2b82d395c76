/** The grid-dimension resolver: the `if image_width and image_height: ...
    else: ... math.ceil(math.sqrt(total_chars))` cascade shared by both scripts. */
module Dimensions {
  import opened Wrappers

  /** A dimension the caller supplied (a truthy, positive integer). */
  type Pos = x: int | x > 0 witness 1

  /** Grid size in cells (simple mode) or in blocks (block mode). */
  datatype Grid = Grid(width: nat, height: nat)

  /** `q` is the ceiling of `n / d`: `q` rows of `d` hold `n` items and
      `q - 1` rows do not. */
  ghost predicate IsCeilQuotient(q: int, n: nat, d: Pos) {
    d * q >= n && d * (q - 1) < n
  }

  /** `k` is the ceiling of the square root of `n`: the least `k` with `k * k >= n`. */
  ghost predicate IsCeilRoot(k: nat, n: nat) {
    k * k >= n && (k == 0 || (k - 1) * (k - 1) < n)
  }

  /** `math.ceil(n / d)`, computed exactly on integers. */
  function CeilDiv(n: nat, d: Pos): (q: nat)
    ensures IsCeilQuotient(q, n, d)
  {
    (n + d - 1) / d
  }

  /** `math.ceil(math.sqrt(n))`, computed exactly on integers. */
  function CeilSqrt(n: nat): (k: nat)
    ensures IsCeilRoot(k, n)
  {
    if n == 0 then 0
    else
      var k := CeilSqrt(n - 1);
      if k * k >= n then k
      else
        assert (k + 1) * (k + 1) == k * k + 2 * k + 1;
        k + 1
  }

  lemma SquareMonotone(a: nat, b: nat)
    requires a <= b
    ensures a * a <= b * b
  {
    assert a * a <= a * b <= b * b;
  }

  /** The ceiling root is the least side of a square holding `n` cells:
      any side that holds them is at least as long. */
  lemma CeilRootLeast(k: nat, n: nat, j: nat)
    requires IsCeilRoot(k, n)
    requires j * j >= n
    ensures k <= j
  {
    if j < k {
      SquareMonotone(j, k - 1);
    }
  }

  /** There is only one ceiling root, so `CeilSqrt` is pinned down by its contract. */
  lemma CeilRootUnique(k: nat, k': nat, n: nat)
    requires IsCeilRoot(k, n) && IsCeilRoot(k', n)
    ensures k == k'
  {
    CeilRootLeast(k, n, k');
    CeilRootLeast(k', n, k);
  }

  /** The ceiling quotient is the least row count that holds `n` items in rows of `d`. */
  lemma CeilQuotientLeast(q: int, n: nat, d: Pos, h: int)
    requires IsCeilQuotient(q, n, d)
    requires d * h >= n
    ensures q <= h
  {
  }

  lemma CeilQuotientUnique(q: int, q': int, n: nat, d: Pos)
    requires IsCeilQuotient(q, n, d) && IsCeilQuotient(q', n, d)
    ensures q == q'
  {
    CeilQuotientLeast(q, n, d, q');
    CeilQuotientLeast(q', n, d, q);
  }

  /** Resolves the grid from the symbol count and the optional dimensions:
      both given are used verbatim, one given fixes the other by ceiling
      division, neither gives the smallest square. */
  function Resolve(total: nat, width: Option<Pos>, height: Option<Pos>): (g: Grid)
    ensures width.Some? && height.Some? ==> g == Grid(width.value, height.value)
    ensures width.Some? && height.None? ==>
      g.width == width.value && IsCeilQuotient(g.height, total, width.value)
    ensures width.None? && height.Some? ==>
      g.height == height.value && IsCeilQuotient(g.width, total, height.value)
    ensures width.None? && height.None? ==> g.width == g.height && IsCeilRoot(g.width, total)
  {
    if width.Some? && height.Some? then Grid(width.value, height.value)
    else if width.Some? then Grid(width.value, CeilDiv(total, width.value))
    else if height.Some? then Grid(CeilDiv(total, height.value), height.value)
    else
      var k := CeilSqrt(total);
      Grid(k, k)
  }

  /** Whether the caller left at least one dimension to be resolved. */
  predicate Automatic(width: Option<Pos>, height: Option<Pos>) {
    !(width.Some? && height.Some?)
  }

  /** A resolved grid always has room for every symbol, and for a non-empty
      sequence both of its dimensions are at least one. */
  lemma ResolveFits(total: nat, width: Option<Pos>, height: Option<Pos>)
    ensures var g := Resolve(total, width, height);
      && (Automatic(width, height) ==> g.width * g.height >= total)
      && (total > 0 ==> g.width >= 1 && g.height >= 1)
  {
    var g := Resolve(total, width, height);
    if total > 0 && Automatic(width, height) {
      if width.Some? {
        assert g.height >= 1;
      } else if height.Some? {
        assert g.width >= 1;
      }
    }
  }

  /** With nothing to paint, the automatic grid has zero area. */
  lemma ResolveEmpty(width: Option<Pos>, height: Option<Pos>)
    requires Automatic(width, height)
    ensures var g := Resolve(0, width, height); g.width * g.height == 0
  {
    var g := Resolve(0, width, height);
    if width.Some? {
      CeilQuotientUnique(g.height, 0, 0, width.value);
    } else if height.Some? {
      CeilQuotientUnique(g.width, 0, 0, height.value);
    } else {
      CeilRootUnique(g.width, 0, 0);
    }
  }

  /** The automatic grid is minimal: with one side fixed the other is the
      least that holds every symbol, and with neither fixed the square is the
      smallest square that does. */
  lemma ResolveMinimal(total: nat, width: Option<Pos>, height: Option<Pos>, side: nat)
    requires Automatic(width, height)
    ensures var g := Resolve(total, width, height);
      && (width.Some? && width.value * side >= total ==> g.height <= side)
      && (height.Some? && height.value * side >= total ==> g.width <= side)
      && (width.None? && height.None? && side * side >= total ==> g.width <= side)
  {
    var g := Resolve(total, width, height);
    if width.Some? && width.value * side >= total {
      CeilQuotientLeast(g.height, total, width.value, side);
    }
    if height.Some? && height.value * side >= total {
      CeilQuotientLeast(g.width, total, height.value, side);
    }
    if width.None? && height.None? && side * side >= total {
      CeilRootLeast(g.width, total, side);
    }
  }

  /** Worked examples: 10 symbols in rows of 5 give 2 rows; 10, 9, 8 and 0
      symbols with no dimension give squares of side 4, 3, 3 and 0. */
  lemma ResolveExamples()
    ensures Resolve(10, Some(5), None) == Grid(5, 2)
    ensures Resolve(10, None, None) == Grid(4, 4)
    ensures Resolve(9, None, None) == Grid(3, 3)
    ensures Resolve(8, None, None) == Grid(3, 3)
    ensures Resolve(0, None, None) == Grid(0, 0)
  {
    CeilQuotientUnique(Resolve(10, Some(5), None).height, 2, 10, 5);
    CeilRootUnique(Resolve(10, None, None).width, 4, 10);
    CeilRootUnique(Resolve(9, None, None).width, 3, 9);
    CeilRootUnique(Resolve(8, None, None).width, 3, 8);
  }
}
