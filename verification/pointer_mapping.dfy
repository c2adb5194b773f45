/** Mapping a pointer position (surface pixels, a float in the source) to a
    grid cell: the pixel coordinate is divided by the cell size and the
    quotient is narrowed to an integer with Java's `(int)` cast, which
    truncates toward zero. Float rounding is not modelled: coordinates are
    exact reals. */
module PointerMapping {

  /** The configured cell size in pixels; positive. */
  type CellSize = n: int | n > 0 witness 1

  /** Java's `(int)` narrowing of a (finite, in-range) floating value:
      rounds toward zero. */
  function Trunc(r: real): (n: int)
    ensures r >= 0.0 ==> 0 <= n && n as real <= r < n as real + 1.0
    ensures r < 0.0 ==> n <= 0 && n as real - 1.0 < r <= n as real
  {
    if r >= 0.0 then r.Floor else -((-r).Floor)
  }

  /** Java's integer `/` for a positive divisor: the quotient rounds toward
      zero, so the remainder takes the sign of the dividend. It is the cell
      index `(int) (x / CELL_SIZE)` of a pointer at the whole pixel `x`. */
  function TruncDiv(x: int, d: int): (q: int)
    requires d > 0
    ensures x >= 0 ==> 0 <= q && q * d <= x < (q + 1) * d
    ensures x < 0 ==> q <= 0 && (q - 1) * d < x <= q * d
  {
    if x >= 0 then
      DivisionBand(x, d);
      x / d
    else
      DivisionBand(-x, d);
      NegatedProducts((-x) / d, d);
      -((-x) / d)
  }

  /** Euclidean division of a non-negative dividend: `x` lies in the band
      `[q * d, (q + 1) * d)` of its quotient `q`. */
  lemma DivisionBand(x: int, d: int)
    requires x >= 0 && d > 0
    ensures 0 <= x / d && (x / d) * d <= x < (x / d + 1) * d
  {
    var q, r := x / d, x % d;
    assert x == d * q + r && 0 <= r < d;
    Commute(d, q);
    OneMoreMultiple(q, d);
  }

  lemma Commute(a: int, b: int)
    ensures a * b == b * a
  {
  }

  lemma OneMoreMultiple(q: int, d: int)
    ensures (q + 1) * d == q * d + d
  {
  }

  lemma NegatedProducts(q: int, d: int)
    ensures (-q) * d == -(q * d)
    ensures (-q - 1) * d == -((q + 1) * d)
  {
  }

  /** The column (or row) of the cell holding pixel coordinate `x`. A
      non-negative `x` lies in the half-open band `[c * size, (c + 1) * size)`;
      a negative one in `((c - 1) * size, c * size]`, because truncation
      rounds toward zero. */
  function CellIndex(x: real, cellSize: CellSize): (c: int)
    ensures x >= 0.0 ==> 0 <= c && (c * cellSize) as real <= x < ((c + 1) * cellSize) as real
    ensures x < 0.0 ==> c <= 0 && ((c - 1) * cellSize) as real < x <= (c * cellSize) as real
  {
    var c := Trunc(x / cellSize as real);
    TruncatedQuotientBands(x, cellSize);
    c
  }

  /** The bands `CellIndex` promises, proved from the bounds `Trunc` gives on
      the quotient. */
  lemma {:induction false} TruncatedQuotientBands(x: real, cellSize: CellSize)
    ensures var c := Trunc(x / cellSize as real);
      && (x >= 0.0 ==> 0 <= c && (c * cellSize) as real <= x < ((c + 1) * cellSize) as real)
      && (x < 0.0 ==> c <= 0 && ((c - 1) * cellSize) as real < x <= (c * cellSize) as real)
  {
    var c := Trunc(x / cellSize as real);
    QuotientSign(x, cellSize as real);
    if x >= 0.0 {
      BelowQuotient(x, c, cellSize);
      AboveQuotient(x, c + 1, cellSize);
    } else {
      StrictlyBelowQuotient(x, c - 1, cellSize);
      AtLeastQuotient(x, c, cellSize);
    }
  }

  lemma QuotientSign(x: real, s: real)
    requires s > 0.0
    ensures x >= 0.0 <==> x / s >= 0.0
  {
  }

  lemma BelowQuotient(x: real, k: int, cellSize: CellSize)
    requires k as real <= x / cellSize as real
    ensures (k * cellSize) as real <= x
  {
    var s := cellSize as real;
    Quotient(x, s);
    ScaleWeak(k as real, x / s, s);
    CastProduct(k, cellSize);
  }

  lemma StrictlyBelowQuotient(x: real, k: int, cellSize: CellSize)
    requires k as real < x / cellSize as real
    ensures (k * cellSize) as real < x
  {
    var s := cellSize as real;
    Quotient(x, s);
    ScaleStrict(k as real, x / s, s);
    CastProduct(k, cellSize);
  }

  lemma AboveQuotient(x: real, k: int, cellSize: CellSize)
    requires x / cellSize as real < k as real
    ensures x < (k * cellSize) as real
  {
    var s := cellSize as real;
    Quotient(x, s);
    ScaleStrict(x / s, k as real, s);
    CastProduct(k, cellSize);
  }

  lemma AtLeastQuotient(x: real, k: int, cellSize: CellSize)
    requires x / cellSize as real <= k as real
    ensures x <= (k * cellSize) as real
  {
    var s := cellSize as real;
    Quotient(x, s);
    ScaleWeak(x / s, k as real, s);
    CastProduct(k, cellSize);
  }

  /** Real division by a positive number is undone by multiplication. */
  lemma Quotient(x: real, s: real)
    requires s > 0.0
    ensures x == (x / s) * s
  {
  }

  /** The integer product, seen as a real, is the product of the reals. */
  lemma CastProduct(a: int, b: int)
    ensures (a * b) as real == a as real * b as real
  {
  }

  lemma ScaleStrict(a: real, b: real, s: real)
    requires a < b && s > 0.0
    ensures a * s < b * s
  {
    PositiveProduct(b - a, s);
    assert (b - a) * s == b * s - a * s;
  }

  lemma ScaleWeak(a: real, b: real, s: real)
    requires a <= b && s > 0.0
    ensures a * s <= b * s
  {
    if a < b {
      ScaleStrict(a, b, s);
    }
  }

  lemma PositiveProduct(a: real, b: real)
    requires a > 0.0 && b > 0.0
    ensures a * b > 0.0
  {
  }

  /** Dividing a strict inequality between multiples of a positive size. */
  lemma ProductOrder(a: int, b: int, size: CellSize)
    requires a * size < b * size
    ensures a < b
  {
  }

  /** Bands of width `size` do not overlap: at most one index `c` has
      `c * size <= x < (c + 1) * size`. */
  lemma {:induction false} BandUnique(x: real, c: int, q: int, size: CellSize)
    requires (c * size) as real <= x < ((c + 1) * size) as real
    requires (q * size) as real <= x < ((q + 1) * size) as real
    ensures c == q
  {
    assert c * size < (q + 1) * size;
    assert q * size < (c + 1) * size;
    ProductOrder(c, q + 1, size);
    ProductOrder(q, c + 1, size);
  }

  /** The mirror of `BandUnique` for the bands `((c - 1) * size, c * size]`. */
  lemma {:induction false} NegativeBandUnique(x: real, c: int, q: int, size: CellSize)
    requires ((c - 1) * size) as real < x <= (c * size) as real
    requires ((q - 1) * size) as real < x <= (q * size) as real
    ensures c == q
  {
    assert (c - 1) * size < q * size;
    assert (q - 1) * size < c * size;
    ProductOrder(c - 1, q, size);
    ProductOrder(q - 1, c, size);
  }

  /** Dividing the float coordinate and then truncating gives the same cell
      as truncating the coordinate to whole pixels first and then dividing
      with Java's integer division: the cell depends only on the pixel. */
  lemma {:induction false} CellIndexOfPixel(x: real, cellSize: CellSize)
    ensures CellIndex(x, cellSize) == TruncDiv(Trunc(x), cellSize)
  {
    var c := CellIndex(x, cellSize);
    var n := Trunc(x);
    var q := TruncDiv(n, cellSize);
    if x >= 0.0 {
      assert (q * cellSize) as real <= x;
      assert x < ((q + 1) * cellSize) as real by {
        assert n + 1 <= (q + 1) * cellSize;
      }
      BandUnique(x, c, q, cellSize);
    } else if n == 0 {
      assert q == 0;
      assert ((q - 1) * cellSize) as real < x;
      NegativeBandUnique(x, c, q, cellSize);
    } else {
      assert ((q - 1) * cellSize) as real < x by {
        assert (q - 1) * cellSize <= n - 1;
      }
      assert x <= (q * cellSize) as real;
      NegativeBandUnique(x, c, q, cellSize);
    }
  }

  /** A pointer slightly left of (or above) the grid, at less than one cell
      size from its edge, still maps to index 0: truncation toward zero is not
      floor division, which would give -1. */
  lemma {:induction false} NearNegativeEdgeMapsToZero(x: real, cellSize: CellSize)
    requires -(cellSize as real) < x < 0.0
    ensures CellIndex(x, cellSize) == 0
    ensures (x / cellSize as real).Floor == -1
  {
    var c := CellIndex(x, cellSize);
    assert -1 * cellSize < c * cellSize;
    ProductOrder(-1, c, cellSize);
    var q := x / cellSize as real;
    QuotientSign(x, cellSize as real);
    assert -1.0 < q by {
      if q <= -1.0 {
        AtLeastQuotient(x, -1, cellSize);
        assert false;
      }
    }
  }
}
