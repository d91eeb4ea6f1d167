/** The grid's dimensions: rows of a fixed number of years, each year twelve month cells. */
module GridSettings {
  import opened Wrappers

  datatype Settings = Settings(monthsInYear: nat, targetYO: nat, yearColumns: nat)

  /** The page's constants: 12 months a year, a 70-year target, 3 years per row. */
  const PageSettings := Settings(12, 70, 3)

  /**
    `a / b` rounded to the nearest integer, halves rounded up, as JavaScript's
    `Math.round` does for non-negative quotients: the result is the unique
    `r` with `r - 1/2 <= a/b < r + 1/2`.
   */
  function RoundedQuotient(a: nat, b: nat): (r: nat)
    requires b > 0
    ensures 2 * r * b <= 2 * a + b < 2 * r * b + 2 * b
  {
    (2 * a + b) / (2 * b)
  }

  /**
    The number of rows: the target age divided by the years per row,
    rounded. With zero years per row the quotient is not finite and the page
    cannot build its rows, so there is no row count.
   */
  function Rows(s: Settings): (r: Option<nat>)
    ensures r.None? <==> s.yearColumns == 0
    ensures r.Some? ==>
      2 * r.value * s.yearColumns <= 2 * s.targetYO + s.yearColumns < 2 * r.value * s.yearColumns + 2 * s.yearColumns
  {
    if s.yearColumns == 0 then None else Some(RoundedQuotient(s.targetYO, s.yearColumns))
  }

  /** The number of month cells in one row: a whole number of years. */
  function Columns(s: Settings): (r: nat)
    ensures s.monthsInYear > 0 ==> r % s.monthsInYear == 0 && r / s.monthsInYear == s.yearColumns
    ensures s.yearColumns > 0 ==> r / s.yearColumns == s.monthsInYear
  {
    ProductQuotient(s.yearColumns, s.monthsInYear);
    ProductQuotient(s.monthsInYear, s.yearColumns);
    s.yearColumns * s.monthsInYear
  }

  /** Dividing a product by one factor gives back the other, with nothing left over. */
  lemma ProductQuotient(a: nat, b: nat)
    ensures b > 0 ==> (a * b) / b == a && (a * b) % b == 0
    ensures b > 0 ==> (b * a) / b == a && (b * a) % b == 0
  {
    if b == 0 {
      return;
    }
    var q, rem := (a * b) / b, (a * b) % b;
    assert a * b == q * b + rem;
    assert (a - q) * b == rem;
    if q < a {
      ScaledAtLeast(a - q, b);
    } else if a < q {
      ScaledAtLeast(q - a, b);
    }
  }

  /** A positive multiple of `b` is at least `b`. */
  lemma ScaledAtLeast(d: int, b: nat)
    requires d >= 1
    ensures d * b >= b
  {
  }

  /** The page's grid has 23 rows of 36 months. */
  lemma PageDimensions()
    ensures Rows(PageSettings) == Some(23)
    ensures Columns(PageSettings) == 36
  {
  }
}
