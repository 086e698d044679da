/** The refresh interval and the response timeout as they are computed in double precision. */
module Doubles {
  import opened Bytes
  import NiSpec
  import NiTheorems

  const TWO_53: int := 0x20_0000_0000_0000

  function Ceil(x: real): int {
    -(-x).Floor
  }

  lemma CeilOf(x: real, n: int)
    requires (n - 1) as real < x <= n as real
    ensures Ceil(x) == n
  {
  }

  /** What an operation may give for an exact result below 2^53: the nearest double, so a whole number is met. */
  ghost predicate Rounded(exact: real, double: real) {
    && exact * (TWO_53 - 1) as real <= double * TWO_53 as real <= exact * (TWO_53 + 1) as real
    && (exact == exact.Floor as real ==> double == exact)
  }

  lemma Times(x: real, y: real, b: real)
    requires b > 0.0
    ensures x < y <==> x * b < y * b
  {
    if x < y {
      assert (y - x) * b > 0.0;
    } else {
      assert (x - y) * b >= 0.0;
    }
  }

  lemma Scaled(x: real, y: real, p: real, r: real, b: real)
    requires b > 0.0 && x * r <= y * p
    ensures x * b * r <= y * b * p
  {
    Times(y * p, x * r, b);
    assert x * r * b == x * b * r && y * p * b == y * b * p;
  }

  /** A double is as near to an exact quotient as one part in b, if the numerator is small. */
  lemma NearQuotient(a: nat, q: real, b: real, double: real)
    requires b > 0.0 && q * b == a as real && a < TWO_53 && Rounded(q, double)
    ensures a as real - 1.0 < double * b < a as real + 1.0
  {
    Scaled(q, double, TWO_53 as real, (TWO_53 - 1) as real, b);
    Scaled(double, q, (TWO_53 + 1) as real, TWO_53 as real, b);
  }

  lemma WholeQuotient(n: int, b: real, q: real)
    requires b > 0.0 && q * b == n as real * b
    ensures q == n as real
  {
    Times(n as real, q, b);
    Times(q, n as real, b);
  }

  lemma Product(x: int, y: int)
    ensures (x * y) as real == y as real * x as real
  {
  }

  lemma WholeBounds(a: nat, b: nat, n: int)
    requires b * (n - 1) < a < b * n
    ensures (n - 1) as real * b as real <= a as real - 1.0 && a as real + 1.0 <= n as real * b as real
  {
    Product(b, n - 1);
    Product(b, n);
  }

  lemma Between(a: nat, b: nat, n: int, double: real)
    requires 0 < b && b * (n - 1) < a < b * n && a as real - 1.0 < double * b as real < a as real + 1.0
    ensures (n - 1) as real < double < n as real
  {
    WholeBounds(a, b, n);
    Times(double, n as real, b as real);
    Times((n - 1) as real, double, b as real);
  }

  lemma CeilOfWhole(n: int, b: real, q: real, double: real)
    requires 0.0 < b && q * b == n as real * b && Rounded(q, double)
    ensures Ceil(double) == n
  {
    WholeQuotient(n, b, q);
    CeilOf(double, n);
  }

  lemma CeilOfFraction(a: nat, b: nat, n: int, q: real, double: real)
    requires 0 < b && b * (n - 1) < a < b * n && q * b as real == a as real && a < TWO_53 && Rounded(q, double)
    ensures Ceil(double) == n
  {
    NearQuotient(a, q, b as real, double);
    Between(a, b, n, double);
    CeilOf(double, n);
  }

  /** Rounding a quotient moves it by less than its distance from the next integer. */
  lemma RoundedQuotient(a: nat, b: nat, n: nat, q: real, double: real)
    requires 0 < b && a < TWO_53 && q * b as real == a as real && Rounded(q, double)
    requires n == NiSpec.CeilDiv(a, b)
    ensures Ceil(double) == n
  {
    NiTheorems.CeilDivIsLeast(a, b);
    if a == b * n {
      Product(b, n);
      CeilOfWhole(n, b as real, q, double);
    } else {
      CeilOfFraction(a, b, n, q, double);
    }
  }

  /** ceil(lifetime / ((maxRetries + 0.5) * 1.5)) is not changed by the rounding of its division; the rest is exact. */
  lemma RefreshIntervalOfDoubles(lifetime: uint32, maxRetries: uint32, q: real, double: real)
    requires q * ((maxRetries as real + 0.5) * 1.5) == lifetime as real && Rounded(q, double)
    ensures Ceil(double) == NiSpec.RefreshInterval(lifetime, maxRetries)
  {
    var a, b := 4 * lifetime, 3 * (2 * maxRetries + 1);
    assert b as real == 4.0 * ((maxRetries as real + 0.5) * 1.5);
    RoundedQuotient(a, b, NiSpec.CeilDiv(a, b), q, double);
  }

  // The response timeout

  /** The error of one operation. */
  lemma Off(exact: real, double: real, bound: real)
    requires 0.0 <= exact <= bound && Rounded(exact, double)
    ensures exact - bound / TWO_53 as real <= double <= exact + bound / TWO_53 as real
  {
  }

  lemma ScaledNear(x: real, y: real, d: real, r: real, g: real, w: real, slack: real)
    requires r >= 0.0 && x - d <= y <= x + d && g == x * r && w == y * r && slack == d * r
    ensures g - slack <= w <= g + slack
  {
    assert (y - x + d) * r >= 0.0 && (x + d - y) * r >= 0.0;
  }

  /** The error of random / 1000.0 + 0.5. */
  lemma NearFactor(random: nat, x: real, y: real)
    requires random < 1000 && Rounded(random as real / 1000.0, x) && Rounded(x + 0.5, y)
    ensures var f, d := (random + 500) as real / 1000.0, 3.0 / TWO_53 as real; f - d <= y <= f + d
    ensures 0.0 <= y <= 2.0
  {
    Off(random as real / 1000.0, x, 1.0);
    Off(x + 0.5, y, 1.75);
  }

  lemma AtMostTwice(y: real, r: real, w: real)
    requires 0.0 <= y <= 2.0 && 0.0 <= r && w == y * r
    ensures 0.0 <= w <= 2.0 * r
  {
    if r > 0.0 {
      Times(y, 0.0, r);
      Times(2.0, y, r);
    }
  }

  /** A product g is missed by less than a thousandth if w misses it by less than a ten thousandth. */
  lemma NearWhole(g: real, w: real, bound: real, slack: real, z: real)
    requires 0.0 <= w <= bound <= 2.0 * TWO_32 as real && Rounded(w, z)
    requires g - slack <= w <= g + slack && slack <= 0.0001
    ensures g * 1000.0 - 1.0 < z * 1000.0 < g * 1000.0 + 1.0
  {
    Off(w, z, bound);
  }

  lemma NearScaled(f: real, y: real, d: real, r: real, g: real, w: real, z: real)
    requires f - d <= y <= f + d && 0.0 <= y <= 2.0 && 0.0 <= r <= TWO_32 as real
    requires g == f * r && w == y * r && Rounded(w, z)
    requires 0.0 <= d && d * TWO_32 as real <= 0.0001
    ensures g * 1000.0 - 1.0 < z * 1000.0 < g * 1000.0 + 1.0
  {
    var slack := d * r;
    ScaledNear(f, y, d, r, g, w, slack);
    AtMostTwice(y, r, w);
    ScaledUp(d, r, TWO_32 as real, slack);
    NearWhole(g, w, 2.0 * r, slack, z);
  }

  lemma ScaledUp(d: real, r: real, bound: real, slack: real)
    requires 0.0 <= d && r <= bound && slack == d * r
    ensures slack <= d * bound
  {
    assert d * (bound - r) >= 0.0;
  }

  lemma NearProduct(interval: uint32, random: nat, x: real, y: real, w: real, z: real)
    requires random < 1000 && Rounded(random as real / 1000.0, x) && Rounded(x + 0.5, y)
    requires w == y * interval as real && Rounded(w, z)
    ensures var e := ((random + 500) * interval) as real; e - 1.0 < z * 1000.0 < e + 1.0
  {
    var f, r := (random + 500) as real / 1000.0, interval as real;
    NearFactor(random, x, y);
    NearScaled(f, y, 3.0 / TWO_53 as real, r, f * r, w, z);
    Product(random + 500, interval);
    Thousandths((random + 500) as real, f, r);
  }

  lemma Thousandths(e: real, f: real, r: real)
    requires f * 1000.0 == e
    ensures f * r * 1000.0 == r * e
  {
  }

  /**
   * Three operations are rounded in ceil((random / 1000.0 + 0.5) * interval), which moves it by less than a thousandth:
   * the timeout is exact or, where the product is a whole number, at most one second longer, and it keeps its range.
   */
  lemma ResponseTimeoutOfDoubles(interval: uint32, random: nat, x: real, y: real, w: real, z: real)
    requires interval > 0 && random < 1000
    requires Rounded(random as real / 1000.0, x) && Rounded(x + 0.5, y) && w == y * interval as real && Rounded(w, z)
    ensures var t := NiSpec.ResponseTimeout(interval, random);
            && t <= Ceil(z) <= t + 1
            && (Ceil(z) == t + 1 ==> (random + 500) * interval == 1000 * t)
            && interval <= 2 * Ceil(z) <= 4 * interval
  {
    var e, t: int := (random + 500) * interval, NiSpec.ResponseTimeout(interval, random);
    NearProduct(interval, random, x, y, w, z);
    NiTheorems.ResponseTimeoutRange(interval, random);
    NiTheorems.CeilDivIsLeast(e, 1000);
    NiTheorems.Scaled(random + 500, 1499, interval);
  }
}
