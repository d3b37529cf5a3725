/**
 * The order-price rule of the printing-order service.
 *
 * The price of an order depends on the page count and on the delivery tier
 * chosen on the order form. A base price is picked by page band, multiplied
 * by a surcharge for fast delivery and rounded to a whole currency unit.
 *
 * The source computes the surcharge with the floating-point factors 1.5 and
 * 1.2. Here every factor is an exact integer number of tenths (15, 12, 10),
 * and the final rounding divides by ten. The lemma RoundingIsExact shows
 * that nothing is lost by this: the base price is always a multiple of 50,
 * so the product is always a whole number of currency units.
 */
module Pricing {

  /** The price rendered on the order form before the customer fills it in. */
  const IndicativePrice: int := 100

  /** Delivery tiers the rule knows by name; any other string is standard. */
  const Immediate: string := "immediate"
  const OneDay: string := "oneday"

  /** True of a delivery string that carries no surcharge. */
  predicate IsStandard(delivery: string) {
    delivery != Immediate && delivery != OneDay
  }

  // ---------------------------------------------------------------------------
  // Arithmetic helpers: the two JavaScript Math functions the rule uses
  // ---------------------------------------------------------------------------

  /** Math.ceil(n / d) for a positive divisor: the least q with n <= q * d. */
  function CeilDiv(n: int, d: int): (q: int)
    requires d > 0
    ensures n <= q * d
    ensures (q - 1) * d < n
  {
    (n + d - 1) / d
  }

  /**
   * Math.round(n / 10): the integer nearest to n / 10, with a tie going
   * towards positive infinity, as JavaScript rounds.
   */
  function RoundTenths(n: int): (r: int)
    ensures 10 * r - 5 <= n < 10 * r + 5
  {
    (n + 5) / 10
  }

  /** Multiplying both sides by a positive factor keeps their order. */
  lemma MulLeft(a: int, b: int, d: int)
    requires a <= b && d > 0
    ensures a * d <= b * d
  {
  }

  /** Any q meeting the ceiling's two bounds is the ceiling. */
  lemma CeilDivUnique(n: int, d: int, q: int)
    requires d > 0
    requires n <= q * d && (q - 1) * d < n
    ensures CeilDiv(n, d) == q
  {
  }

  /** Math.ceil(x / d) is non-decreasing in x. */
  lemma CeilDivMonotone(m: int, n: int, d: int)
    requires m <= n && d > 0
    ensures CeilDiv(m, d) <= CeilDiv(n, d)
  {
    var a, b := CeilDiv(m, d), CeilDiv(n, d);
    if a > b {
      MulLeft(b, a - 1, d);
      assert false;
    }
  }

  /** Math.round returns k exactly when its argument is the whole number k. */
  lemma RoundOfWhole(k: int)
    ensures RoundTenths(10 * k) == k
  {
  }

  // ---------------------------------------------------------------------------
  // calculatePrice and its two parts
  // ---------------------------------------------------------------------------

  /**
   * The base price by page band. Up to 50 pages (zero and negative counts
   * included, since nothing validates them) it is 100; up to 100 pages it is
   * 150; beyond that, 150 plus 50 for every started block of 50 pages past
   * the hundredth. The second band and the third override the first the way
   * the source's guarded assignments do.
   */
  function BasePrice(pages: int): (b: int)
    ensures b >= 100
  {
    var b0 := 100;
    var b1 := if pages > 50 && pages <= 100 then 150 else b0;
    if pages > 100 then 150 + CeilDiv(pages - 100, 50) * 50 else b1
  }

  /** The delivery multiplier in tenths: x1.5, x1.2, or x1 for any other string. */
  function MultiplierTenths(delivery: string): (m: int)
    ensures m == 15 <==> delivery == Immediate
    ensures m == 12 <==> delivery == OneDay
    ensures m == 10 <==> IsStandard(delivery)
  {
    var m0 := 10;
    if delivery == Immediate then m0 + 5
    else if delivery == OneDay then m0 + 2
    else m0
  }

  /**
   * calculatePrice(pages, delivery): Math.round(basePrice * multiplier).
   * The price is exactly the base price times the multiplier; the rounding
   * loses nothing (see RoundingIsExact).
   */
  function CalculatePrice(pages: int, delivery: string): (price: int)
    ensures 10 * price == BasePrice(pages) * MultiplierTenths(delivery)
  {
    var product := BasePrice(pages) * MultiplierTenths(delivery);
    // The base price is 50 * j, so the product in tenths is ten times 5 * j * m.
    BasePriceMultipleOf50(pages);
    assert product == 10 * (5 * (BasePrice(pages) / 50) * MultiplierTenths(delivery));
    RoundTenths(product)
  }

  // ---------------------------------------------------------------------------
  // The base price
  // ---------------------------------------------------------------------------

  /**
   * The three page bands. In the top band the number of 50-page blocks added
   * to 150 is the least k with pages - 100 <= 50 * k, which is what
   * Math.ceil((pages - 100) / 50) means.
   */
  lemma BasePriceBands(pages: int)
    ensures pages <= 50 ==> BasePrice(pages) == 100
    ensures 50 < pages <= 100 ==> BasePrice(pages) == 150
    ensures pages > 100 ==>
      exists k: int {:trigger 50 * k} ::
        && BasePrice(pages) == 150 + 50 * k
        && pages - 100 <= 50 * k
        && 50 * (k - 1) < pages - 100
  {
    if pages > 100 {
      var k := CeilDiv(pages - 100, 50);
      assert BasePrice(pages) == 150 + 50 * k;
    }
  }

  /** Worked values of the top band: one more page past a block starts a new one. */
  lemma BasePriceExamples()
    ensures BasePrice(0) == 100 && BasePrice(-7) == 100 && BasePrice(50) == 100
    ensures BasePrice(51) == 150 && BasePrice(100) == 150
    ensures BasePrice(101) == 200 && BasePrice(150) == 200
    ensures BasePrice(151) == 250 && BasePrice(200) == 250 && BasePrice(201) == 300
  {
  }

  /** The base price is always a whole number of 50-unit steps. */
  lemma BasePriceMultipleOf50(pages: int)
    ensures BasePrice(pages) % 50 == 0
  {
  }

  /** More pages never cost less. */
  lemma BasePriceMonotone(p: int, q: int)
    requires p <= q
    ensures BasePrice(p) <= BasePrice(q)
  {
  }

  /**
   * An independent statement of the band rule, by steps: the first three
   * bands are listed, and every further 50 pages add 50.
   */
  function StepPrice(pages: int): (b: int)
    decreases pages
  {
    if pages <= 50 then 100
    else if pages <= 100 then 150
    else if pages <= 150 then 200
    else StepPrice(pages - 50) + 50
  }

  /** The source's ceiling formula agrees with the step-by-step rule everywhere. */
  lemma {:induction false} BasePriceMatchesSteps(pages: int)
    ensures BasePrice(pages) == StepPrice(pages)
    decreases pages
  {
    if pages > 150 {
      BasePriceMatchesSteps(pages - 50);
      var k := CeilDiv(pages - 150, 50);
      assert (k + 1 - 1) * 50 < pages - 100;
      assert pages - 100 <= (k + 1) * 50;
      CeilDivUnique(pages - 100, 50, k + 1);
    } else if pages > 100 {
      CeilDivUnique(pages - 100, 50, 1);
    }
  }

  // ---------------------------------------------------------------------------
  // The final price
  // ---------------------------------------------------------------------------

  /**
   * Math.round never changes the value: base price times the multiplier is
   * always a whole number of currency units, and the price is that number.
   */
  lemma RoundingIsExact(pages: int, delivery: string)
    ensures (BasePrice(pages) * MultiplierTenths(delivery)) % 10 == 0
    ensures 10 * CalculatePrice(pages, delivery) == BasePrice(pages) * MultiplierTenths(delivery)
  {
  }

  /**
   * The price per tier: base and a half for immediate delivery, base and a
   * fifth for next-day delivery, the base itself for every other string.
   * The halves and fifths have no remainder.
   */
  lemma PriceByTier(pages: int, delivery: string)
    ensures BasePrice(pages) % 2 == 0 && BasePrice(pages) % 5 == 0
    ensures delivery == Immediate ==>
      CalculatePrice(pages, delivery) == BasePrice(pages) + BasePrice(pages) / 2
    ensures delivery == OneDay ==>
      CalculatePrice(pages, delivery) == BasePrice(pages) + BasePrice(pages) / 5
    ensures IsStandard(delivery) ==> CalculatePrice(pages, delivery) == BasePrice(pages)
  {
  }

  /** For a fixed page count immediate costs more than next-day, which costs more than standard. */
  lemma TierOrdering(pages: int, delivery: string)
    requires IsStandard(delivery)
    ensures CalculatePrice(pages, Immediate) > CalculatePrice(pages, OneDay)
    ensures CalculatePrice(pages, OneDay) > CalculatePrice(pages, delivery)
  {
  }

  /** For a fixed delivery tier more pages never cost less. */
  lemma PriceMonotone(p: int, q: int, delivery: string)
    requires p <= q
    ensures CalculatePrice(p, delivery) <= CalculatePrice(q, delivery)
  {
  }

  /** Every order costs at least the indicative price. */
  lemma PriceAtLeastIndicative(pages: int, delivery: string)
    ensures CalculatePrice(pages, delivery) >= IndicativePrice
  {
  }

  /**
   * The indicative price on the order form is the real price exactly for
   * orders of at most 50 pages with no delivery surcharge.
   */
  lemma IndicativePriceMatches(pages: int, delivery: string)
    ensures CalculatePrice(pages, delivery) == IndicativePrice
        <==> pages <= 50 && IsStandard(delivery)
  {
  }

  /** Worked prices across the bands and tiers. */
  lemma PriceExamples()
    ensures CalculatePrice(10, "standard") == 100
    ensures CalculatePrice(10, Immediate) == 150 && CalculatePrice(10, OneDay) == 120
    ensures CalculatePrice(80, Immediate) == 225 && CalculatePrice(80, OneDay) == 180
    ensures CalculatePrice(120, OneDay) == 240 && CalculatePrice(120, "instant") == 200
    ensures CalculatePrice(120, "1-day") == 200
    ensures CalculatePrice(151, Immediate) == 375
  {
  }
}
