# Order-price calculator of the printing-order service

The service takes a document-printing order from a web form and emails it to the shop.
The only rule it computes itself is `calculatePrice(pages, delivery)` in `app.js`.
This project models that rule in Dafny (`pricing.dfy`, module `Pricing`) and proves its properties.

The rule has two parts:

- **Base price by page band.** It is 100 for at most 50 pages. It is 150 for 51 to 100 pages.
  Above 100 pages it is 150 plus 50 for every started block of 50 pages past the hundredth.
- **Delivery multiplier.** It is ×1.5 for `"immediate"`, ×1.2 for `"oneday"` and ×1 for any other string.
  The product is rounded with `Math.round`.

Modelling choices:

- Page counts are unbounded integers. Zero and negative counts are allowed, because the function does not validate them.
- The multipliers are exact integer tenths (15, 12, 10). `Math.round(x)` on `x = n / 10` is `RoundTenths(n)`: the nearest integer, with a tie going up as in JavaScript. `Math.ceil((pages - 100) / 50)` is `CeilDiv`, which is characterised by its two bounds.
- `RoundingIsExact` proves that this integer model loses nothing. The base price is always a multiple of 50, so the product is always a whole number and the rounding step never changes it.
- `StepPrice` is an independent, step-by-step statement of the band rule (every further 50 pages add 50). `BasePriceMatchesSteps` proves the source's ceiling formula equal to it for every page count.

Only the exact strings `"immediate"` and `"oneday"` carry a surcharge. Names such as `"instant"` or `"1-day"` get multiplier 1 like any other string (`MultiplierTenths`; worked values in `PriceExamples`).

## Model

| member | source | states |
|---|---|---|
| Pricing.CeilDiv | app.js:25 | `Math.ceil(n / d)` for positive `d`: the result `q` is the least integer with `n <= q * d`. |
| Pricing.RoundTenths | app.js:31 | `Math.round(n / 10)`: the result `r` satisfies `r - 0.5 <= n/10 < r + 0.5`, so a tie rounds up. |
| Pricing.CeilDivUnique | app.js:25 | Any integer meeting the ceiling's two bounds is the ceiling. |
| Pricing.CeilDivMonotone | app.js:25 | `Math.ceil(x / d)` is non-decreasing in `x`. |
| Pricing.BasePrice | app.js:23-25 | The base price is at least 100 for every page count. |
| Pricing.MultiplierTenths | app.js:27-29 | The multiplier is 1.5 iff delivery is `"immediate"`, 1.2 iff it is `"oneday"`, and 1 iff it is any other string. |
| Pricing.CalculatePrice | app.js:22-32 | The price times 10 is exactly the base price times the multiplier in tenths, so `Math.round` loses nothing. Its per-tier values, tier order, monotonicity and lower bound are the lemmas `PriceByTier`, `TierOrdering`, `PriceMonotone` and `PriceAtLeastIndicative`. |
| Pricing.BasePriceBands | app.js:23-25 | The base price is 100 for `pages <= 50` (including 0 and negatives) and 150 for `50 < pages <= 100`. Above 100 it is `150 + 50k`, where `k` is the least integer with `pages - 100 <= 50k`. |
| Pricing.BasePriceExamples | app.js:23-25 | Worked band values: 101 and 150 pages give 200, 151 and 200 give 250, and 201 gives 300. |
| Pricing.BasePriceMultipleOf50 | app.js:23-25 | The base price is always a multiple of 50. |
| Pricing.BasePriceMonotone | app.js:23-25 | The base price is non-decreasing in the page count. |
| Pricing.BasePriceMatchesSteps | app.js:23-25 | The ceiling formula equals the step-by-step band rule (100, 150, 200, then +50 per 50 pages) for every page count. |
| Pricing.RoundingIsExact | app.js:31 | `basePrice * multiplier` is always a whole number, and `Math.round` returns it unchanged. |
| Pricing.PriceByTier | app.js:27-31 | The base is divisible by 2 and by 5. The price is base + base/2 for `"immediate"`, base + base/5 for `"oneday"`, and the base itself for any other string. |
| Pricing.TierOrdering | app.js:23-31 | For a fixed page count, immediate costs strictly more than next-day, which costs strictly more than any other tier. |
| Pricing.PriceMonotone | app.js:23-31 | For a fixed delivery string, the price is non-decreasing in the page count. |
| Pricing.PriceAtLeastIndicative | app.js:23-31 | No order costs less than 100. |
| Pricing.IndicativePriceMatches | app.js:36 | The price 100 shown by `GET /` is the computed price iff `pages <= 50` and the delivery string carries no surcharge. |
| Pricing.PriceExamples | app.js:22-32 | Worked prices across bands and tiers. For example, 120 pages with `"oneday"` costs 240, and with `"instant"` or `"1-day"` costs 200. |

## Left out

- Express setup, view rendering, static files and body parsing (app.js:8-15, 35-37, 72): framework configuration with no logic of its own. The model keeps only the indicative price 100 from app.js:36.
- Multer in-memory upload handling (app.js:18-19, 39, 41): a foreign library. This code does no size or type validation, so there is nothing to model.
- Nodemailer transport, `sendMail`, the email text and the success/500 responses (app.js:45-69): external network I/O.
- `Number(pages)` parsing (app.js:43): `pages` is modelled as an integer. Non-numeric input (NaN), fractional page counts and JavaScript coercion are not modelled.
- Request bodies where `delivery` is missing or not a string: `delivery` is modelled as a string. An absent value behaves like any other non-surcharged string in the source.
- IEEE-754 arithmetic on the factors 1.5 and 1.2: replaced by exact integer tenths. `RoundingIsExact` shows the integer result is the exact mathematical one. Floating-point error and number-width limits for very large page counts are not modelled.
- Environment configuration through dotenv (app.js:6, 9, 48, 53): process-level I/O.
