# Getaround delay dashboard: the threshold simulator and the delay-range counts

The Getaround dashboard is a Streamlit page over a cleaned extract of car
rentals. Nearly all of it is charts. Two computations on the extract are
modelled here:

- **The threshold simulator**, `resolved_rentals(threshold, scope)`. A product
  manager picks a minimum delay between two rentals, in minutes, and a scope.
  The scope is either "connect" (cars with the Connect checkin system) or
  "all". The simulator keeps the rentals returned late, that is those with a
  positive `delay_at_checkout_in_minutes`. Under scope "connect" it keeps only
  those checked in with "connect". It counts how many of them were late by at
  most the threshold and returns that count as a percentage of the late
  rentals.
- **The delay-range bar chart**. It drops the rows whose `delay_range` is
  "On time" or "Unknown", counts the remaining rows per delay range, and selects
  those counts in the chart's fixed category order.

The extract is a `seq<Rental>`. Each row keeps three columns: the delay at
checkout, the checkin type and the delay range. A missing delay or delay
range (NaN) is `None`. The checkin type is a plain string; a missing checkin
type is any string other than "connect", since in pandas NaN is unequal to
"connect" (DASHBOARD/getaround.py:466). In pandas a NaN delay compares false both to `> 0` and to
`<= threshold`, so such a row is never late. A NaN delay range is unequal to
both excluded labels, so the exclusion mask keeps it, but no category counts
it.

Module `Masks` (masks.dfy) models pandas boolean-mask selection as `Filter`
(the kept rows, in order) and `Count` (the number of rows the mask keeps), with
the lemmas that relate them. Module `Getaround` (getaround.dfy) holds the
dashboard's computations:

- `ResolvedRentals` computes the percentage as an exact `real`.
- A scope with no late rentals gives `Err(DivisionByZero)`. The source divides
  by `len(late_rentals)` and raises an exception in that case.
- When a category has no rows, `.loc[cat_order]` fails because `value_counts`
  lists only the labels that occur. The model returns
  `Err(MissingLabels(...))`, naming the absent categories.

The dashboard's radio (DASHBOARD/getaround.py:486-488) offers "connect" and
"all", but `resolved_rentals` tests only `scope == "connect"`, so any other
string behaves as "all" (`OtherScopesAreAll`). At the slider's top position,
720, the result is 100 exactly when no late delay of the scope exceeds 720
minutes (`SliderEndSolvesAll`, `ResolvedAllIff`).

## Model

| member | source | states |
|---|---|---|
| Masks.FilterContents | DASHBOARD/getaround.py:466-467 | a boolean-mask selection holds each row that satisfies the mask exactly as often as the table does, and no other row |
| Getaround.LateRentalsContents | DASHBOARD/getaround.py:465-471 | the late rentals of a scope are the rows with a positive delay, restricted to checkin type "connect" only under scope "connect", each as often as in the table; there are none exactly when no row is late in the scope |
| Getaround.Percentage | DASHBOARD/getaround.py:468 | the ratio of solved to late rentals times 100 lies between 0 and 100 inclusive whenever the solved count does not exceed the late count |
| Getaround.ResolvedRentals | DASHBOARD/getaround.py:464-474 | the result is a division-by-zero error exactly when the scope has no late rental; otherwise it lies between 0 and 100 inclusive |
| Getaround.LateCount | DASHBOARD/getaround.py:465-471 | the denominator equals a one-pass count of the table's rows that are late in the scope |
| Getaround.SolvedCount | DASHBOARD/getaround.py:466-472 | the numerator, a filter applied to the filtered late rows, equals a one-pass count of the rows that are late in the scope and within the threshold |
| Getaround.ResolvedByCounts | DASHBOARD/getaround.py:464-474 | the simulator's result equals the raw-table count formula: an error when no row is late in the scope, else 100 times solved over late |
| Getaround.ResolvedMonotone | DASHBOARD/getaround.py:467-473 | for a fixed table and scope, a larger threshold never gives a smaller percentage, and both thresholds fail or succeed together |
| Getaround.ResolvedNoneIff | DASHBOARD/getaround.py:466-473 | the result is 0 if and only if the scope has late rentals and every one of them is later than the threshold |
| Getaround.ResolvedAllIff | DASHBOARD/getaround.py:466-473 | the result is 100 if and only if the scope has late rentals and none of them is later than the threshold |
| Getaround.NonPositiveThresholdSolvesNone | DASHBOARD/getaround.py:466-472 | any threshold of zero or less gives 0 whenever there is a result |
| Getaround.CoveringThresholdSolvesAll | DASHBOARD/getaround.py:467-473 | a threshold at or above every late delay of the scope gives exactly 100 whenever there is a result |
| Getaround.OtherScopesAreAll | DASHBOARD/getaround.py:465-474 | every scope string other than "connect" gives the same result as "all" |
| Getaround.ResolvedReadsOnlyItsColumns | DASHBOARD/getaround.py:465-473 | two tables that agree row by row on the delays, and under scope "connect" on which rows are "connect", give the same result; outside "connect" the checkin type is ignored |
| Getaround.ConnectWithinAll | DASHBOARD/getaround.py:466-472 | the "connect" late rentals are a sub-multiset of the "all" late rentals; for any threshold the "connect" late and solved counts are at most the "all" ones |
| Getaround.UncountedRentalIgnored | DASHBOARD/getaround.py:466-471 | a row that is not late in the scope (delay of zero or less, missing, or not "connect" under scope "connect") can be removed without changing the late rentals or the result |
| Getaround.SliderStartSolvesNone | DASHBOARD/getaround.py:479-483 | the slider's lowest position, 0, is a slider value and gives 0 |
| Getaround.SliderEndSolvesAll | DASHBOARD/getaround.py:479-483 | the slider's highest position, 720, is a slider value and gives 100 when no late delay of the scope exceeds 720 minutes |
| Getaround.DelayCategoriesValid | DASHBOARD/getaround.py:183-184 | the seven chart categories are distinct and include neither "On time" nor "Unknown" |
| Getaround.ExclusionKeepsCount | DASHBOARD/getaround.py:181 | removing the "On time" and "Unknown" rows does not change the count of any other label |
| Getaround.CategoryCountsSpec | DASHBOARD/getaround.py:181-186 | counting per category and selecting in order succeeds exactly when every category occurs; then it gives one positive count per category, in order, equal to that category's row count in the whole table; otherwise it fails naming exactly the absent categories |
| Getaround.DelayRangeCountsSpec | DASHBOARD/getaround.py:181-186 | the same statement for the chart's own seven categories |
| Getaround.SumValueCounts | DASHBOARD/getaround.py:186 | for distinct labels, the per-label counts add up to the number of rows carrying one of the labels |
| Getaround.CategoryBarsTotal | DASHBOARD/getaround.py:181-189 | the bars add up to the number of rows carrying a category, which is at most the number of rows the exclusion keeps |
| Getaround.DelayBarsTotal | DASHBOARD/getaround.py:181-189 | the same statement for the chart's own seven categories |

## Left out

- Page setup, CSS, the banner image, metrics, the slider and radio widgets, and all Plotly chart construction (DASHBOARD/getaround.py:10-80, 101-180, 187-460, 476-491). These are presentation; the slider enters the model only through its range, 0 to 720 in steps of 30.
- The threshold is an `int`. The Python function accepts any number, a fractional one too; the slider passes whole minutes and the delays are whole minutes, so nothing observable is lost.
- Loading the three CSV extracts (DASHBOARD/getaround.py:83-85). This is file I/O. The model takes the cleaned extract as its input table.
- Getaround.Percentage: float division and `round(..., 2)` are not modelled. The ratio is an exact `real`, so the contracts are about the exact percentage, not its two-decimal float rendering.
- The other rounded ratios among the metrics (DASHBOARD/getaround.py:226, 395, 399), the medians (197, 201) and the hard-coded pie values (233). These are float numerics or fixed data.
- The exception raised by pandas is modelled as an error value. Its type and message (ZeroDivisionError, KeyError) are not.
- Column types beyond the three read columns. The delay is taken to be an integer number of minutes when present.
- API/app.py is not part of this model. It checks a fixed request record with Pydantic and passes it to an opaque regressor loaded from disk; there is no logic of its own to state.
