# Marketing forecast — a Dafny model

This project models the forecasting engine of a small marketing-planning app.
The app holds two versions of `calculate_forecast`, and they compute different
things. Both are modelled here.

- **Churn-aware forecast** (`final_app.py`, module `ChurnForecast`). Each
  channel entry's visitor count compounds by `1 + g/100` after every month, on
  its own. Each month, trials, paying customers and MRR (99 per customer) are
  recomputed from that month's visitors. A same-month churn cut
  `1 - churn/100` is then applied. CAC, LTV and ROI use "divide, or 0"
  guards. Rows come out entry-major, with months ascending inside an entry.
  Cost, MRR and customers are summed over every row.
- **Share-apportioned forecast** (`app.py`, lines 15-66, modules
  `ShareForecast` and `ShareTotals`).
  - Each entry's first-month MRR is stored in a dictionary under the key
    `channel + medium`. Their sum is the month-1 MRR target, which grows by
    `1 + g/100` before every later month.
  - Each month, the target is split across the entries in proportion to the
    value each entry looks up. Paying customers, trials and visitors are then
    solved backwards through the conversions. Rows come out month-major.
  - The reported MRR is the last month's target, not a sum over rows.
  - Python raises `ZeroDivisionError` when the dictionary's values sum to
    zero, or when an entry's conversion to paid or to trial is zero. The
    model returns `Err` naming the failing division, in the order the loop
    meets them. The two conversion failures also carry the entry's
    position. A zero total carries none: it always fails at the first entry
    of month 1.

Shared pieces live in `Channels`: the `Entry` record, the unit price 99,
percentages, compounding and the guarded acquisition cost. `InsertionDict`
models the Python `dict` the share forecast uses. It keeps slots in
first-insertion order. Assigning to a present key replaces the value in its
slot, and assigning to a new key appends a slot.

All quantities are exact `real`s. Every operation is a pure function over
immutable datatypes; the loops are mirrored by methods. The methods are proved
equal to the functions (`ChurnForecast.CalculateForecast`,
`ShareForecast.CalculateShareForecast`). Keys are plain string concatenation,
so `"ab" + "c"` and `"a" + "bc"` collide exactly as they do in Python.

Where the two versions and their callers differ in ways the model has to
settle:

- `app.py` raises `ZeroDivisionError` at lines 45, 48 and 49, while
  `final_app.py` guards every division at lines 37-39. The share version's
  errors are modelled as `Err`.
- The input form offers only 1-120 months (`app.py` line 163, `final_app.py`
  line 109). The engine itself runs `range(1, months + 1)`, which is empty
  for `months <= 0`, so `months` is a `nat` and 0 gives no rows.
- Visitors never depend on churn (`final_app.py` lines 28-34 and 60), so
  `VisitorsGrow` needs only positive growth and positive first-month
  visitors.

## Model

| member | source | states |
|---|---|---|
| Channels.Fraction | final_app.py:20-22 | A percentage becomes a fraction that is exactly one hundredth of it, and the fraction is zero iff the percentage is. |
| Channels.AcquisitionCost | final_app.py:37 | CAC times paying customers is the cost when there are paying customers; otherwise CAC is 0 (the same guard is used for the share rows' CAC). |
| Channels.CompoundedClosedForm | final_app.py:60 | Multiplying a value by the growth factor after each of n months gives value × factor^n. |
| InsertionDict.Get | app.py:45 | A lookup of a present key returns the value held in a slot with that key. |
| InsertionDict.PutShape | app.py:29 | Assignment adds exactly its key; a new key becomes the new last slot, and a present key keeps the slot count. |
| InsertionDict.PutInPlace | app.py:29 | In a dictionary whose keys are distinct (as every one built by assignment is), assigning to a key rewrites only the slot that holds it, in place; every other slot keeps its position and contents. |
| InsertionDict.GetPut | app.py:29 | After assignment the key reads back the new value and every other key reads back its old value. |
| InsertionDict.PutKeepsDistinct | app.py:29 | Assignment never gives one key two slots. |
| InsertionDict.ValuesSumPut | app.py:29 | Assignment changes the sum of the values by the new value minus the value it overwrites, if any. |
| ChurnForecast.LifetimeValue | final_app.py:38 | With positive churn, LTV × churn is a year of MRR; otherwise LTV is 0. |
| ChurnForecast.ReturnOnInvestment | final_app.py:39 | With positive CAC, CAC × (1 + ROI) is LTV; otherwise ROI is 0. |
| ChurnForecast.CalculateForecast | final_app.py:12-62 | The nested loops produce exactly the reference rows, the totals are the sums over those rows, and no entries give no rows and totals 0. |
| ChurnForecast.EmitEntry | final_app.py:27-60 | One entry's inner loop, with visitors multiplied by the growth factor after each month, appends that entry's months 1..N and keeps the totals equal to the row sums. |
| ChurnForecast.RowsLength | final_app.py:18-27 | There are |entries| × months rows. |
| ChurnForecast.EntryRowsAt | final_app.py:27-60 | An entry's k-th row is month k + 1 with its first-month visitors compounded k times. |
| ChurnForecast.RowAt | final_app.py:18-60 | Row i × months + k is entry i's month k + 1, and its visitors are that entry's own visitors compounded k times: entry-major order, with no growth carried between entries. |
| ChurnForecast.RowFigures | final_app.py:28-34 | In month k + 1, visitors are the first month's visitors × factor^k, paying customers are visitors × both conversions × (1 − churn), and MRR is 99 per paying customer. |
| ChurnForecast.NoChurnKeepsGross | final_app.py:33-38 | With zero churn, customers and MRR equal the gross figures and LTV is 0. |
| ChurnForecast.ZeroConversionZeroCustomers | final_app.py:28-37 | A zero conversion to trial or to paid gives no customers, no MRR and CAC 0 in every month of that entry. |
| ChurnForecast.VisitorsGrow | final_app.py:60 | With positive growth and positive visitors, an entry's visitors strictly rise from each month to the next. |
| ChurnForecast.TotalCostIsMonthsTimesCost | final_app.py:42 | Total cost is months × the summed monthly cost of all entries. |
| ChurnForecast.TotalMrrIsPriceTimesCustomers | final_app.py:43-44 | Total MRR is 99 × total paying customers. |
| ChurnForecast.WorkedExample | final_app.py:27-39 | 1000 visitors, 2% to trial, 20% to paid, 2% churn and cost 500 give 20 trials, 3.92 customers, MRR 388.08, CAC × 3.92 = 500 and LTV 232848 in month 1, and 1100 visitors in month 2. |
| ShareForecast.ContributionPass | app.py:24-29 | The first loop leaves the contribution dictionary and the running MRR equal to the sum of every entry's contribution, duplicates included. |
| ShareForecast.ContributionsShape | app.py:24-29 | The dictionary has exactly one slot per distinct entry key. |
| ShareForecast.ContributionsCover | app.py:44-45 | Every entry's key is in the dictionary, so the lookup never fails. |
| ShareForecast.LastContributionWins | app.py:29 | Every entry looks up the contribution of the last entry with the same key. |
| ShareForecast.DistinctTotal | app.py:28-29 | With distinct keys, the divisor (sum of the dictionary's values) equals the month-1 target. |
| ShareForecast.FinalMrr | app.py:31-34 | The reported MRR is the initial target × factor^(months − 1), or the initial target when there are no months. |
| ShareForecast.FinalMrrClosedForm | app.py:31-34 | A successful forecast reports that closed form, not a sum over rows. |
| ShareForecast.EntryRow | app.py:44-49 | One entry's step succeeds iff the divisor and both conversions are nonzero; otherwise it fails at the first zero in the order total, conversion to paid, conversion to trial. |
| ShareForecast.EntryRowFigures | app.py:45-49 | A computed row's MRR × divisor is the looked-up contribution × target, its customers at 99 are its MRR, and its visitors through both conversions are its customers. |
| ShareForecast.MonthRows | app.py:36-64 | A month succeeds iff no entry divides by zero, fails with the first failure otherwise, and has one row per entry. |
| ShareForecast.MonthRowAt | app.py:36-61 | Entry j's row in a month is that entry's step in input order. |
| ShareForecast.AllRows | app.py:31-64 | The months succeed iff there are none or no entry divides by zero, fail with the first failure otherwise, and give months × |entries| rows. |
| ShareForecast.StopAt | app.py:45-49 | The first failing entry decides the month's outcome. |
| ShareForecast.AllRowsErrPersists | app.py:31-36 | Once a month fails, no later month changes the outcome. |
| ShareForecast.Calculate | app.py:15-66 | The forecast fails iff there are months and entries and the divisor is zero or some conversion is zero; the failure is the first one met; otherwise there are months × |entries| rows. |
| ShareForecast.EmitMonth | app.py:36-64 | One month's inner loop appends the month's rows and running totals, or stops at the first division by zero. |
| ShareForecast.CalculateShareForecast | app.py:15-66 | The loops compute exactly the reference forecast, including the failure. |
| ShareForecast.AllRowsMonth | app.py:31-36 | Month m's slice of the rows is that month's inner loop at the target grown m − 1 times. |
| ShareForecast.ShareRowAt | app.py:31-61 | Row (m − 1) × |entries| + j is entry j's step for month m: month-major order, entries in input order. |
| ShareForecast.MonthSharesSumToTarget | app.py:45 | With distinct keys, the entries' MRR in a month adds up to that month's target. |
| ShareForecast.EntryRowRecovers | app.py:45-49 | When an entry looks up its own contribution and the target is the divisor, its back-solved visitors are its input visitors. |
| ShareForecast.FirstMonthRecoversVisitors | app.py:24-49 | Round trip: with distinct keys, month 1's back-solved visitors of every entry are its input visitors. |
| ShareTotals.MonthRowsCost | app.py:63 | One month adds every entry's cost once. |
| ShareTotals.ShareTotalCost | app.py:63 | Total cost is months × the summed monthly cost of all entries. |
| ShareTotals.CustomersAtPrice | app.py:47 | Summed customers at 99 each are the summed MRR of the rows. |
| ShareTotals.ShareCustomersPriced | app.py:64 | The reported customers at 99 each are the MRR summed over all rows. |
| ShareTotals.DistinctCustomersMeetTargets | app.py:31-64 | With distinct keys, the reported customers at 99 each are exactly the monthly targets added up, including for no entries, where both are 0. |
| ShareTotals.ShareTotalSnoc | app.py:29 | One more entry adds its contribution to the divisor and removes the value it overwrites, so each key counts once. |
| ShareTotals.DuplicateKeyDoubleCounts | app.py:29-45 | Two entries under one key leave only the second contribution in the divisor, and both are given the whole month-1 target. |
| ShareTotals.EmptyShareForecast | app.py:15-66 | No entries give no rows and totals 0 for any number of months. |

## Left out

- The Streamlit layout, widgets, sidebar navigation and session-state list (`app.py` lines 5-12 and 111-189; `final_app.py` lines 5-9 and 64-131) are user interface, not forecasting.
- The pandas `DataFrame` is a foreign library. Rows are a `seq` of records instead.
- `round(...)` on the displayed fields and on the returned totals is left out. It is float and banker's-rounding behaviour, so every property is stated on the unrounded values.
- IEEE floating point is left out. The model uses exact reals, so overflow, NaN and float division rounding do not arise.
- The second body of `calculate_forecast` in `app.py` (lines 67-109) is left out. It follows the `return` on line 66 and can never run.
- The summary divisions done by the display layer (`app.py` lines 179 and 185; `final_app.py` lines 119-123) are presentation.
- Negative `months`: the model's `months` is a `nat`. Python's `range` treats any `months <= 0` like 0, which the model covers.
- Field types: an entry's fields are typed, so the `TypeError`/`KeyError` a malformed input dictionary would raise is not modelled. The engine itself validates nothing, and neither does the model.
- ShareForecast.Row stores only the MRR. Paying customers, trials and visitors are derived from it by the same divisions as lines 47-49 of `app.py`, so `EmitMonth` checks both conversions for zero but leaves the back-solving to the row.
- ShareForecast.MonthSharesSumToTarget: requires at least one entry, because a month with no entries has no rows whatever the target.
