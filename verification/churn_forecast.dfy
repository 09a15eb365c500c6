/** The churn-aware forecast of final_app.py: every entry's visitor count
    compounds monthly on its own; trials, paying customers and MRR are
    recomputed from that month's visitors and then cut by the churn rate in
    the same month. Rows are entry-major, months ascending within an entry,
    and the totals are sums over every row. */
module ChurnForecast {
  import opened Channels

  /** Lifetime value: a year of MRR over the churn fraction; 0 without churn. */
  function LifetimeValue(mrr: real, churn: real): (ltv: real)
    ensures churn > 0.0 ==> ltv * churn == mrr * 12.0
    ensures churn <= 0.0 ==> ltv == 0.0
  {
    if churn > 0.0 then (mrr * 12.0) / churn else 0.0
  }

  /** Return on acquisition spend; 0 unless the acquisition cost is positive. */
  function ReturnOnInvestment(ltv: real, cac: real): (roi: real)
    ensures cac > 0.0 ==> cac * (1.0 + roi) == ltv
    ensures cac <= 0.0 ==> roi == 0.0
  {
    if cac > 0.0 then (ltv - cac) / cac else 0.0
  }

  /** One (month, entry) line of the forecast table, before display rounding.
      Every figure is a function of the entry and that month's visitors
      alone: nothing is carried over from an earlier month. */
  datatype Row = Row(month: nat, entry: Entry, siteVisitors: real) {

    function Trials(): real
    {
      siteVisitors * Fraction(entry.conversionToTrial)
    }

    /** Paying customers before the churn cut. */
    function GrossPaid(): real
    {
      Trials() * Fraction(entry.conversionToPaid)
    }

    function Churn(): real
    {
      Fraction(entry.churnRate)
    }

    function PaidCustomers(): real
    {
      GrossPaid() * (1.0 - Churn())
    }

    function Mrr(): real
    {
      GrossPaid() * UnitPrice * (1.0 - Churn())
    }

    function Cost(): real
    {
      entry.cost
    }

    function Cac(): real
    {
      AcquisitionCost(Cost(), PaidCustomers())
    }

    function Ltv(): real
    {
      LifetimeValue(Mrr(), Churn())
    }

    function Roi(): real
    {
      ReturnOnInvestment(Ltv(), Cac())
    }
  }

  datatype Forecast = Forecast(rows: seq<Row>, totalCost: real, totalMrr: real, totalCustomers: real)

  /** The rows of one entry for months 1..count; the visitors of month m are
      the first month's visitors compounded m - 1 times. */
  function EntryRows(e: Entry, count: nat, growthRate: real): seq<Row>
  {
    if count == 0 then []
    else EntryRows(e, count - 1, growthRate)
         + [Row(count, e, Compounded(e.siteVisitors, GrowthFactor(growthRate), count - 1))]
  }

  /** All rows: each entry's months 1..months, entries in input order. */
  function Rows(entries: seq<Entry>, months: nat, growthRate: real): seq<Row>
  {
    if |entries| == 0 then []
    else Rows(entries[..|entries| - 1], months, growthRate) + EntryRows(entries[|entries| - 1], months, growthRate)
  }

  /** The running totals, summed in row order. */
  function TotalCost(rows: seq<Row>): real
  {
    if |rows| == 0 then 0.0 else TotalCost(rows[..|rows| - 1]) + rows[|rows| - 1].Cost()
  }

  function TotalMrr(rows: seq<Row>): real
  {
    if |rows| == 0 then 0.0 else TotalMrr(rows[..|rows| - 1]) + rows[|rows| - 1].Mrr()
  }

  function TotalCustomers(rows: seq<Row>): real
  {
    if |rows| == 0 then 0.0 else TotalCustomers(rows[..|rows| - 1]) + rows[|rows| - 1].PaidCustomers()
  }

  /** calculate_forecast of final_app.py: the nested loops, with visitors
      compounded by repeated multiplication after each month and the totals
      accumulated as the rows are emitted. */
  method CalculateForecast(entries: seq<Entry>, months: nat, growthRate: real) returns (f: Forecast)
    ensures f.rows == Rows(entries, months, growthRate)
    ensures f.totalCost == TotalCost(f.rows)
    ensures f.totalMrr == TotalMrr(f.rows)
    ensures f.totalCustomers == TotalCustomers(f.rows)
    ensures |entries| == 0 ==> f == Forecast([], 0.0, 0.0, 0.0)
  {
    f := Forecast([], 0.0, 0.0, 0.0);
    var i := 0;
    while i < |entries|
      invariant 0 <= i <= |entries|
      invariant f.rows == Rows(entries[..i], months, growthRate)
      invariant f.totalCost == TotalCost(f.rows)
      invariant f.totalMrr == TotalMrr(f.rows)
      invariant f.totalCustomers == TotalCustomers(f.rows)
      invariant i == 0 ==> f == Forecast([], 0.0, 0.0, 0.0)
    {
      f := EmitEntry(f, entries[i], months, growthRate);
      assert entries[..i + 1][..i] == entries[..i];
      i := i + 1;
    }
    assert entries[..|entries|] == entries;
  }

  /** The inner loop of calculate_forecast: one entry's months, its visitors
      multiplied by the growth factor after each month. */
  method EmitEntry(f: Forecast, e: Entry, months: nat, growthRate: real) returns (f': Forecast)
    requires f.totalCost == TotalCost(f.rows)
    requires f.totalMrr == TotalMrr(f.rows)
    requires f.totalCustomers == TotalCustomers(f.rows)
    ensures f'.rows == f.rows + EntryRows(e, months, growthRate)
    ensures f'.totalCost == TotalCost(f'.rows)
    ensures f'.totalMrr == TotalMrr(f'.rows)
    ensures f'.totalCustomers == TotalCustomers(f'.rows)
  {
    var g := GrowthFactor(growthRate);
    var rows, totalCost, totalMrr, totalCustomers := f.rows, f.totalCost, f.totalMrr, f.totalCustomers;
    var visitors := e.siteVisitors;
    var month: nat := 1;
    while month <= months
      invariant 1 <= month <= months + 1
      invariant visitors == Compounded(e.siteVisitors, g, month - 1)
      invariant rows == f.rows + EntryRows(e, month - 1, growthRate)
      invariant totalCost == TotalCost(rows)
      invariant totalMrr == TotalMrr(rows)
      invariant totalCustomers == TotalCustomers(rows)
    {
      var row := Row(month, e, visitors);
      totalCost := totalCost + row.Cost();
      totalMrr := totalMrr + row.Mrr();
      totalCustomers := totalCustomers + row.PaidCustomers();
      TotalsSnoc(rows, row);
      EntryRowsSnoc(e, month, growthRate, visitors);
      rows := rows + [row];
      visitors := visitors * g;
      month := month + 1;
    }
    f' := Forecast(rows, totalCost, totalMrr, totalCustomers);
  }

  lemma EntryRowsSnoc(e: Entry, month: nat, growthRate: real, visitors: real)
    requires month >= 1 && visitors == Compounded(e.siteVisitors, GrowthFactor(growthRate), month - 1)
    ensures EntryRows(e, month, growthRate) == EntryRows(e, month - 1, growthRate) + [Row(month, e, visitors)]
  {
  }

  lemma TotalsSnoc(rows: seq<Row>, r: Row)
    ensures TotalCost(rows + [r]) == TotalCost(rows) + r.Cost()
    ensures TotalMrr(rows + [r]) == TotalMrr(rows) + r.Mrr()
    ensures TotalCustomers(rows + [r]) == TotalCustomers(rows) + r.PaidCustomers()
  {
    assert (rows + [r])[..|rows|] == rows;
  }

  lemma {:induction false} EntryRowsLength(e: Entry, count: nat, growthRate: real)
    ensures |EntryRows(e, count, growthRate)| == count
  {
    if count > 0 {
      EntryRowsLength(e, count - 1, growthRate);
    }
  }

  /** One entry's run, row by row: its k-th row is month k + 1 with the
      entry's visitors compounded k times. */
  lemma {:induction false} EntryRowsAt(e: Entry, count: nat, growthRate: real, k: nat)
    requires k < count
    ensures |EntryRows(e, count, growthRate)| == count
    ensures EntryRows(e, count, growthRate)[k] == Row(k + 1, e, Compounded(e.siteVisitors, GrowthFactor(growthRate), k))
  {
    EntryRowsLength(e, count, growthRate);
    EntryRowsLength(e, count - 1, growthRate);
    if k < count - 1 {
      EntryRowsAt(e, count - 1, growthRate, k);
    }
  }

  /** There is one row per entry and month. */
  lemma {:induction false} RowsLength(entries: seq<Entry>, months: nat, growthRate: real)
    ensures |Rows(entries, months, growthRate)| == |entries| * months
  {
    if |entries| > 0 {
      RowsLength(entries[..|entries| - 1], months, growthRate);
      EntryRowsLength(entries[|entries| - 1], months, growthRate);
      assert (|entries| - 1) * months + months == |entries| * months;
    }
  }

  /** Ordering and compounding: row `i * months + k` belongs to entry i and
      month k + 1, and its visitors are that entry's own first-month
      visitors compounded k times. */
  lemma {:induction false} RowAt(entries: seq<Entry>, months: nat, growthRate: real, i: nat, k: nat)
    requires i < |entries| && k < months
    ensures i * months + k < |Rows(entries, months, growthRate)|
    ensures Rows(entries, months, growthRate)[i * months + k]
            == Row(k + 1, entries[i], Compounded(entries[i].siteVisitors, GrowthFactor(growthRate), k))
  {
    var n := |entries|;
    var prefix := entries[..n - 1];
    var head := Rows(prefix, months, growthRate);
    var tail := EntryRows(entries[n - 1], months, growthRate);
    assert Rows(entries, months, growthRate) == head + tail;
    RowsLength(prefix, months, growthRate);
    EntryRowsLength(entries[n - 1], months, growthRate);
    var index := i * months + k;
    BlockBounds(i, n, months, k);
    if i == n - 1 {
      EntryRowsAt(entries[n - 1], months, growthRate, k);
      assert (head + tail)[index] == tail[k];
    } else {
      RowAt(prefix, months, growthRate, i, k);
      assert prefix[i] == entries[i];
      assert (head + tail)[index] == head[index];
    }
  }

  /** Where entry i's block of rows lies among the blocks of n entries. */
  lemma BlockBounds(i: nat, n: nat, months: nat, k: nat)
    requires i < n && k < months
    ensures i * months + k < n * months
    ensures i == n - 1 ==> i * months + k == (n - 1) * months + k
    ensures i < n - 1 ==> i * months + k < (n - 1) * months
  {
    MulMonotonic(i + 1, n, months);
    if i < n - 1 {
      MulMonotonic(i + 1, n - 1, months);
    }
  }

  lemma MrrIsPricePerCustomer(r: Row)
    ensures r.Mrr() == UnitPrice * r.PaidCustomers()
  {
    var gross := r.GrossPaid();
    var keep := 1.0 - r.Churn();
    assert gross * UnitPrice * keep == UnitPrice * (gross * keep);
  }

  /** The figures of the row of month k + 1 (see RowAt), spelled out:
      visitors are the entry's first month's visitors times the growth factor
      to the power of the elapsed months; paying customers are those visitors
      through both conversions after the churn cut; MRR is the unit price per
      paying customer. */
  lemma RowFigures(e: Entry, growthRate: real, k: nat)
    ensures var r := Row(k + 1, e, Compounded(e.siteVisitors, GrowthFactor(growthRate), k));
            && r.siteVisitors == e.siteVisitors * Pow(GrowthFactor(growthRate), k)
            && r.PaidCustomers()
               == r.siteVisitors * Fraction(e.conversionToTrial) * Fraction(e.conversionToPaid)
                  * (1.0 - Fraction(e.churnRate))
            && r.Mrr() == UnitPrice * r.PaidCustomers()
  {
    CompoundedClosedForm(e.siteVisitors, GrowthFactor(growthRate), k);
    var r := Row(k + 1, e, Compounded(e.siteVisitors, GrowthFactor(growthRate), k));
    MrrIsPricePerCustomer(r);
  }

  /** With no churn the churn cut changes nothing: customers and MRR are the
      gross figures, and lifetime value is reported as 0. */
  lemma NoChurnKeepsGross(entries: seq<Entry>, months: nat, growthRate: real, i: nat, k: nat)
    requires i < |entries| && k < months
    requires entries[i].churnRate == 0.0
    ensures i * months + k < |Rows(entries, months, growthRate)|
    ensures var r := Rows(entries, months, growthRate)[i * months + k];
            && r.PaidCustomers() == r.GrossPaid()
            && r.Mrr() == UnitPrice * r.GrossPaid()
            && r.Ltv() == 0.0
  {
    RowAt(entries, months, growthRate, i, k);
  }

  /** An entry that converts nobody to a trial, or no trial to a paying
      customer, has no customers, no MRR and acquisition cost 0 in every month. */
  lemma ZeroConversionZeroCustomers(entries: seq<Entry>, months: nat, growthRate: real, i: nat, k: nat)
    requires i < |entries| && k < months
    requires entries[i].conversionToTrial == 0.0 || entries[i].conversionToPaid == 0.0
    ensures i * months + k < |Rows(entries, months, growthRate)|
    ensures var r := Rows(entries, months, growthRate)[i * months + k];
            r.PaidCustomers() == 0.0 && r.Mrr() == 0.0 && r.Cac() == 0.0
  {
    RowAt(entries, months, growthRate, i, k);
    var r := Rows(entries, months, growthRate)[i * months + k];
    assert r.GrossPaid() == 0.0;
  }

  /** With positive growth and visitors, an entry's visitors strictly rise
      from each month to the next. */
  lemma VisitorsGrow(entries: seq<Entry>, months: nat, growthRate: real, i: nat, k: nat)
    requires i < |entries| && k + 1 < months
    requires growthRate > 0.0 && entries[i].siteVisitors > 0.0
    ensures i * months + k + 1 < |Rows(entries, months, growthRate)|
    ensures Rows(entries, months, growthRate)[i * months + k].siteVisitors
            < Rows(entries, months, growthRate)[i * months + k + 1].siteVisitors
  {
    RowAt(entries, months, growthRate, i, k);
    RowAt(entries, months, growthRate, i, k + 1);
    CompoundingGrows(entries[i].siteVisitors, GrowthFactor(growthRate), k);
  }

  lemma CompoundingGrows(v: real, factor: real, k: nat)
    requires v > 0.0 && factor > 1.0
    ensures Compounded(v, factor, k) < Compounded(v, factor, k + 1)
  {
    var now := Compounded(v, factor, k);
    CompoundedClosedForm(v, factor, k);
    PowPositive(factor, k);
    assert now > 0.0 by {
      var p := Pow(factor, k);
      assert now == v * p;
    }
    assert Compounded(v, factor, k + 1) == now * factor;
  }

  lemma {:induction false} TotalCostAppend(a: seq<Row>, b: seq<Row>)
    ensures TotalCost(a + b) == TotalCost(a) + TotalCost(b)
  {
    if |b| > 0 {
      assert (a + b)[..|a + b| - 1] == a + b[..|b| - 1];
      TotalCostAppend(a, b[..|b| - 1]);
    } else {
      assert a + b == a;
    }
  }

  lemma {:induction false} EntryRowsCost(e: Entry, count: nat, growthRate: real)
    ensures TotalCost(EntryRows(e, count, growthRate)) == Times(count, e.cost)
  {
    if count > 0 {
      EntryRowsCost(e, count - 1, growthRate);
      var r := Row(count, e, Compounded(e.siteVisitors, GrowthFactor(growthRate), count - 1));
      TotalsSnoc(EntryRows(e, count - 1, growthRate), r);
    }
  }

  lemma {:induction false} TotalCostRepeats(entries: seq<Entry>, months: nat, growthRate: real)
    ensures TotalCost(Rows(entries, months, growthRate)) == Times(months, CostSum(entries))
  {
    if |entries| > 0 {
      var prefix := entries[..|entries| - 1];
      var last := entries[|entries| - 1];
      TotalCostRepeats(prefix, months, growthRate);
      EntryRowsCost(last, months, growthRate);
      TotalCostAppend(Rows(prefix, months, growthRate), EntryRows(last, months, growthRate));
      TimesAdd(months, CostSum(entries), CostSum(prefix), last.cost);
    } else {
      TimesAdd(months, 0.0, 0.0, 0.0);
    }
  }

  /** Every entry's cost is counted once per month. */
  lemma TotalCostIsMonthsTimesCost(entries: seq<Entry>, months: nat, growthRate: real)
    ensures TotalCost(Rows(entries, months, growthRate)) == months as real * CostSum(entries)
  {
    TotalCostRepeats(entries, months, growthRate);
    TimesIsProduct(months, CostSum(entries));
  }

  /** The summed MRR is the unit price per summed paying customer. */
  lemma {:induction false} TotalMrrIsPriceTimesCustomers(rows: seq<Row>)
    ensures TotalMrr(rows) == UnitPrice * TotalCustomers(rows)
  {
    if |rows| > 0 {
      var n := |rows| - 1;
      TotalMrrIsPriceTimesCustomers(rows[..n]);
      MrrIsPricePerCustomer(rows[n]);
    }
  }

  /** One entry of 1000 visitors, 2% to trial, 20% to paid, 2% churn and
      cost 500, at 10% growth: month 1 has 20 trials, 3.92 paying customers
      after churn, MRR 388.08 and lifetime value 232848; month 2 starts from
      1100 visitors and 22 trials. */
  lemma WorkedExample()
    ensures var e := Entry("X", "Y", 1000.0, 2.0, 20.0, 2.0, 500.0);
            var r := Rows([e], 2, 10.0);
            && |r| == 2
            && r[0].Trials() == 20.0 && r[0].PaidCustomers() == 3.92 && r[0].Mrr() == 388.08
            && r[0].Cac() * 3.92 == 500.0 && r[0].Ltv() == 232848.0
            && r[1].month == 2 && r[1].siteVisitors == 1100.0 && r[1].Trials() == 22.0
  {
    var e := Entry("X", "Y", 1000.0, 2.0, 20.0, 2.0, 500.0);
    RowsLength([e], 2, 10.0);
    RowAt([e], 2, 10.0, 0, 0);
    RowAt([e], 2, 10.0, 0, 1);
  }
}
