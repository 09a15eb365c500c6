/** The summary figures of the share-apportioned forecast: the summed cost,
    the summed customers against the summed MRR, and what duplicate
    `channel + medium` keys do to the apportionment. */
module ShareTotals {
  import opened Channels
  import opened InsertionDict
  import opened ShareForecast

  lemma {:induction false} TotalCostAppend(a: seq<Row>, b: seq<Row>)
    ensures TotalCost(a + b) == TotalCost(a) + TotalCost(b)
  {
    if |b| > 0 {
      var n := |b| - 1;
      TotalCostAppend(a, b[..n]);
      assert (a + b)[..|a + b| - 1] == a + b[..n];
      assert (a + b)[|a + b| - 1] == b[n];
    } else {
      assert a + b == a;
    }
  }

  /** One month adds every entry's cost once. */
  lemma {:induction false} MonthRowsCost(entries: seq<Entry>, month: nat, target: real, d: Dict)
    requires Covers(d, entries)
    requires MonthRows(entries, month, target, d).Ok?
    ensures TotalCost(MonthRows(entries, month, target, d).value) == CostSum(entries)
  {
    if |entries| > 0 {
      var n := |entries| - 1;
      var prefix := entries[..n];
      MonthRowsCost(prefix, month, target, d);
      var before := MonthRows(prefix, month, target, d).value;
      var row := EntryRow(entries[n], n, month, target, d).value;
      var rows := MonthRows(entries, month, target, d).value;
      assert rows == before + [row];
      assert rows[..|rows| - 1] == before;
    }
  }

  lemma {:induction false} AllRowsCost(entries: seq<Entry>, months: nat, initial: real, growthRate: real, d: Dict)
    requires Covers(d, entries)
    requires AllRows(entries, months, initial, growthRate, d).Ok?
    ensures TotalCost(AllRows(entries, months, initial, growthRate, d).value) == Times(months, CostSum(entries))
  {
    if months > 0 {
      AllRowsCost(entries, months - 1, initial, growthRate, d);
      var prev := AllRows(entries, months - 1, initial, growthRate, d).value;
      var target := MonthTarget(initial, growthRate, months);
      var more := MonthRows(entries, months, target, d).value;
      MonthRowsCost(entries, months, target, d);
      TotalCostAppend(prev, more);
    }
  }

  lemma ShareCostRepeats(entries: seq<Entry>, months: nat, growthRate: real)
    requires Calculate(entries, months, growthRate).Ok?
    ensures Calculate(entries, months, growthRate).value.totalCost == Times(months, CostSum(entries))
  {
    ContributionsCover(entries);
    AllRowsCost(entries, months, InitialMrr(entries), growthRate, Contributions(entries));
  }

  /** The reported cost is every entry's cost once per month. */
  lemma ShareTotalCost(entries: seq<Entry>, months: nat, growthRate: real)
    requires Calculate(entries, months, growthRate).Ok?
    ensures Calculate(entries, months, growthRate).value.totalCost == months as real * CostSum(entries)
  {
    ShareCostRepeats(entries, months, growthRate);
    var cost := CostSum(entries);
    TimesIsProduct(months, cost);
  }

  lemma {:induction false} CustomersAtPrice(rows: seq<Row>)
    ensures TotalCustomers(rows) * UnitPrice == MrrSum(rows)
  {
    if |rows| > 0 {
      CustomersAtPrice(rows[..|rows| - 1]);
    }
  }

  /** The reported customers, at the unit price, are the MRR summed over
      all rows. */
  lemma ShareCustomersPriced(entries: seq<Entry>, months: nat, growthRate: real)
    requires Calculate(entries, months, growthRate).Ok?
    ensures var f := Calculate(entries, months, growthRate).value;
            f.totalCustomers * UnitPrice == MrrSum(f.rows)
  {
    CustomersAtPrice(Calculate(entries, months, growthRate).value.rows);
  }

  /** The targets of months 1 to `months` added up. */
  function TargetSum(initial: real, growthRate: real, months: nat): real
  {
    if months == 0 then 0.0 else TargetSum(initial, growthRate, months - 1) + MonthTarget(initial, growthRate, months)
  }

  lemma {:induction false} MrrSumAppend(a: seq<Row>, b: seq<Row>)
    ensures MrrSum(a + b) == MrrSum(a) + MrrSum(b)
  {
    if |b| > 0 {
      var n := |b| - 1;
      MrrSumAppend(a, b[..n]);
      assert (a + b)[..|a + b| - 1] == a + b[..n];
      assert (a + b)[|a + b| - 1] == b[n];
    } else {
      assert a + b == a;
    }
  }

  /** With no entries every target is 0. */
  lemma {:induction false} ZeroTargets(growthRate: real, months: nat)
    ensures TargetSum(0.0, growthRate, months) == 0.0
  {
    if months > 0 {
      ZeroTargets(growthRate, months - 1);
      CompoundedClosedForm(0.0, GrowthFactor(growthRate), months - 1);
    }
  }

  lemma {:induction false} AllRowsMeetTargets(entries: seq<Entry>, months: nat, growthRate: real)
    requires DistinctEntryKeys(entries)
    requires months == 0 || Computable(entries, Contributions(entries))
    ensures Covers(Contributions(entries), entries)
    ensures MrrSum(AllRows(entries, months, InitialMrr(entries), growthRate, Contributions(entries)).value)
            == TargetSum(InitialMrr(entries), growthRate, months)
  {
    ContributionsCover(entries);
    var d, initial := Contributions(entries), InitialMrr(entries);
    if |entries| == 0 {
      ZeroTargets(growthRate, months);
    } else if months > 0 {
      AllRowsMeetTargets(entries, months - 1, growthRate);
      var target := MonthTarget(initial, growthRate, months);
      MonthSharesSumToTarget(entries, months, target);
      MrrSumAppend(AllRows(entries, months - 1, initial, growthRate, d).value, MonthRows(entries, months, target, d).value);
    }
  }

  /** The customers sold over the whole forecast, at the unit price, are
      exactly the monthly targets added up, whenever no two entries share a
      key. */
  lemma DistinctCustomersMeetTargets(entries: seq<Entry>, months: nat, growthRate: real)
    requires DistinctEntryKeys(entries)
    requires Calculate(entries, months, growthRate).Ok?
    ensures Calculate(entries, months, growthRate).value.totalCustomers * UnitPrice
            == TargetSum(InitialMrr(entries), growthRate, months)
  {
    ShareCustomersPriced(entries, months, growthRate);
    AllRowsMeetTargets(entries, months, growthRate);
  }

  /** The divisor after one more entry: its contribution is added and, when
      its key is already present, the value it overwrites is taken away, so
      each key counts once with its latest contribution. */
  lemma ShareTotalSnoc(entries: seq<Entry>)
    requires |entries| > 0
    ensures Keys(Contributions(entries[..|entries| - 1])) == EntryKeys(entries[..|entries| - 1])
    ensures var prefix, last := entries[..|entries| - 1], entries[|entries| - 1];
            ShareTotal(entries)
            == ShareTotal(prefix) + Contribution(last)
               - (if Key(last) in EntryKeys(prefix) then Get(Contributions(prefix), Key(last)) else 0.0)
  {
    var prefix, last := entries[..|entries| - 1], entries[|entries| - 1];
    ContributionsShape(prefix);
    ValuesSumPut(Contributions(prefix), Key(last), Contribution(last));
  }

  lemma ShareOfWhole(mrr: real, stored: real, target: real)
    requires stored != 0.0 && mrr * stored == stored * target
    ensures mrr == target
  {
  }

  /** Two entries under one key: the divisor holds only the second one's
      contribution, and in month 1 each of them is apportioned the whole
      target, so the month's rows add up to twice the target. */
  lemma DuplicateKeyDoubleCounts(a: Entry, b: Entry, months: nat, growthRate: real)
    requires Key(a) == Key(b) && months >= 1
    requires Calculate([a, b], months, growthRate).Ok?
    ensures ShareTotal([a, b]) == Contribution(b)
    ensures |Calculate([a, b], months, growthRate).value.rows| >= 2
    ensures var rows := Calculate([a, b], months, growthRate).value.rows;
            rows[0].mrr == InitialMrr([a, b]) && rows[1].mrr == InitialMrr([a, b])
  {
    var entries := [a, b];
    var d, initial := Contributions(entries), InitialMrr(entries);
    assert entries[..1] == [a];
    assert [a][..0] == [];
    assert Contributions([a]) == [Slot(Key(a), Contribution(a))];
    assert d == Put([Slot(Key(a), Contribution(a))], Key(b), Contribution(b));
    assert d == [Slot(Key(b), Contribution(b))];
    var total := ValuesSum(d);
    assert d[1..] == [] && d[0].value == Contribution(b);
    assert ValuesSum(d[1..]) == 0.0;
    assert total == Contribution(b);
    var target := MonthTarget(initial, growthRate, 1);
    assert target == initial;
    forall j | 0 <= j < 2
      ensures Calculate(entries, months, growthRate).value.rows[j].mrr == initial
    {
      ShareRowAt(entries, months, growthRate, 1, j);
      var row := Calculate(entries, months, growthRate).value.rows[j];
      var e := entries[j];
      assert Get(d, Key(e)) == total;
      EntryRowFigures(e, j, 1, target, d, row, total, total, Fraction(e.conversionToTrial), Fraction(e.conversionToPaid));
      ShareOfWhole(row.mrr, total, target);
    }
  }

  /** No entries: no rows and every total 0, for any number of months. */
  lemma EmptyShareForecast(months: nat, growthRate: real)
    ensures Calculate([], months, growthRate) == Ok(Forecast([], 0.0, 0.0, 0.0))
  {
    assert AllRows([], months, 0.0, growthRate, []).Ok?;
    assert |AllRows([], months, 0.0, growthRate, []).value| == 0;
    assert FinalMrr(0.0, growthRate, months) == 0.0;
  }
}
