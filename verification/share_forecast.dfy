/** The share-apportioned forecast of app.py. Every entry's first-month MRR
    is computed from its own inputs and stored under the key
    `channel + medium`; the sum of all of them is the month-1 MRR target,
    which then grows by the growth factor every later month. Each month the
    target is split across the entries in proportion to their stored
    contributions, and paying customers, trials and visitors are solved
    backwards from an entry's share. Rows are month-major, entries in input
    order within a month; the reported MRR is the last month's target. */
module ShareForecast {
  import opened Channels
  import opened InsertionDict

  /** A zero divisor, in the order the month loop divides: the sum of the
      stored contributions, then the entry's conversion to paid, then its
      conversion to trial. The entry is named by its input position. */
  datatype Failure =
    | ZeroContributionTotal
    | ZeroConversionToPaid(entry: nat)
    | ZeroConversionToTrial(entry: nat)

  datatype Result<T> = Ok(value: T) | Err(failure: Failure)

  /** One (month, entry) line of the table, before display rounding: the
      entry's share of the month's MRR target. Customers are that MRR at the
      unit price; trials and visitors are solved backwards from the
      customers through the conversions, which are nonzero in every row the
      forecast makes. */
  datatype Row = Row(month: nat, entry: Entry, mrr: real) {

    function PaidCustomers(): real
    {
      mrr / UnitPrice
    }

    function Trials(): real
      requires entry.conversionToPaid != 0.0
    {
      PaidCustomers() / Fraction(entry.conversionToPaid)
    }

    function SiteVisitors(): real
      requires Converts(entry)
    {
      Trials() / Fraction(entry.conversionToTrial)
    }

    function Arr(): real
    {
      mrr * 12.0
    }

    function Cost(): real
    {
      entry.cost
    }

    function Cac(): real
    {
      AcquisitionCost(entry.cost, PaidCustomers())
    }
  }

  datatype Forecast = Forecast(rows: seq<Row>, totalCost: real, finalMrr: real, totalCustomers: real)

  /** The dictionary key of an entry: channel and medium run together. */
  function Key(e: Entry): string
  {
    e.channel + e.medium
  }

  /** An entry's first-month MRR from its own visitors and conversions. */
  function Contribution(e: Entry): real
  {
    e.siteVisitors * Fraction(e.conversionToTrial) * Fraction(e.conversionToPaid) * UnitPrice
  }

  /** The month-1 target: every entry's contribution, duplicates included. */
  function InitialMrr(entries: seq<Entry>): real
  {
    if |entries| == 0 then 0.0
    else InitialMrr(entries[..|entries| - 1]) + Contribution(entries[|entries| - 1])
  }

  function EntryKeys(entries: seq<Entry>): set<string>
  {
    set e | e in entries :: Key(e)
  }

  /** The contribution dictionary, filled in entry order; a later entry with
      the same key overwrites the earlier value in its original slot. */
  function Contributions(entries: seq<Entry>): Dict
  {
    if |entries| == 0 then []
    else Put(Contributions(entries[..|entries| - 1]), Key(entries[|entries| - 1]), Contribution(entries[|entries| - 1]))
  }

  /** The dictionary has exactly one slot per distinct entry key. */
  lemma {:induction false} ContributionsShape(entries: seq<Entry>)
    ensures Keys(Contributions(entries)) == EntryKeys(entries)
    ensures DistinctKeys(Contributions(entries))
  {
    if |entries| > 0 {
      var prefix := entries[..|entries| - 1];
      var last := entries[|entries| - 1];
      ContributionsShape(prefix);
      PutShape(Contributions(prefix), Key(last), Contribution(last));
      PutKeepsDistinct(Contributions(prefix), Key(last), Contribution(last));
      EntryKeysSnoc(entries);
    }
  }

  lemma EntryKeysSnoc(entries: seq<Entry>)
    requires |entries| > 0
    ensures EntryKeys(entries) == EntryKeys(entries[..|entries| - 1]) + {Key(entries[|entries| - 1])}
  {
    var prefix := entries[..|entries| - 1];
    assert entries == prefix + [entries[|entries| - 1]];
    forall k | k in EntryKeys(entries)
      ensures k in EntryKeys(prefix) + {Key(entries[|entries| - 1])}
    {
      var e :| e in entries && Key(e) == k;
      if e != entries[|entries| - 1] {
        assert e in prefix;
      }
    }
  }

  /** The divisor of every share: the sum of the dictionary's values, which
      counts each key once. */
  function ShareTotal(entries: seq<Entry>): real
  {
    ValuesSum(Contributions(entries))
  }

  /** The target of month `month` (from 1): the initial target, multiplied
      by the growth factor once for every month after the first. */
  function MonthTarget(initial: real, growthRate: real, month: nat): real
    requires month >= 1
  {
    Compounded(initial, GrowthFactor(growthRate), month - 1)
  }

  /** The MRR reported after the loop: the last month's target, or the
      initial target when there is no month at all. */
  function FinalMrr(initial: real, growthRate: real, months: nat): (mrr: real)
    ensures months >= 1 ==> mrr == initial * Pow(GrowthFactor(growthRate), months - 1)
    ensures months == 0 ==> mrr == initial
  {
    if months == 0 then initial
    else
      CompoundedClosedForm(initial, GrowthFactor(growthRate), months - 1);
      MonthTarget(initial, growthRate, months)
  }

  predicate Converts(e: Entry)
  {
    e.conversionToPaid != 0.0 && e.conversionToTrial != 0.0
  }

  /** `f` is the failure the loop over `entries` meets first: a zero divisor
      sum at the first entry, or else the first entry with a zero
      conversion, conversion to paid being divided by before conversion to
      trial. */
  predicate FirstFailure(entries: seq<Entry>, d: Dict, f: Failure)
  {
    match f
    case ZeroContributionTotal => |entries| > 0 && ValuesSum(d) == 0.0
    case ZeroConversionToPaid(j) =>
      && ValuesSum(d) != 0.0 && j < |entries|
      && entries[j].conversionToPaid == 0.0
      && (forall i :: 0 <= i < j ==> Converts(entries[i]))
    case ZeroConversionToTrial(j) =>
      && ValuesSum(d) != 0.0 && j < |entries|
      && entries[j].conversionToPaid != 0.0 && entries[j].conversionToTrial == 0.0
      && (forall i :: 0 <= i < j ==> Converts(entries[i]))
  }

  /** The loop over `entries` divides by zero nowhere. */
  predicate Computable(entries: seq<Entry>, d: Dict)
  {
    |entries| == 0 || (ValuesSum(d) != 0.0 && forall i :: 0 <= i < |entries| ==> Converts(entries[i]))
  }

  predicate Covers(d: Dict, entries: seq<Entry>)
  {
    forall i :: 0 <= i < |entries| ==> Key(entries[i]) in Keys(d)
  }

  lemma ShareBack(stored: real, total: real, target: real)
    requires total != 0.0
    ensures (stored / total * target) * total == stored * target
  {
  }

  lemma SolveBack(paid: real, toPaid: real, toTrial: real)
    requires toPaid != 0.0 && toTrial != 0.0
    ensures (paid / toPaid / toTrial) * toTrial * toPaid == paid
  {
  }

  /** The body of the inner loop for one entry: its share of the month's
      target, and the customers, trials and visitors that share needs. */
  function EntryRow(e: Entry, index: nat, month: nat, target: real, d: Dict): (r: Result<Row>)
    requires Key(e) in Keys(d)
    ensures r.Ok? <==> ValuesSum(d) != 0.0 && Converts(e)
    ensures r.Err? ==> r.failure == if ValuesSum(d) == 0.0 then ZeroContributionTotal
                                   else if e.conversionToPaid == 0.0 then ZeroConversionToPaid(index)
                                   else ZeroConversionToTrial(index)
    ensures r.Ok? ==> r.value.month == month && r.value.entry == e
  {
    var total := ValuesSum(d);
    if total == 0.0 then Err(ZeroContributionTotal)
    else
      var mrr := Get(d, Key(e)) / total * target;
      var toPaid := Fraction(e.conversionToPaid);
      if toPaid == 0.0 then Err(ZeroConversionToPaid(index))
      else
        var toTrial := Fraction(e.conversionToTrial);
        if toTrial == 0.0 then Err(ZeroConversionToTrial(index))
        else Ok(Row(month, e, mrr))
  }

  /** The figures of a computed row, each multiplied back: the MRR times the
      divisor is the stored contribution times the target, the customers at
      the unit price are the MRR, and the visitors through both conversions
      are the customers. */
  lemma EntryRowFigures(e: Entry, index: nat, month: nat, target: real, d: Dict,
                        row: Row, stored: real, total: real, toTrial: real, toPaid: real)
    requires Key(e) in Keys(d)
    requires EntryRow(e, index, month, target, d) == Ok(row)
    requires stored == Get(d, Key(e)) && total == ValuesSum(d)
    requires toTrial == Fraction(e.conversionToTrial) && toPaid == Fraction(e.conversionToPaid)
    ensures row.mrr * total == stored * target
    ensures row.PaidCustomers() * UnitPrice == row.mrr
    ensures Converts(row.entry) && row.SiteVisitors() * toTrial * toPaid == row.PaidCustomers()
  {
    assert row.mrr == stored / total * target;
    assert row.SiteVisitors() == row.PaidCustomers() / toPaid / toTrial;
    ShareBack(stored, total, target);
    SolveBack(row.PaidCustomers(), toPaid, toTrial);
  }

  /** When nothing divides by zero, the row carries the entry's share of
      the target as computed in the loop. */
  lemma EntryRowComputed(e: Entry, index: nat, month: nat, target: real, d: Dict, mrr: real)
    requires Key(e) in Keys(d) && ValuesSum(d) != 0.0 && Converts(e)
    requires mrr == Get(d, Key(e)) / ValuesSum(d) * target
    ensures EntryRow(e, index, month, target, d) == Ok(Row(month, e, mrr))
  {
    assert Fraction(e.conversionToPaid) != 0.0 && Fraction(e.conversionToTrial) != 0.0;
    assert EntryRow(e, index, month, target, d).Ok?;
    assert EntryRow(e, index, month, target, d).value.mrr == mrr;
    assert EntryRow(e, index, month, target, d).value.month == month;
    assert EntryRow(e, index, month, target, d).value.entry == e;
  }

  /** One month of the inner loop: the entries in input order, stopping at
      the first entry whose divisions fail. */
  function MonthRows(entries: seq<Entry>, month: nat, target: real, d: Dict): (r: Result<seq<Row>>)
    requires Covers(d, entries)
    ensures r.Ok? <==> Computable(entries, d)
    ensures r.Err? ==> FirstFailure(entries, d, r.failure)
    ensures r.Ok? ==> |r.value| == |entries|
  {
    if |entries| == 0 then Ok([])
    else
      var n := |entries| - 1;
      match MonthRows(entries[..n], month, target, d)
      case Err(f) => Err(f)
      case Ok(rows) =>
        match EntryRow(entries[n], n, month, target, d)
        case Err(f) => Err(f)
        case Ok(row) => Ok(rows + [row])
  }

  /** Entry j's line of a computed month is what EntryRow makes of entry j. */
  lemma {:induction false} MonthRowAt(entries: seq<Entry>, month: nat, target: real, d: Dict, j: nat)
    requires Covers(d, entries) && j < |entries|
    requires MonthRows(entries, month, target, d).Ok?
    ensures EntryRow(entries[j], j, month, target, d) == Ok(MonthRows(entries, month, target, d).value[j])
  {
    var n := |entries| - 1;
    var prefix := entries[..n];
    var before := MonthRows(prefix, month, target, d).value;
    var rows := MonthRows(entries, month, target, d).value;
    assert rows == before + [EntryRow(entries[n], n, month, target, d).value];
    if j < n {
      MonthRowAt(prefix, month, target, d, j);
      assert prefix[j] == entries[j];
    }
  }

  /** Months 1..months of the outer loop, month-major, stopping at the first
      failure. */
  function AllRows(entries: seq<Entry>, months: nat, initial: real, growthRate: real, d: Dict): (r: Result<seq<Row>>)
    requires Covers(d, entries)
    ensures r.Ok? <==> months == 0 || Computable(entries, d)
    ensures r.Err? ==> FirstFailure(entries, d, r.failure)
    ensures r.Ok? ==> |r.value| == months * |entries|
  {
    if months == 0 then Ok([])
    else
      match AllRows(entries, months - 1, initial, growthRate, d)
      case Err(f) => Err(f)
      case Ok(rows) =>
        match MonthRows(entries, months, MonthTarget(initial, growthRate, months), d)
        case Err(f) => Err(f)
        case Ok(more) =>
          assert (months - 1) * |entries| + |entries| == months * |entries|;
          Ok(rows + more)
  }

  lemma ContributionsCover(entries: seq<Entry>)
    ensures Covers(Contributions(entries), entries)
  {
    ContributionsShape(entries);
    forall i | 0 <= i < |entries|
      ensures Key(entries[i]) in Keys(Contributions(entries))
    {
      assert entries[i] in entries;
    }
  }

  function TotalCost(rows: seq<Row>): real
  {
    if |rows| == 0 then 0.0 else TotalCost(rows[..|rows| - 1]) + rows[|rows| - 1].Cost()
  }

  function TotalCustomers(rows: seq<Row>): real
  {
    if |rows| == 0 then 0.0 else TotalCustomers(rows[..|rows| - 1]) + rows[|rows| - 1].PaidCustomers()
  }

  /** calculate_forecast of app.py (lines 15-66) as a function: the rows,
      the summed cost and customers, and the last month's target; or the
      first division by zero. */
  function Calculate(entries: seq<Entry>, months: nat, growthRate: real): (r: Result<Forecast>)
    ensures r.Err? <==> months >= 1 && |entries| >= 1
                        && (ShareTotal(entries) == 0.0 || exists j :: 0 <= j < |entries| && !Converts(entries[j]))
    ensures r.Err? ==> FirstFailure(entries, Contributions(entries), r.failure)
    ensures r.Ok? ==> |r.value.rows| == months * |entries|
  {
    var d := Contributions(entries);
    var initial := InitialMrr(entries);
    ContributionsCover(entries);
    match AllRows(entries, months, initial, growthRate, d)
    case Err(f) => Err(f)
    case Ok(rows) => Ok(Forecast(rows, TotalCost(rows), FinalMrr(initial, growthRate, months), TotalCustomers(rows)))
  }

  /** The reported MRR is the last month's target in closed form, the
      initial target grown months - 1 times, and not a sum over rows. */
  lemma FinalMrrClosedForm(entries: seq<Entry>, months: nat, growthRate: real)
    requires Calculate(entries, months, growthRate).Ok?
    ensures var mrr := Calculate(entries, months, growthRate).value.finalMrr;
            && (months >= 1 ==> mrr == InitialMrr(entries) * Pow(GrowthFactor(growthRate), months - 1))
            && (months == 0 ==> mrr == InitialMrr(entries))
  {
    var d, initial := Contributions(entries), InitialMrr(entries);
    ContributionsCover(entries);
    assert Calculate(entries, months, growthRate).value.finalMrr == FinalMrr(initial, growthRate, months);
  }

  /** Once an entry's divisions fail, the rest of the month is never reached. */
  lemma {:induction false} MonthRowsErrPersists(entries: seq<Entry>, n: nat, month: nat, target: real, d: Dict)
    requires Covers(d, entries) && n <= |entries|
    requires MonthRows(entries[..n], month, target, d).Err?
    ensures MonthRows(entries, month, target, d) == MonthRows(entries[..n], month, target, d)
  {
    if n < |entries| {
      var prefix := entries[..|entries| - 1];
      assert prefix[..n] == entries[..n];
      MonthRowsErrPersists(prefix, n, month, target, d);
    } else {
      assert entries[..n] == entries;
    }
  }

  /** The first failing entry decides the month's outcome. */
  lemma StopAt(entries: seq<Entry>, j: nat, month: nat, target: real, d: Dict)
    requires Covers(d, entries) && j < |entries|
    requires MonthRows(entries[..j], month, target, d).Ok?
    requires EntryRow(entries[j], j, month, target, d).Err?
    ensures MonthRows(entries, month, target, d) == Err(EntryRow(entries[j], j, month, target, d).failure)
  {
    assert entries[..j + 1][..j] == entries[..j];
    MonthRowsErrPersists(entries, j + 1, month, target, d);
  }

  /** Once a month fails, no later month is reached. */
  lemma {:induction false} AllRowsErrPersists(entries: seq<Entry>, m: nat, months: nat, initial: real, growthRate: real, d: Dict)
    requires Covers(d, entries) && m <= months
    requires AllRows(entries, m, initial, growthRate, d).Err?
    ensures AllRows(entries, months, initial, growthRate, d) == AllRows(entries, m, initial, growthRate, d)
  {
    if m < months {
      AllRowsErrPersists(entries, m, months - 1, initial, growthRate, d);
    }
  }

  /** The inner loop of calculate_forecast for one month: each entry's share
      of `target` and the back-solved figures, appended to `rows` with the
      running totals; it stops at the first division by zero. */
  method EmitMonth(entries: seq<Entry>, month: nat, target: real, d: Dict,
                   rows: seq<Row>, totalCost: real, totalCustomers: real)
    returns (r: Result<seq<Row>>, cost: real, customers: real)
    requires Covers(d, entries)
    requires totalCost == TotalCost(rows) && totalCustomers == TotalCustomers(rows)
    ensures MonthRows(entries, month, target, d).Err? ==> r == Err(MonthRows(entries, month, target, d).failure)
    ensures MonthRows(entries, month, target, d).Ok? ==> r == Ok(rows + MonthRows(entries, month, target, d).value)
    ensures r.Ok? ==> cost == TotalCost(r.value) && customers == TotalCustomers(r.value)
  {
    var acc := rows;
    cost, customers := totalCost, totalCustomers;
    var j := 0;
    while j < |entries|
      invariant 0 <= j <= |entries|
      invariant Covers(d, entries[..j])
      invariant MonthRows(entries[..j], month, target, d).Ok?
      invariant acc == rows + MonthRows(entries[..j], month, target, d).value
      invariant cost == TotalCost(acc) && customers == TotalCustomers(acc)
    {
      var e := entries[j];
      var total := ValuesSum(d);
      if total == 0.0 {
        StopAt(entries, j, month, target, d);
        return Err(ZeroContributionTotal), cost, customers;
      }
      var channelMrr := Get(d, Key(e)) / total * target;
      var paid := channelMrr / UnitPrice;
      var toPaid := Fraction(e.conversionToPaid);
      if toPaid == 0.0 {
        StopAt(entries, j, month, target, d);
        return Err(ZeroConversionToPaid(j)), cost, customers;
      }
      var toTrial := Fraction(e.conversionToTrial);
      if toTrial == 0.0 {
        StopAt(entries, j, month, target, d);
        return Err(ZeroConversionToTrial(j)), cost, customers;
      }
      var row := Row(month, e, channelMrr);
      EntryRowComputed(e, j, month, target, d, channelMrr);
      assert entries[..j + 1][..j] == entries[..j];
      cost := cost + e.cost;
      customers := customers + paid;
      assert (acc + [row])[..|acc|] == acc;
      acc := acc + [row];
      j := j + 1;
    }
    assert entries[..|entries|] == entries;
    r := Ok(acc);
  }

  /** The first loop of calculate_forecast: every entry's contribution is
      added to the running MRR and assigned into the dictionary. */
  method ContributionPass(entries: seq<Entry>) returns (contributions: Dict, current: real)
    ensures contributions == Contributions(entries)
    ensures current == InitialMrr(entries)
  {
    contributions, current := [], 0.0;
    var i := 0;
    while i < |entries|
      invariant 0 <= i <= |entries|
      invariant contributions == Contributions(entries[..i])
      invariant current == InitialMrr(entries[..i])
    {
      var e := entries[i];
      var trials := e.siteVisitors * Fraction(e.conversionToTrial);
      var paid := trials * Fraction(e.conversionToPaid);
      var channelMrr := paid * UnitPrice;
      assert channelMrr == Contribution(e);
      current := current + channelMrr;
      contributions := Put(contributions, Key(e), channelMrr);
      assert entries[..i + 1][..i] == entries[..i];
      assert Contributions(entries[..i + 1]) == Put(Contributions(entries[..i]), Key(e), Contribution(e));
      i := i + 1;
    }
    assert entries[..|entries|] == entries;
  }

  /** calculate_forecast of app.py, lines 15-66: the contribution pass, then
      the month loop with the target grown before every month but the first. */
  method CalculateShareForecast(entries: seq<Entry>, months: nat, growthRate: real) returns (r: Result<Forecast>)
    ensures r == Calculate(entries, months, growthRate)
  {
    var contributions, current := ContributionPass(entries);
    ContributionsCover(entries);
    ghost var initial := current;
    var rows: seq<Row> := [];
    var totalCost, totalCustomers := 0.0, 0.0;
    var month := 1;
    while month <= months
      invariant 1 <= month <= months + 1
      invariant current == if month == 1 then initial else MonthTarget(initial, growthRate, month - 1)
      invariant AllRows(entries, month - 1, initial, growthRate, contributions) == Ok(rows)
      invariant totalCost == TotalCost(rows) && totalCustomers == TotalCustomers(rows)
    {
      if month != 1 {
        current := current * GrowthFactor(growthRate);
      }
      var step;
      step, totalCost, totalCustomers := EmitMonth(entries, month, current, contributions, rows, totalCost, totalCustomers);
      if step.Err? {
        AllRowsErrPersists(entries, month, months, initial, growthRate, contributions);
        return Err(step.failure);
      }
      rows := step.value;
      month := month + 1;
    }
    r := Ok(Forecast(rows, totalCost, current, totalCustomers));
  }

  /** Month m's slice of the rows is that month's inner loop over the
      entries, with the target grown m - 1 times. */
  lemma {:induction false} AllRowsMonth(entries: seq<Entry>, months: nat, initial: real, growthRate: real, d: Dict, m: nat)
    requires Covers(d, entries)
    requires AllRows(entries, months, initial, growthRate, d).Ok?
    requires 1 <= m <= months
    ensures MonthRows(entries, m, MonthTarget(initial, growthRate, m), d).Ok?
    ensures m * |entries| <= |AllRows(entries, months, initial, growthRate, d).value|
    ensures (m - 1) * |entries| <= m * |entries|
    ensures AllRows(entries, months, initial, growthRate, d).value[(m - 1) * |entries|..m * |entries|]
            == MonthRows(entries, m, MonthTarget(initial, growthRate, m), d).value
  {
    var n := |entries|;
    var prev := AllRows(entries, months - 1, initial, growthRate, d).value;
    var more := MonthRows(entries, months, MonthTarget(initial, growthRate, months), d).value;
    var rows := AllRows(entries, months, initial, growthRate, d).value;
    var lo, hi := (m - 1) * n, m * n;
    assert rows == prev + more;
    assert |prev| == (months - 1) * n;
    if m == months {
      MonthBounds(m, months, n);
      assert rows[lo..hi] == more;
    } else {
      AllRowsMonth(entries, months - 1, initial, growthRate, d, m);
      MonthBounds(m, months - 1, n);
      SliceOfPrefix(prev, more, lo, hi);
    }
  }

  lemma MonthBounds(m: int, months: int, n: nat)
    requires 1 <= m <= months
    ensures 0 <= (m - 1) * n <= m * n <= months * n
    ensures (m - 1) * n + n == m * n
  {
    MulMonotonic(m - 1, m, n);
    MulMonotonic(m, months, n);
  }

  lemma SliceOfPrefix<T>(a: seq<T>, b: seq<T>, lo: int, hi: int)
    requires 0 <= lo <= hi <= |a|
    ensures (a + b)[lo..hi] == a[lo..hi]
  {
  }

  /** Ordering and contents: row `(m - 1) * |entries| + j` is entry j's line
      for month m. */
  lemma AllRowAt(entries: seq<Entry>, months: nat, initial: real, growthRate: real, d: Dict, m: nat, j: nat)
    requires Covers(d, entries)
    requires AllRows(entries, months, initial, growthRate, d).Ok?
    requires 1 <= m <= months && j < |entries|
    ensures (m - 1) * |entries| + j < |AllRows(entries, months, initial, growthRate, d).value|
    ensures EntryRow(entries[j], j, m, MonthTarget(initial, growthRate, m), d)
            == Ok(AllRows(entries, months, initial, growthRate, d).value[(m - 1) * |entries| + j])
  {
    AllRowsMonth(entries, months, initial, growthRate, d, m);
    MonthRowAt(entries, m, MonthTarget(initial, growthRate, m), d, j);
    var n := |entries|;
    var rows := AllRows(entries, months, initial, growthRate, d).value;
    var lo, hi := (m - 1) * n, m * n;
    MonthBounds(m, months, n);
    assert rows[lo..hi][j] == rows[lo + j];
  }

  /** Each row of the forecast: row `(m - 1) * |entries| + j` is entry j's
      line for month m, computed from the month's target (the initial target
      grown m - 1 times) as EntryRow states: its MRR is the entry's stored
      contribution's share of the target, its customers that MRR at the unit
      price, its visitors those customers through both conversions. */
  lemma ShareRowAt(entries: seq<Entry>, months: nat, growthRate: real, m: nat, j: nat)
    requires Calculate(entries, months, growthRate).Ok?
    requires 1 <= m <= months && j < |entries|
    ensures (m - 1) * |entries| + j < |Calculate(entries, months, growthRate).value.rows|
    ensures Key(entries[j]) in Keys(Contributions(entries))
    ensures var r := Calculate(entries, months, growthRate).value.rows[(m - 1) * |entries| + j];
            && r.month == m && r.entry == entries[j]
            && EntryRow(entries[j], j, m, MonthTarget(InitialMrr(entries), growthRate, m), Contributions(entries)) == Ok(r)
  {
    var d, initial := Contributions(entries), InitialMrr(entries);
    ContributionsCover(entries);
    assert Calculate(entries, months, growthRate).value.rows == AllRows(entries, months, initial, growthRate, d).value;
    AllRowAt(entries, months, initial, growthRate, d, m, j);
  }

  /** The position of the last entry sharing entry j's key. */
  function LastWithKey(entries: seq<Entry>, j: nat): (i: nat)
    requires j < |entries|
    ensures j <= i < |entries| && Key(entries[i]) == Key(entries[j])
    ensures forall l :: i < l < |entries| ==> Key(entries[l]) != Key(entries[j])
  {
    if Key(entries[|entries| - 1]) == Key(entries[j]) then |entries| - 1
    else LastWithKey(entries[..|entries| - 1], j)
  }

  /** Duplicate keys overwrite: every entry looks up the contribution of the
      last entry with its key. */
  lemma {:induction false} LastContributionWins(entries: seq<Entry>, j: nat)
    requires j < |entries|
    ensures Key(entries[j]) in Keys(Contributions(entries))
    ensures Get(Contributions(entries), Key(entries[j])) == Contribution(entries[LastWithKey(entries, j)])
  {
    var n := |entries| - 1;
    var prefix := entries[..n];
    var k := Key(entries[j]);
    if Key(entries[n]) == k {
      GetPut(Contributions(prefix), Key(entries[n]), Contribution(entries[n]), k);
    } else {
      LastContributionWins(prefix, j);
      GetPut(Contributions(prefix), Key(entries[n]), Contribution(entries[n]), k);
      assert LastWithKey(entries, j) == LastWithKey(prefix, j);
    }
  }

  /** No two entries share a key. */
  predicate DistinctEntryKeys(entries: seq<Entry>)
  {
    forall i, j :: 0 <= i < j < |entries| ==> Key(entries[i]) != Key(entries[j])
  }

  /** With distinct keys every entry looks up its own contribution. */
  lemma OwnContribution(entries: seq<Entry>, j: nat)
    requires DistinctEntryKeys(entries) && j < |entries|
    ensures Key(entries[j]) in Keys(Contributions(entries))
    ensures Get(Contributions(entries), Key(entries[j])) == Contribution(entries[j])
  {
    LastContributionWins(entries, j);
  }

  /** With distinct keys the divisor is the month-1 target. */
  lemma {:induction false} DistinctTotal(entries: seq<Entry>)
    requires DistinctEntryKeys(entries)
    ensures ShareTotal(entries) == InitialMrr(entries)
  {
    if |entries| > 0 {
      var n := |entries| - 1;
      var prefix := entries[..n];
      DistinctTotal(prefix);
      ContributionsShape(prefix);
      forall e | e in prefix
        ensures Key(e) != Key(entries[n])
      {
        var i :| 0 <= i < n && prefix[i] == e;
        assert entries[i] == e;
      }
      ValuesSumPut(Contributions(prefix), Key(entries[n]), Contribution(entries[n]));
    }
  }

  function MrrSum(rows: seq<Row>): real
  {
    if |rows| == 0 then 0.0 else MrrSum(rows[..|rows| - 1]) + rows[|rows| - 1].mrr
  }

  function Sum(xs: seq<real>): real
  {
    if |xs| == 0 then 0.0 else Sum(xs[..|xs| - 1]) + xs[|xs| - 1]
  }

  lemma ShareStep(sum: real, before: real, mrr: real, weights: real, weightsBefore: real, weight: real, total: real, target: real)
    requires before * total == weightsBefore * target && mrr * total == weight * target
    requires sum == before + mrr && weights == weightsBefore + weight
    ensures sum * total == weights * target
  {
  }

  lemma ApportionedPrefix(rows: seq<Row>, weights: seq<real>, total: real, target: real, n: nat)
    requires n <= |rows| == |weights|
    requires forall j :: 0 <= j < |rows| ==> rows[j].mrr * total == weights[j] * target
    ensures forall j :: 0 <= j < n ==> rows[..n][j].mrr * total == weights[..n][j] * target
  {
    forall j | 0 <= j < n
      ensures rows[..n][j].mrr * total == weights[..n][j] * target
    {
      assert rows[..n][j] == rows[j] && weights[..n][j] == weights[j];
    }
  }

  /** Rows whose MRR values are each `target` apportioned by a weight over
      `total` add up to the target apportioned by the summed weights. */
  lemma {:induction false} ApportionedSum(rows: seq<Row>, weights: seq<real>, total: real, target: real)
    requires |rows| == |weights|
    requires forall j :: 0 <= j < |rows| ==> rows[j].mrr * total == weights[j] * target
    ensures MrrSum(rows) * total == Sum(weights) * target
  {
    if |rows| > 0 {
      var n := |rows| - 1;
      var rs, ws := rows[..n], weights[..n];
      ApportionedPrefix(rows, weights, total, target, n);
      ApportionedSum(rs, ws, total, target);
      ShareStep(MrrSum(rows), MrrSum(rs), rows[n].mrr, Sum(weights), Sum(ws), weights[n], total, target);
    }
  }

  /** Every entry's contribution, in input order. */
  function ContributionList(entries: seq<Entry>): (cs: seq<real>)
    ensures |cs| == |entries|
    ensures forall j :: 0 <= j < |entries| ==> cs[j] == Contribution(entries[j])
    ensures Sum(cs) == InitialMrr(entries)
  {
    if |entries| == 0 then []
    else
      var cs := ContributionList(entries[..|entries| - 1]) + [Contribution(entries[|entries| - 1])];
      assert cs[..|cs| - 1] == ContributionList(entries[..|entries| - 1]);
      cs
  }

  lemma Cancel(sum: real, weight: real, total: real, target: real)
    requires total != 0.0
    requires weight == total
    requires sum * total == weight * target
    ensures sum == target
  {
  }

  /** Each entry's MRR in a month is the month's target apportioned by the
      value the entry looks up over the divisor. */
  lemma MonthShares(entries: seq<Entry>, month: nat, target: real, d: Dict,
                    rows: seq<Row>, weights: seq<real>, total: real)
    requires Covers(d, entries) && |rows| == |entries|
    requires forall j :: 0 <= j < |entries| ==> EntryRow(entries[j], j, month, target, d) == Ok(rows[j])
    requires |weights| == |entries| && total == ValuesSum(d)
    requires forall j :: 0 <= j < |entries| ==> Get(d, Key(entries[j])) == weights[j]
    ensures |rows| == |weights|
    ensures forall j :: 0 <= j < |rows| ==> rows[j].mrr * total == weights[j] * target
  {
    forall j | 0 <= j < |rows|
      ensures rows[j].mrr * total == weights[j] * target
    {
      RowShare(entries[j], j, month, target, d, rows[j], weights[j], total);
    }
  }

  lemma RowShare(e: Entry, index: nat, month: nat, target: real, d: Dict, row: Row, weight: real, total: real)
    requires Key(e) in Keys(d) && EntryRow(e, index, month, target, d) == Ok(row)
    requires weight == Get(d, Key(e)) && total == ValuesSum(d)
    ensures row.mrr * total == weight * target
  {
    EntryRowFigures(e, index, month, target, d, row, weight, total, Fraction(e.conversionToTrial), Fraction(e.conversionToPaid));
  }

  /** With distinct keys every entry looks up exactly its own contribution. */
  lemma OwnContributions(entries: seq<Entry>)
    requires DistinctEntryKeys(entries)
    ensures Covers(Contributions(entries), entries)
    ensures forall j :: 0 <= j < |entries| ==> Get(Contributions(entries), Key(entries[j])) == ContributionList(entries)[j]
  {
    forall j | 0 <= j < |entries|
      ensures Key(entries[j]) in Keys(Contributions(entries))
      ensures Get(Contributions(entries), Key(entries[j])) == ContributionList(entries)[j]
    {
      OwnContribution(entries, j);
    }
  }

  /** Shares of a target whose weights add up to the divisor add up to the
      target. */
  lemma SharesAddUp(rows: seq<Row>, weights: seq<real>, total: real, target: real)
    requires |rows| == |weights| && total != 0.0 && Sum(weights) == total
    requires forall j :: 0 <= j < |rows| ==> rows[j].mrr * total == weights[j] * target
    ensures MrrSum(rows) == target
  {
    ApportionedSum(rows, weights, total, target);
    assert MrrSum(rows) * total == Sum(weights) * target;
    Cancel(MrrSum(rows), Sum(weights), total, target);
  }

  /** With distinct keys a month's per-entry MRR adds up to that month's
      target. */
  lemma MonthSharesSumToTarget(entries: seq<Entry>, month: nat, target: real)
    requires DistinctEntryKeys(entries) && |entries| > 0
    requires Computable(entries, Contributions(entries))
    ensures Covers(Contributions(entries), entries)
    ensures MrrSum(MonthRows(entries, month, target, Contributions(entries)).value) == target
  {
    ContributionsCover(entries);
    var d := Contributions(entries);
    var rows := MonthRows(entries, month, target, d).value;
    var weights := ContributionList(entries);
    var total := ValuesSum(d);
    OwnContributions(entries);
    forall j | 0 <= j < |entries|
      ensures EntryRow(entries[j], j, month, target, d) == Ok(rows[j])
    {
      MonthRowAt(entries, month, target, d, j);
    }
    MonthShares(entries, month, target, d, rows, weights, total);
    DistinctTotal(entries);
    SharesAddUp(rows, weights, total, target);
  }

  lemma RecoverVisitors(visitors: real, original: real, toTrial: real, toPaid: real,
                        paid: real, mrr: real, stored: real, total: real)
    requires toTrial != 0.0 && toPaid != 0.0 && total != 0.0
    requires stored == original * toTrial * toPaid * UnitPrice
    requires mrr * total == stored * total
    requires paid * UnitPrice == mrr
    requires visitors * toTrial * toPaid == paid
    ensures visitors == original
  {
    assert mrr == stored;
    assert paid == original * toTrial * toPaid;
    assert (visitors - original) * (toTrial * toPaid) == 0.0;
  }

  /** One entry's back-solving, when its stored value is its own
      contribution and the target equals the divisor. */
  lemma EntryRowRecovers(e: Entry, index: nat, target: real, d: Dict)
    requires Key(e) in Keys(d) && EntryRow(e, index, 1, target, d).Ok?
    requires Get(d, Key(e)) == Contribution(e) && target == ValuesSum(d)
    ensures EntryRow(e, index, 1, target, d).value.SiteVisitors() == e.siteVisitors
  {
    var row := EntryRow(e, index, 1, target, d).value;
    var stored, toTrial, toPaid := Contribution(e), Fraction(e.conversionToTrial), Fraction(e.conversionToPaid);
    EntryRowFigures(e, index, 1, target, d, row, stored, target, toTrial, toPaid);
    RecoverVisitors(row.SiteVisitors(), e.siteVisitors, toTrial, toPaid, row.PaidCustomers(), row.mrr, stored, target);
  }

  /** Round trip: with distinct keys, solving month 1 backwards from each
      entry's share gives back the entry's own visitors. */
  lemma FirstMonthRecoversVisitors(entries: seq<Entry>, months: nat, growthRate: real, j: nat)
    requires DistinctEntryKeys(entries)
    requires Calculate(entries, months, growthRate).Ok?
    requires months >= 1 && j < |entries|
    ensures j < |Calculate(entries, months, growthRate).value.rows|
    ensures Calculate(entries, months, growthRate).value.rows[j].entry == entries[j] && Converts(entries[j])
    ensures Calculate(entries, months, growthRate).value.rows[j].SiteVisitors() == entries[j].siteVisitors
  {
    var d, initial := Contributions(entries), InitialMrr(entries);
    ShareRowAt(entries, months, growthRate, 1, j);
    OwnContribution(entries, j);
    DistinctTotal(entries);
    EntryRowRecovers(entries[j], j, initial, d);
  }
}
