/** Inputs and arithmetic shared by both versions of the marketing forecast:
    a channel entry as the input form collects it, the fixed subscription
    price, percentages, monthly compounding and the guarded acquisition cost.
    All quantities are exact reals; the floating point and display rounding
    of the original are not modelled. */
module Channels {

  /** Monthly price of one paying customer, a literal 99 in both versions. */
  const UnitPrice: real := 99.0

  /** One channel/medium pairing with its assumed performance. The forecast
      validates none of these fields: ranges are the input form's concern. */
  datatype Entry = Entry(
    channel: string,
    medium: string,
    siteVisitors: real,       // visitors in the first month
    conversionToTrial: real,  // percent of visitors who start a trial
    conversionToPaid: real,   // percent of trials who start paying
    churnRate: real,          // percent of paying customers lost per month
    cost: real)               // monthly spend on the channel

  /** A percentage as a fraction: 2 (percent) is 0.02. */
  function Fraction(percent: real): (f: real)
    ensures f * 100.0 == percent
    ensures f == 0.0 <==> percent == 0.0
  {
    percent / 100.0
  }

  /** The factor a monthly growth rate (in percent) multiplies by each month. */
  function GrowthFactor(growthRate: real): real
  {
    1.0 + Fraction(growthRate)
  }

  function Pow(x: real, n: nat): real
  {
    if n == 0 then 1.0 else x * Pow(x, n - 1)
  }

  /** `v` multiplied by `factor` once per month for `months` months, the
      way a running value is updated at the end of every month. */
  function Compounded(v: real, factor: real, months: nat): real
  {
    if months == 0 then v else Compounded(v, factor, months - 1) * factor
  }

  /** Closed form: the running value is `v * factor^months`. */
  lemma {:induction false} CompoundedClosedForm(v: real, factor: real, months: nat)
    ensures Compounded(v, factor, months) == v * Pow(factor, months)
  {
    if months > 0 {
      CompoundedClosedForm(v, factor, months - 1);
      var c := Compounded(v, factor, months - 1);
      var p := Pow(factor, months - 1);
      assert c == v * p;
      assert c * factor == v * (factor * p);
    }
  }

  lemma {:induction false} PowPositive(x: real, n: nat)
    requires x > 0.0
    ensures Pow(x, n) > 0.0
  {
    if n > 0 {
      PowPositive(x, n - 1);
    }
  }

  /** Acquisition cost per paying customer; 0 when there is no paying customer. */
  function AcquisitionCost(cost: real, paid: real): (cac: real)
    ensures paid > 0.0 ==> cac * paid == cost
    ensures paid <= 0.0 ==> cac == 0.0
  {
    if paid > 0.0 then cost / paid else 0.0
  }

  /** `x` added up `n` times: a count times an amount, built the way a
      running total is, so that proofs about totals stay linear. */
  function Times(n: nat, x: real): real
  {
    if n == 0 then 0.0 else Times(n - 1, x) + x
  }

  lemma {:induction false} TimesAdd(n: nat, t: real, a: real, b: real)
    requires t == a + b
    ensures Times(n, t) == Times(n, a) + Times(n, b)
  {
    if n > 0 {
      TimesAdd(n - 1, t, a, b);
    }
  }

  lemma {:induction false} TimesIsProduct(n: nat, x: real)
    ensures Times(n, x) == n as real * x
  {
    if n > 0 {
      TimesIsProduct(n - 1, x);
    }
  }

  lemma MulMonotonic(a: nat, b: nat, c: nat)
    requires a <= b
    ensures a * c <= b * c
  {
  }

  /** Monthly spend of all entries together. */
  function CostSum(entries: seq<Entry>): real
  {
    if |entries| == 0 then 0.0
    else CostSum(entries[..|entries| - 1]) + entries[|entries| - 1].cost
  }
}
