/**
 * `check_price_change` (main.py:168-180): how a new price compares with the
 * previous one, and the per-row percentage of `show_price_history`
 * (main.py:209-213). Prices are exact `real`s in place of Python floats.
 */
module ChangeDetector {
  import opened Wrappers

  /**
   * What `check_price_change` reports. `DivisionByZero` is the
   * `ZeroDivisionError` raised when the previous price is 0 and the new one
   * is not at most half of it.
   */
  datatype Change = New | Halved | Moderate(percent: real) | DivisionByZero

  /** The relative change from `previous` to `current`, in percent. */
  function PercentChange(current: real, previous: real): real
    requires previous != 0.0
  {
    (current - previous) / previous * 100.0
  }

  /**
   * No previous price: a new product. At most half the previous price:
   * halved. Otherwise the percentage change, which Python cannot compute
   * (and raises) when the previous price is 0.
   */
  function CheckPriceChange(current: real, previous: Option<real>): (c: Change)
    ensures c.New? <==> previous.None?
    ensures c.Halved? <==> previous.Some? && current <= previous.value / 2.0
    ensures c.DivisionByZero? <==> previous == Some(0.0) && current > 0.0
    ensures c.Moderate? ==> previous.Some? && previous.value != 0.0 && current > previous.value / 2.0
    ensures c.Moderate? ==> c.percent * previous.value == (current - previous.value) * 100.0
  {
    match previous
    case None => New
    case Some(p) =>
      if current <= p / 2.0 then Halved
      else if p == 0.0 then DivisionByZero
      else
        var pc := PercentChange(current, p);
        PercentScaled(current, p);
        Moderate(pc)
  }

  /** The percentage, multiplied back by the previous price, is the difference times 100. */
  lemma PercentScaled(current: real, previous: real)
    requires previous != 0.0
    ensures PercentChange(current, previous) * previous == (current - previous) * 100.0
  {
    var q := (current - previous) / previous;
    assert q * previous == current - previous;
    calc {
      PercentChange(current, previous) * previous;
      == q * 100.0 * previous;
      == (q * previous) * 100.0;
    }
  }

  /**
   * For a positive previous price, "halved" means exactly a change of
   * -50 percent or less.
   */
  lemma HalvedIffHalfOff(current: real, previous: real)
    requires previous > 0.0
    ensures CheckPriceChange(current, Some(previous)).Halved? <==> PercentChange(current, previous) <= -50.0
  {
    var q := (current - previous) / previous;
    assert q * previous == current - previous;
    assert PercentChange(current, previous) == q * 100.0;
    if current <= previous / 2.0 {
      assert q * previous <= -0.5 * previous;
    } else {
      assert q * previous > -0.5 * previous;
    }
  }

  /** A moderate change over a positive price is above -50 percent, and positive exactly when the price rose. */
  lemma ModerateRange(current: real, previous: real)
    requires previous > 0.0
    requires CheckPriceChange(current, Some(previous)).Moderate?
    ensures CheckPriceChange(current, Some(previous)).percent > -50.0
    ensures CheckPriceChange(current, Some(previous)).percent > 0.0 <==> current > previous
  {
    HalvedIffHalfOff(current, previous);
    var q := (current - previous) / previous;
    assert q * previous == current - previous;
    assert PercentChange(current, previous) == q * 100.0;
    if q > 0.0 {
      assert q * previous > 0.0;
    } else {
      assert q * previous <= 0.0;
    }
  }

  /** A price of 0 after a price of 0 counts as halved, not as a division. */
  lemma ZeroAfterZero()
    ensures CheckPriceChange(0.0, Some(0.0)) == Halved
  {
  }

  /**
   * The percentage shown beside a history row (main.py:211-213): only when
   * the previous price is present and non-zero (Python's `if previous:`).
   */
  function HistoryChange(current: real, previous: Option<real>): (r: Option<real>)
    ensures r.Some? <==> previous.Some? && previous.value != 0.0
    ensures r.Some? ==> r.value * previous.value == (current - previous.value) * 100.0
  {
    match previous
    case Some(p) =>
      if p != 0.0 then
        PercentScaled(current, p);
        Some(PercentChange(current, p))
      else None
    case None => None
  }

  /**
   * When the check reports a moderate change, the history shows the same
   * percentage for that row.
   */
  lemma HistoryAgreesWithCheck(current: real, previous: Option<real>)
    requires CheckPriceChange(current, previous).Moderate?
    ensures HistoryChange(current, previous) == Some(CheckPriceChange(current, previous).percent)
  {
  }

  /** Typical outcomes: a first sighting, halvings, a 40 percent drop, a rise, and a price after a price of 0. */
  lemma ClassificationExamples()
    ensures CheckPriceChange(100.0, None) == New
    ensures CheckPriceChange(40.0, Some(100.0)) == Halved
    ensures CheckPriceChange(50.0, Some(100.0)) == Halved
    ensures CheckPriceChange(60.0, Some(100.0)) == Moderate(-40.0)
    ensures CheckPriceChange(150.0, Some(100.0)) == Moderate(50.0)
    ensures CheckPriceChange(5.0, Some(0.0)) == DivisionByZero
  {
  }
}
