/**
 * One visit of a product page, `get_product_price` (main.py:66-95), and
 * the batch over the link list, `process_all_links` (main.py:216-228).
 * The browser is a parameter: for each step of the batch it says which
 * page was seen, and a clock gives the time at which each step saves.
 */
module Monitor {
  import opened Wrappers
  import opened PriceParser
  import opened PriceStore
  import opened Extraction

  /**
   * What the browser shows for a link: no page or no price element within
   * the wait (an exception caught by `get_product_price`), or the price
   * element's text and the element look-ups of the page.
   */
  datatype Page = Unreachable | Loaded(priceText: string, find: string -> Lookup)

  /** How one visit ends. */
  datatype VisitOutcome = PageFailed | Unparsed | Saved(outcome: SaveOutcome)

  /** The table after visiting `url`: only a parsed price leads to a save. */
  function AfterVisit(rows: seq<Observation>, url: string, page: Page, now: int): seq<Observation> {
    match page
    case Unreachable => rows
    case Loaded(text, find) =>
      match ParsePrice(text)
      case None => rows
      case Some(price) => AfterSave(rows, url, ChosenName(NameSelectors, find), price, now)
  }

  function VisitResult(rows: seq<Observation>, url: string, page: Page, now: int): VisitOutcome {
    match page
    case Unreachable => PageFailed
    case Loaded(text, find) =>
      match ParsePrice(text)
      case None => Unparsed
      case Some(price) => Saved(SaveResult(rows, url, ChosenName(NameSelectors, find), price, now))
  }

  /**
   * A visit adds at most one row, a row of `url`, and only when the page
   * showed a parsable price; the existing rows stay as they were.
   */
  lemma VisitAppends(rows: seq<Observation>, url: string, page: Page, now: int)
    ensures var after := AfterVisit(rows, url, page, now);
      after == rows || (|after| == |rows| + 1 && after[..|rows|] == rows && after[|rows|].url == url)
    ensures AfterVisit(rows, url, page, now) != rows ==>
      page.Loaded? && ParsePrice(page.priceText).Some? && VisitResult(rows, url, page, now).outcome.Recorded?
    ensures VisitResult(rows, url, page, now).Saved? ==>
      AfterVisit(rows, url, page, now)[|rows|..] == if VisitResult(rows, url, page, now).outcome.Rejected? then [] else
        [Observation(url, ChosenName(NameSelectors, page.find), ParsePrice(page.priceText).value, PreviousPrice(rows, url), now)]
  {
    if page.Loaded? && ParsePrice(page.priceText).Some? {
      SaveAppends(rows, url, ChosenName(NameSelectors, page.find), ParsePrice(page.priceText).value, now);
    }
  }

  /**
   * `get_product_price`: read and parse the price; when it parses, find the
   * name and save. Failures are caught and only logged.
   */
  method GetProductPrice(table: PriceTable, url: string, page: Page, now: int) returns (outcome: VisitOutcome)
    requires table.Valid()
    modifies table
    ensures table.Valid()
    ensures table.rows == AfterVisit(old(table.rows), url, page, now)
    ensures outcome == VisitResult(old(table.rows), url, page, now)
  {
    match page
    case Unreachable =>
      outcome := PageFailed;
    case Loaded(text, find) =>
      var price := ParsePrice(text);
      if price.None? {
        outcome := Unparsed;
      } else {
        var name := GetProductName(find);
        var saved := table.SaveAndCheckPrice(url, name, price.value, now);
        outcome := Saved(saved);
      }
  }

  /**
   * The table after visiting `links` in order; step `i` sees the page
   * `visit(i, links[i])` and saves at time `clock(i)`.
   */
  function AfterRun(rows: seq<Observation>, links: seq<string>, visit: (nat, string) -> Page, clock: nat -> int): seq<Observation> {
    if links == [] then rows
    else
      var n := |links| - 1;
      AfterVisit(AfterRun(rows, links[..n], visit, clock), links[n], visit(n, links[n]), clock(n))
  }

  /** A batch only appends: the rows that were there stay, at most one row is added per link. */
  lemma {:induction false} RunAppends(rows: seq<Observation>, links: seq<string>, visit: (nat, string) -> Page, clock: nat -> int)
    ensures var after := AfterRun(rows, links, visit, clock);
      |rows| <= |after| <= |rows| + |links| && after[..|rows|] == rows
  {
    if links != [] {
      var n := |links| - 1;
      var mid := AfterRun(rows, links[..n], visit, clock);
      RunAppends(rows, links[..n], visit, clock);
      VisitAppends(mid, links[n], visit(n, links[n]), clock(n));
      var after := AfterRun(rows, links, visit, clock);
      assert after[..|mid|] == mid;
      assert after[..|rows|] == mid[..|rows|];
    }
  }

  /** A batch keeps the `UNIQUE` constraint. */
  lemma {:induction false} RunKeepsUnique(rows: seq<Observation>, links: seq<string>, visit: (nat, string) -> Page, clock: nat -> int)
    requires UniqueKeys(rows)
    ensures UniqueKeys(AfterRun(rows, links, visit, clock))
  {
    if links != [] {
      var n := |links| - 1;
      var mid := AfterRun(rows, links[..n], visit, clock);
      RunKeepsUnique(rows, links[..n], visit, clock);
      var page := visit(n, links[n]);
      if page.Loaded? && ParsePrice(page.priceText).Some? {
        SaveKeepsUnique(mid, links[n], ChosenName(NameSelectors, page.find), ParsePrice(page.priceText).value, clock(n));
      }
    }
  }

  /** A batch keeps every row's previous price equal to the price of the newest row of its product inserted before it. */
  lemma {:induction false} RunKeepsLinked(rows: seq<Observation>, links: seq<string>, visit: (nat, string) -> Page, clock: nat -> int)
    requires Linked(rows)
    ensures Linked(AfterRun(rows, links, visit, clock))
  {
    if links != [] {
      var n := |links| - 1;
      var mid := AfterRun(rows, links[..n], visit, clock);
      RunKeepsLinked(rows, links[..n], visit, clock);
      var page := visit(n, links[n]);
      if page.Loaded? && ParsePrice(page.priceText).Some? {
        SaveKeepsLinked(mid, links[n], ChosenName(NameSelectors, page.find), ParsePrice(page.priceText).value, clock(n));
      }
    }
  }

  /** Number of steps whose page shows a parsable price. */
  function ParsedSteps(links: seq<string>, visit: (nat, string) -> Page): (n: nat)
    ensures n <= |links|
  {
    if links == [] then 0
    else
      var k := |links| - 1;
      var page := visit(k, links[k]);
      ParsedSteps(links[..k], visit) + (if page.Loaded? && ParsePrice(page.priceText).Some? then 1 else 0)
  }

  /** Every row is dated before `t`. */
  predicate DatedBefore(rows: seq<Observation>, t: int) {
    forall i :: 0 <= i < |rows| ==> rows[i].checkDate < t
  }

  /**
   * With a clock that moves forward and starts after every stored row, no
   * insert of the batch clashes: each parsable page adds exactly one row,
   * and every row is dated before the clock's next reading.
   */
  lemma {:induction false} RunWithRisingClock(rows: seq<Observation>, links: seq<string>, visit: (nat, string) -> Page, clock: nat -> int)
    requires DatedBefore(rows, clock(0))
    requires forall i: nat, j: nat :: i < j ==> clock(i) < clock(j)
    ensures |AfterRun(rows, links, visit, clock)| == |rows| + ParsedSteps(links, visit)
    ensures DatedBefore(AfterRun(rows, links, visit, clock), clock(|links|))
  {
    if links == [] {
    } else {
      var n := |links| - 1;
      var mid := AfterRun(rows, links[..n], visit, clock);
      RunWithRisingClock(rows, links[..n], visit, clock);
      assert ParsedSteps(links, visit) == ParsedSteps(links[..n], visit)
        + (if visit(n, links[n]).Loaded? && ParsePrice(visit(n, links[n]).priceText).Some? then 1 else 0);
      var page := visit(n, links[n]);
      var t := clock(n);
      var after := AfterVisit(mid, links[n], page, t);
      assert !HasKey(mid, links[n], t);
      assert clock(n) < clock(n + 1);
      if page.Loaded? && ParsePrice(page.priceText).Some? {
        assert after == mid + [NewRow(mid, links[n], ChosenName(NameSelectors, page.find), ParsePrice(page.priceText).value, t)];
      }
    }
  }

  /** An unreachable page or an unparsable price leaves the table as it was. */
  lemma FailedVisitKeepsRows(rows: seq<Observation>, url: string, page: Page, now: int)
    requires page.Unreachable? || ParsePrice(page.priceText).None?
    ensures AfterVisit(rows, url, page, now) == rows
  {
  }

  /** The histories shown during a batch: after each visit, the history of the link just visited. */
  function Shown(rows: seq<Observation>, links: seq<string>, visit: (nat, string) -> Page, clock: nat -> int): (h: seq<seq<HistoryEntry>>)
    ensures |h| == |links|
  {
    if links == [] then []
    else
      var n := |links| - 1;
      Shown(rows, links[..n], visit, clock) + [History(AfterRun(rows, links, visit, clock), links[n])]
  }

  /** The `k`-th history shown is that of link `k` right after its visit. */
  lemma {:induction false} ShownAfterVisit(rows: seq<Observation>, links: seq<string>, visit: (nat, string) -> Page, clock: nat -> int, k: nat)
    requires k < |links|
    ensures Shown(rows, links, visit, clock)[k] == History(AfterRun(rows, links[..k + 1], visit, clock), links[k])
  {
    var n := |links| - 1;
    if k < n {
      ShownAfterVisit(rows, links[..n], visit, clock, k);
      assert links[..n][..k + 1] == links[..k + 1];
    } else {
      assert links[..k + 1] == links;
    }
  }

  /**
   * `process_all_links`: visit every link in file order and show its
   * history right after the visit; an unreachable page, an unparsable price
   * or a rejected insert does not stop the batch.
   * The histories shown are returned.
   */
  method ProcessAllLinks(table: PriceTable, lines: seq<string>, visit: (nat, string) -> Page, clock: nat -> int)
    returns (shown: seq<seq<HistoryEntry>>)
    requires table.Valid()
    modifies table
    ensures table.Valid()
    ensures table.rows == AfterRun(old(table.rows), GetLinks(lines), visit, clock)
    ensures shown == Shown(old(table.rows), GetLinks(lines), visit, clock)
  {
    var links := GetLinks(lines);
    ghost var start := table.rows;
    shown := [];
    for i := 0 to |links|
      invariant table.Valid()
      invariant table.rows == AfterRun(start, links[..i], visit, clock)
      invariant shown == Shown(start, links[..i], visit, clock)
    {
      var url := links[i];
      RunStep(start, links, i, visit, clock);
      var _ := GetProductPrice(table, url, visit(i, url), clock(i));
      var history := table.GetPriceHistory(url);
      shown := shown + [history];
    }
    assert links[..|links|] == links;
  }

  /** Visiting the first `i + 1` links is visiting the first `i`, then link `i`; likewise for what is shown. */
  lemma RunStep(rows: seq<Observation>, links: seq<string>, i: nat, visit: (nat, string) -> Page, clock: nat -> int)
    requires i < |links|
    ensures AfterRun(rows, links[..i + 1], visit, clock)
      == AfterVisit(AfterRun(rows, links[..i], visit, clock), links[i], visit(i, links[i]), clock(i))
    ensures Shown(rows, links[..i + 1], visit, clock)
      == Shown(rows, links[..i], visit, clock) + [History(AfterRun(rows, links[..i + 1], visit, clock), links[i])]
  {
    assert links[..i + 1][..i] == links[..i];
  }
}
