/**
 * The `product_prices` table (main.py:39-58) and the two queries on it:
 * `save_and_check_price` (main.py:138-166) and `get_price_history`
 * (main.py:182-198). The table is a sequence of rows in insertion order;
 * `check_date`, filled by SQLite's `CURRENT_TIMESTAMP`, is an explicit
 * integer timestamp supplied by the caller.
 */
module PriceStore {
  import opened Wrappers
  import opened ChangeDetector

  /** One row of `product_prices` (the unused `id` column is left out). */
  datatype Observation = Observation(
    url: string,
    name: string,
    currentPrice: real,
    previousPrice: Option<real>,
    checkDate: int)

  /** One row of the history query: `check_date, current_price, previous_price`. */
  datatype HistoryEntry = HistoryEntry(checkDate: int, currentPrice: real, previousPrice: Option<real>)

  /** `LIMIT 10` of the history query. */
  const HistoryLimit: nat := 10

  /** Some row already has this `(product_url, check_date)` pair. */
  predicate HasKey(rows: seq<Observation>, url: string, date: int) {
    exists i :: 0 <= i < |rows| && rows[i].url == url && rows[i].checkDate == date
  }

  /** `UNIQUE(product_url, check_date)`. */
  predicate UniqueKeys(rows: seq<Observation>) {
    forall i, j :: 0 <= i < |rows| && 0 <= j < |rows| && i != j && rows[i].url == rows[j].url ==>
      rows[i].checkDate != rows[j].checkDate
  }

  // ---------------------------------------------------------------------
  // The previous price (main.py:144-152)
  // ---------------------------------------------------------------------

  /**
   * The row `SELECT ... WHERE product_url = ? ORDER BY check_date DESC
   * LIMIT 1` finds: a row of `url` with the greatest date.
   */
  function LatestFor(rows: seq<Observation>, url: string): (r: Option<Observation>)
    ensures r.Some? ==> r.value.url == url
  {
    if rows == [] then None
    else
      var last := rows[|rows| - 1];
      var r := LatestFor(rows[..|rows| - 1], url);
      if last.url == url && (r.None? || last.checkDate >= r.value.checkDate) then Some(last) else r
  }

  /** `previous_price = result[0] if result else None` */
  function PreviousPrice(rows: seq<Observation>, url: string): (p: Option<real>)
    ensures p.None? <==> forall i :: 0 <= i < |rows| ==> rows[i].url != url
  {
    LatestNone(rows, url);
    match LatestFor(rows, url)
    case Some(o) => Some(o.currentPrice)
    case None => None
  }

  /** There is no latest row exactly when `url` has no row. */
  lemma {:induction false} LatestNone(rows: seq<Observation>, url: string)
    ensures LatestFor(rows, url).None? <==> forall i :: 0 <= i < |rows| ==> rows[i].url != url
  {
    if rows != [] {
      var init := rows[..|rows| - 1];
      LatestNone(init, url);
      assert forall i :: 0 <= i < |init| ==> init[i] == rows[i];
    }
  }

  /** The latest row is a row of `url` and no row of `url` is newer. */
  lemma {:induction false} LatestIsNewest(rows: seq<Observation>, url: string)
    requires LatestFor(rows, url).Some?
    ensures exists i :: 0 <= i < |rows| && rows[i] == LatestFor(rows, url).value
    ensures forall i :: 0 <= i < |rows| && rows[i].url == url ==> rows[i].checkDate <= LatestFor(rows, url).value.checkDate
  {
    var init := rows[..|rows| - 1];
    var last := rows[|rows| - 1];
    var r := LatestFor(init, url);
    assert forall i :: 0 <= i < |init| ==> init[i] == rows[i];
    if r.Some? {
      LatestIsNewest(init, url);
    } else {
      LatestNone(init, url);
    }
  }

  /** A row of `url` dated after every existing row is the new latest one. */
  lemma LatestAfterNewer(rows: seq<Observation>, o: Observation)
    requires forall i :: 0 <= i < |rows| ==> rows[i].checkDate < o.checkDate
    ensures LatestFor(rows + [o], o.url) == Some(o)
  {
    var s := rows + [o];
    assert s[..|s| - 1] == rows;
    var r := LatestFor(rows, o.url);
    if r.Some? {
      LatestIsNewest(rows, o.url);
    }
  }

  /** A row of another product does not change the latest row of `url`. */
  lemma LatestOther(rows: seq<Observation>, o: Observation, url: string)
    requires o.url != url
    ensures LatestFor(rows + [o], url) == LatestFor(rows, url)
  {
    assert (rows + [o])[..|rows|] == rows;
  }

  // ---------------------------------------------------------------------
  // The insert (main.py:154-164)
  // ---------------------------------------------------------------------

  /** The row the `INSERT` adds. */
  function NewRow(rows: seq<Observation>, url: string, name: string, price: real, now: int): Observation {
    Observation(url, name, price, PreviousPrice(rows, url), now)
  }

  /**
   * The table after `save_and_check_price`: the new row at the end, or the
   * table as it was when the `UNIQUE` constraint rejects the insert.
   */
  function AfterSave(rows: seq<Observation>, url: string, name: string, price: real, now: int): seq<Observation> {
    if HasKey(rows, url, now) then rows else rows + [NewRow(rows, url, name, price, now)]
  }

  /**
   * What a save reports: the previous price and the classification, or the
   * rejected insert (the `IntegrityError` that is caught and logged).
   */
  datatype SaveOutcome = Recorded(previous: Option<real>, change: Change) | Rejected

  function SaveResult(rows: seq<Observation>, url: string, name: string, price: real, now: int): SaveOutcome {
    if HasKey(rows, url, now) then Rejected
    else Recorded(PreviousPrice(rows, url), CheckPriceChange(price, PreviousPrice(rows, url)))
  }

  /**
   * A save appends exactly one row or, on a key clash, nothing; the rows
   * already there are unchanged in either case.
   */
  lemma SaveAppends(rows: seq<Observation>, url: string, name: string, price: real, now: int)
    ensures var after := AfterSave(rows, url, name, price, now);
      |after| == |rows| + (if HasKey(rows, url, now) then 0 else 1) && after[..|rows|] == rows
    ensures SaveResult(rows, url, name, price, now).Rejected? <==> AfterSave(rows, url, name, price, now) == rows
  {
    var after := AfterSave(rows, url, name, price, now);
    assert after[..|rows|] == rows;
    if !HasKey(rows, url, now) {
      assert |after| != |rows|;
    }
  }

  /**
   * The previous price stored in the new row is the current price of a row
   * of the same product that no other row of that product postdates, and
   * is `None` exactly when the product has no row yet.
   */
  lemma PreviousIsLatest(rows: seq<Observation>, url: string, name: string, price: real, now: int)
    requires !HasKey(rows, url, now)
    ensures var o := AfterSave(rows, url, name, price, now)[|rows|];
      o == Observation(url, name, price, o.previousPrice, now)
    ensures var o := AfterSave(rows, url, name, price, now)[|rows|];
      o.previousPrice.None? <==> forall i :: 0 <= i < |rows| ==> rows[i].url != url
    ensures var o := AfterSave(rows, url, name, price, now)[|rows|];
      o.previousPrice.Some? ==>
        exists i :: 0 <= i < |rows| && rows[i].url == url && rows[i].currentPrice == o.previousPrice.value &&
          forall j :: 0 <= j < |rows| && rows[j].url == url ==> rows[j].checkDate <= rows[i].checkDate
  {
    LatestNone(rows, url);
    if LatestFor(rows, url).Some? {
      LatestIsNewest(rows, url);
    }
  }

  /** A save keeps the `UNIQUE` constraint. */
  lemma SaveKeepsUnique(rows: seq<Observation>, url: string, name: string, price: real, now: int)
    requires UniqueKeys(rows)
    ensures UniqueKeys(AfterSave(rows, url, name, price, now))
  {
    var after := AfterSave(rows, url, name, price, now);
    if !HasKey(rows, url, now) {
      forall i, j | 0 <= i < |after| && 0 <= j < |after| && i != j && after[i].url == after[j].url
        ensures after[i].checkDate != after[j].checkDate
      {
        if i < |rows| && j < |rows| {
          assert after[i] == rows[i] && after[j] == rows[j];
        } else if i < |rows| {
          assert after[i] == rows[i];
        } else {
          assert after[j] == rows[j];
        }
      }
    }
  }

  /** Every row records as previous price the latest price of its product at the time of its insert. */
  predicate Linked(rows: seq<Observation>) {
    forall i :: 0 <= i < |rows| ==> rows[i].previousPrice == PreviousPrice(rows[..i], rows[i].url)
  }

  lemma SaveKeepsLinked(rows: seq<Observation>, url: string, name: string, price: real, now: int)
    requires Linked(rows)
    ensures Linked(AfterSave(rows, url, name, price, now))
  {
    var after := AfterSave(rows, url, name, price, now);
    if !HasKey(rows, url, now) {
      forall i | 0 <= i < |after|
        ensures after[i].previousPrice == PreviousPrice(after[..i], after[i].url)
      {
        assert after[..i] == rows[..i];
      }
    }
  }

  /**
   * Three checks of one product at increasing times, at 100, 50 and 80:
   * a new product, a halving, then a 60 percent rise over 50.
   */
  lemma ThreeChecks(url: string, name: string)
    ensures var t1 := AfterSave([], url, name, 100.0, 1);
      var t2 := AfterSave(t1, url, name, 50.0, 2);
      SaveResult([], url, name, 100.0, 1) == Recorded(None, New)
      && SaveResult(t1, url, name, 50.0, 2) == Recorded(Some(100.0), Halved)
      && SaveResult(t2, url, name, 80.0, 3) == Recorded(Some(50.0), Moderate(60.0))
  {
    var o1 := Observation(url, name, 100.0, None, 1);
    var t1 := [o1];
    assert AfterSave([], url, name, 100.0, 1) == t1;
    LatestAfterNewer([], o1);
    assert !HasKey(t1, url, 2);
    var o2 := Observation(url, name, 50.0, Some(100.0), 2);
    var t2 := t1 + [o2];
    assert AfterSave(t1, url, name, 50.0, 2) == t2;
    LatestAfterNewer(t1, o2);
    assert !HasKey(t2, url, 3) by {
      assert t2[0] == o1 && t2[1] == o2;
    }
    assert PreviousPrice(t2, url) == Some(50.0);
  }

  // ---------------------------------------------------------------------
  // The history query (main.py:187-198)
  // ---------------------------------------------------------------------

  /** `WHERE product_url = ?`, in table order. */
  function ForUrl(rows: seq<Observation>, url: string): (r: seq<Observation>)
    ensures |r| <= |rows|
    ensures forall k :: 0 <= k < |r| ==> r[k].url == url
  {
    if rows == [] then []
    else if rows[0].url == url then [rows[0]] + ForUrl(rows[1..], url)
    else ForUrl(rows[1..], url)
  }

  /** The rows of `url` are exactly the url-rows of the table. */
  lemma {:induction false} ForUrlMembers(rows: seq<Observation>, url: string)
    ensures forall o :: o in multiset(ForUrl(rows, url)) <==> o in rows && o.url == url
  {
    if rows != [] {
      ForUrlMembers(rows[1..], url);
      assert rows == [rows[0]] + rows[1..];
    }
  }

  /** `ORDER BY check_date DESC` */
  predicate NewestFirst(xs: seq<Observation>) {
    forall i, j :: 0 <= i < j < |xs| ==> xs[i].checkDate >= xs[j].checkDate
  }

  /** No two rows share a date. */
  predicate DistinctDates(xs: seq<Observation>) {
    forall i, j :: 0 <= i < |xs| && 0 <= j < |xs| && i != j ==> xs[i].checkDate != xs[j].checkDate
  }

  function InsertByDate(o: Observation, xs: seq<Observation>): (r: seq<Observation>)
    ensures |r| == |xs| + 1
  {
    if xs == [] || o.checkDate >= xs[0].checkDate then [o] + xs
    else [xs[0]] + InsertByDate(o, xs[1..])
  }

  lemma {:induction false} InsertPermutes(o: Observation, xs: seq<Observation>)
    ensures multiset(InsertByDate(o, xs)) == multiset(xs) + multiset{o}
  {
    if xs != [] && o.checkDate < xs[0].checkDate {
      InsertPermutes(o, xs[1..]);
      assert xs == [xs[0]] + xs[1..];
    }
  }

  lemma {:induction false} InsertSorted(o: Observation, xs: seq<Observation>)
    requires NewestFirst(xs)
    ensures NewestFirst(InsertByDate(o, xs))
  {
    if xs != [] && o.checkDate < xs[0].checkDate {
      var rest := InsertByDate(o, xs[1..]);
      InsertSorted(o, xs[1..]);
      InsertPermutes(o, xs[1..]);
      var r := [xs[0]] + rest;
      forall j | 0 < j < |r| ensures r[0].checkDate >= r[j].checkDate {
        var x := rest[j - 1];
        assert x in multiset(xs[1..]) + multiset{o};
        if x != o {
          assert x in xs[1..];
        }
      }
    }
  }

  /** The rows in descending date order (an insertion sort). */
  function SortByDate(xs: seq<Observation>): (r: seq<Observation>)
    ensures |r| == |xs|
  {
    if xs == [] then [] else InsertByDate(xs[0], SortByDate(xs[1..]))
  }

  /** Sorting yields an ordering of the same rows, newest first. */
  lemma {:induction false} SortSpec(xs: seq<Observation>)
    ensures multiset(SortByDate(xs)) == multiset(xs)
    ensures NewestFirst(SortByDate(xs))
  {
    if xs != [] {
      SortSpec(xs[1..]);
      InsertPermutes(xs[0], SortByDate(xs[1..]));
      InsertSorted(xs[0], SortByDate(xs[1..]));
      assert xs == [xs[0]] + xs[1..];
    }
  }

  /** The first `limit` rows of `url`, newest first. */
  function Recent(rows: seq<Observation>, url: string, limit: nat): (r: seq<Observation>)
    ensures |r| <= limit
  {
    var s := SortByDate(ForUrl(rows, url));
    if |s| <= limit then s else s[..limit]
  }

  function Entry(o: Observation): HistoryEntry {
    HistoryEntry(o.checkDate, o.currentPrice, o.previousPrice)
  }

  /** `get_price_history(url)`: the selected columns of the ten newest rows of `url`. */
  function History(rows: seq<Observation>, url: string): (h: seq<HistoryEntry>)
    ensures |h| == |Recent(rows, url, HistoryLimit)|
    ensures forall k :: 0 <= k < |h| ==> h[k] == Entry(Recent(rows, url, HistoryLimit)[k])
  {
    var r := Recent(rows, url, HistoryLimit);
    seq(|r|, k requires 0 <= k < |r| => Entry(r[k]))
  }

  /**
   * The history query returns only rows of `url`, newest first, as many as
   * there are up to the limit.
   */
  lemma RecentIsNewest(rows: seq<Observation>, url: string, limit: nat)
    ensures var r := Recent(rows, url, limit);
      |r| == if |ForUrl(rows, url)| <= limit then |ForUrl(rows, url)| else limit
    ensures forall o :: o in Recent(rows, url, limit) ==> o in rows && o.url == url
    ensures NewestFirst(Recent(rows, url, limit))
  {
    var f := ForUrl(rows, url);
    var s := SortByDate(f);
    var r := Recent(rows, url, limit);
    SortSpec(f);
    ForUrlMembers(rows, url);
    assert r == s[..|r|];
    forall o | o in r ensures o in rows && o.url == url {
      assert o in multiset(s);
    }
  }

  /** A row of the product left out of the history is no newer than any row shown. */
  lemma RecentDropsOnlyOlder(rows: seq<Observation>, url: string, limit: nat)
    ensures var r := Recent(rows, url, limit);
      forall i :: 0 <= i < |rows| && rows[i].url == url && rows[i] !in r ==>
        forall k :: 0 <= k < |r| ==> rows[i].checkDate <= r[k].checkDate
  {
    var f := ForUrl(rows, url);
    var s := SortByDate(f);
    var r := Recent(rows, url, limit);
    SortSpec(f);
    ForUrlMembers(rows, url);
    assert r == s[..|r|];
    forall i | 0 <= i < |rows| && rows[i].url == url && rows[i] !in r
      ensures forall k :: 0 <= k < |r| ==> rows[i].checkDate <= r[k].checkDate
    {
      assert rows[i] in multiset(s) by { assert rows[i] in multiset(f); }
      OlderThanPrefix(s, |r|, rows[i]);
    }
  }

  /**
   * What `get_price_history` returns: at most ten entries, each taken from a
   * row of `url`, dates never increasing (strictly decreasing under the
   * `UNIQUE` constraint), and nothing exactly when `url` has no row.
   */
  lemma HistorySpec(rows: seq<Observation>, url: string)
    ensures |History(rows, url)| <= HistoryLimit
    ensures forall k :: 0 <= k < |History(rows, url)| ==>
      exists i :: 0 <= i < |rows| && rows[i].url == url && History(rows, url)[k] == Entry(rows[i])
    ensures forall j, k :: 0 <= j < k < |History(rows, url)| ==>
      History(rows, url)[j].checkDate >= History(rows, url)[k].checkDate
    ensures UniqueKeys(rows) ==> forall j, k :: 0 <= j < k < |History(rows, url)| ==>
      History(rows, url)[j].checkDate > History(rows, url)[k].checkDate
    ensures History(rows, url) == [] <==> forall i :: 0 <= i < |rows| ==> rows[i].url != url
  {
    var h := History(rows, url);
    var r := Recent(rows, url, HistoryLimit);
    RecentIsNewest(rows, url, HistoryLimit);
    RecentEmpty(rows, url, HistoryLimit);
    forall k | 0 <= k < |h|
      ensures exists i :: 0 <= i < |rows| && rows[i].url == url && h[k] == Entry(rows[i])
    {
      assert r[k] in r;
      var i :| 0 <= i < |rows| && rows[i] == r[k];
    }
    if UniqueKeys(rows) {
      RecentStrictlyNewest(rows, url, HistoryLimit);
    }
  }

  /** In a newest-first list, an element outside the first `n` is no newer than any of them. */
  lemma OlderThanPrefix(s: seq<Observation>, n: nat, o: Observation)
    requires NewestFirst(s) && n <= |s| && o in s && o !in s[..n]
    ensures forall k :: 0 <= k < n ==> o.checkDate <= s[..n][k].checkDate
  {
    var j :| 0 <= j < |s| && s[j] == o;
    assert j >= n;
  }

  /** The history of a product with no row is empty, and only then (the limit being positive). */
  lemma RecentEmpty(rows: seq<Observation>, url: string, limit: nat)
    requires limit > 0
    ensures Recent(rows, url, limit) == [] <==> forall i :: 0 <= i < |rows| ==> rows[i].url != url
  {
    RecentIsNewest(rows, url, limit);
    ForUrlMembers(rows, url);
    var f := ForUrl(rows, url);
    if f != [] {
      assert f[0] in multiset(f);
    }
    if exists i :: 0 <= i < |rows| && rows[i].url == url {
      var i :| 0 <= i < |rows| && rows[i].url == url;
      assert rows[i] in multiset(f);
    }
  }

  /** No row of `xs` carries the date `d`. */
  predicate AvoidsDate(xs: seq<Observation>, d: int) {
    forall k :: 0 <= k < |xs| ==> xs[k].checkDate != d
  }

  /** A row whose date no other row has can be put in front. */
  lemma ConsDistinct(x: Observation, t: seq<Observation>)
    requires DistinctDates(t) && AvoidsDate(t, x.checkDate)
    ensures DistinctDates([x] + t)
  {
    var f := [x] + t;
    forall i, j | 0 <= i < |f| && 0 <= j < |f| && i != j ensures f[i].checkDate != f[j].checkDate {
      if i > 0 && j > 0 {
        assert f[i] == t[i - 1] && f[j] == t[j - 1];
      }
    }
  }

  /** Rows drawn from `b` avoid every date `b` avoids. */
  lemma AvoidsSubset(a: seq<Observation>, b: seq<Observation>, d: int)
    requires multiset(a) <= multiset(b) && AvoidsDate(b, d)
    ensures AvoidsDate(a, d)
  {
    forall k | 0 <= k < |a| ensures a[k].checkDate != d {
      assert a[k] in multiset(b);
    }
  }

  lemma TailDistinct(xs: seq<Observation>)
    requires xs != [] && DistinctDates(xs)
    ensures DistinctDates(xs[1..]) && AvoidsDate(xs[1..], xs[0].checkDate)
  {
    assert forall k :: 0 <= k < |xs| - 1 ==> xs[1..][k] == xs[k + 1];
  }

  /** Under the `UNIQUE` constraint the rows of one product have distinct dates. */
  lemma {:induction false} ForUrlDistinct(rows: seq<Observation>, url: string)
    requires UniqueKeys(rows)
    ensures DistinctDates(ForUrl(rows, url))
  {
    if rows != [] {
      var rest := rows[1..];
      assert UniqueKeys(rest) by {
        assert forall i :: 0 <= i < |rest| ==> rest[i] == rows[i + 1];
      }
      ForUrlDistinct(rest, url);
      if rows[0].url == url {
        var fr := ForUrl(rest, url);
        assert AvoidsDate(fr, rows[0].checkDate) by {
          ForUrlMembers(rest, url);
          forall k | 0 <= k < |fr| ensures fr[k].checkDate != rows[0].checkDate {
            assert fr[k] in multiset(fr);
            var m :| 0 <= m < |rest| && rest[m] == fr[k];
            assert rows[m + 1] == fr[k];
          }
        }
        ConsDistinct(rows[0], fr);
      }
    }
  }

  lemma {:induction false} InsertDistinct(o: Observation, xs: seq<Observation>)
    requires DistinctDates(xs) && AvoidsDate(xs, o.checkDate)
    ensures DistinctDates(InsertByDate(o, xs))
  {
    if xs == [] || o.checkDate >= xs[0].checkDate {
      ConsDistinct(o, xs);
    } else {
      var rest := InsertByDate(o, xs[1..]);
      TailDistinct(xs);
      assert AvoidsDate(xs[1..], o.checkDate);
      InsertDistinct(o, xs[1..]);
      assert AvoidsDate(rest, xs[0].checkDate) by {
        InsertPermutes(o, xs[1..]);
        AvoidsSubset(rest, xs[1..] + [o], xs[0].checkDate);
      }
      ConsDistinct(xs[0], rest);
    }
  }

  lemma {:induction false} SortDistinct(xs: seq<Observation>)
    requires DistinctDates(xs)
    ensures DistinctDates(SortByDate(xs))
  {
    if xs != [] {
      var t := SortByDate(xs[1..]);
      TailDistinct(xs);
      SortDistinct(xs[1..]);
      SortSpec(xs[1..]);
      AvoidsSubset(t, xs[1..], xs[0].checkDate);
      InsertDistinct(xs[0], t);
    }
  }

  /** Under the `UNIQUE` constraint the history is strictly newest first. */
  lemma RecentStrictlyNewest(rows: seq<Observation>, url: string, limit: nat)
    requires UniqueKeys(rows)
    ensures var r := Recent(rows, url, limit);
      forall i, j :: 0 <= i < j < |r| ==> r[i].checkDate > r[j].checkDate
  {
    var f := ForUrl(rows, url);
    var s := SortByDate(f);
    var r := Recent(rows, url, limit);
    ForUrlDistinct(rows, url);
    SortDistinct(f);
    SortSpec(f);
    assert r == s[..|r|];
    forall i, j | 0 <= i < j < |r| ensures r[i].checkDate > r[j].checkDate {
      assert r[i] == s[i] && r[j] == s[j];
    }
  }

  /**
   * The previous price a save reads is the price at the head of the
   * history: both queries order the rows of the product by date, newest
   * first, and under the `UNIQUE` constraint that newest row is one row.
   */
  lemma PreviousIsHistoryHead(rows: seq<Observation>, url: string)
    requires UniqueKeys(rows)
    ensures var h := History(rows, url);
      PreviousPrice(rows, url) == if h == [] then None else Some(h[0].currentPrice)
  {
    var f := ForUrl(rows, url);
    var s := SortByDate(f);
    var r := Recent(rows, url, HistoryLimit);
    LatestNone(rows, url);
    RecentEmpty(rows, url, HistoryLimit);
    if r != [] {
      var latest := LatestFor(rows, url).value;
      LatestIsNewest(rows, url);
      SortSpec(f);
      ForUrlMembers(rows, url);
      assert r[0] == s[0];
      var i :| 0 <= i < |rows| && rows[i] == latest;
      assert s[0] in multiset(f);
      var j :| 0 <= j < |rows| && rows[j] == s[0];
      assert latest in multiset(s);
      var m :| 0 <= m < |s| && s[m] == latest;
      assert s[0].checkDate >= latest.checkDate by {
        if m > 0 { assert s[0].checkDate >= s[m].checkDate; }
      }
      assert i == j;
    }
  }

  // ---------------------------------------------------------------------
  // The table as the program sees it
  // ---------------------------------------------------------------------

  class PriceTable {
    var rows: seq<Observation>

    predicate Valid()
      reads this
    {
      UniqueKeys(rows)
    }

    /**
     * `setup_database` (main.py:39-58): `CREATE TABLE IF NOT EXISTS` keeps
     * the rows of a table that is already there and otherwise starts an
     * empty one. A table SQLite has stored satisfies its `UNIQUE` constraint.
     */
    constructor SetupDatabase(existing: Option<seq<Observation>>)
      requires existing.Some? ==> UniqueKeys(existing.value)
      ensures Valid()
      ensures rows == existing.GetOr([])
    {
      rows := existing.GetOr([]);
    }

    /**
     * `save_and_check_price` (main.py:138-166): read the latest price of
     * `url`, insert the new row with it as previous price, then classify the
     * change. A key clash makes the insert fail; the error is caught, the
     * table is unchanged and nothing is classified.
     */
    method SaveAndCheckPrice(url: string, name: string, price: real, now: int) returns (outcome: SaveOutcome)
      requires Valid()
      modifies this
      ensures Valid()
      ensures rows == AfterSave(old(rows), url, name, price, now)
      ensures outcome == SaveResult(old(rows), url, name, price, now)
    {
      var previous := PreviousPrice(rows, url);
      if HasKey(rows, url, now) {
        outcome := Rejected;
      } else {
        SaveKeepsUnique(rows, url, name, price, now);
        rows := rows + [Observation(url, name, price, previous, now)];
        outcome := Recorded(previous, CheckPriceChange(price, previous));
      }
    }

    /** `get_price_history` (main.py:182-198): up to ten rows of `url`, newest first. */
    method GetPriceHistory(url: string) returns (history: seq<HistoryEntry>)
      ensures history == History(rows, url)
      ensures |history| <= HistoryLimit
    {
      history := History(rows, url);
    }
  }
}
