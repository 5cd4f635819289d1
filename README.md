# wb-helper price monitor — a Dafny model

wb-helper watches product pages of an online shop. It reads a list of product links
from a text file. For each link it loads the page, reads the price text and turns it
into a number. It then reads the product name through a chain of CSS selectors. It
stores an observation in a SQLite table `product_prices`, copying the product's
latest earlier price into the row, and reports whether the price has at least halved.
Finally it prints the product's last ten observations.

This project models the logic of `src/script/main.py` in Dafny and proves what that
logic promises:

| module | file | models |
|---|---|---|
| `Wrappers` | `wrappers.dfy` | `Option`, Python's `None` |
| `Text` | `text.dfy` | Python's `str.isspace()` and `str.strip()`; counting and removing a character |
| `PriceParser` | `price_parser.dfy` | `parse_price`: the character filter, comma replacement, space removal, period collapse, and `float()` on the resulting text |
| `ChangeDetector` | `change_detector.dfy` | `check_price_change`, and the per-row percentage of `show_price_history` |
| `PriceStore` | `price_store.dfy` | the `product_prices` table as a class `PriceTable` over a sequence of rows: `setup_database`, `save_and_check_price`, `get_price_history` |
| `Extraction` | `extraction.dfy` | the name fallback chain of `get_product_name` (a loop), and the line filter of `get_links_from_file` |
| `Monitor` | `monitor.dfy` | one visit, `get_product_price`, and the batch loop `process_all_links` |

Pure code (the parser, the classifier, the filters) is modelled as functions with
lemmas about them. The table, which the program changes in place, is the class
`PriceTable`; `save_and_check_price` is its method `SaveAndCheckPrice`, proved
against the functions `AfterSave` (the new rows) and `SaveResult` (what is
reported). The loops become methods with loop invariants:

- `get_product_name` is proved against `ChosenName`;
- `process_all_links` against `AfterRun` (the table after the batch) and `Shown`
  (the histories printed).

The following become parameters:

- The time SQLite writes through `CURRENT_TIMESTAMP` is an integer `now` (a `clock` for a batch).
- The browser is a `Page`: either unreachable, or a price text with an element look-up function.
- The file's lines are a sequence of strings.

Prices are exact `real`s.

## Model

| member | source | states |
|---|---|---|
| PriceParser.Clean | src/script/main.py:100 | the cleaned text holds only digits, commas and periods |
| PriceParser.CleanCounts | src/script/main.py:100 | every digit, comma and period occurs in the cleaned text exactly as often as in the raw text |
| PriceParser.CleanConcat | src/script/main.py:100 | cleaning works character by character, so the kept characters stay in their original order |
| PriceParser.CleanKeepsDigits | src/script/main.py:100 | the digit sequence survives cleaning unchanged |
| PriceParser.ParseIgnoresSurroundings | src/script/main.py:100 | surrounding text that holds no digit, comma or period (words, spaces, currency signs) does not change the parse |
| PriceParser.CleanOne | src/script/main.py:100 | a digit, comma or period survives cleaning; any other character disappears |
| PriceParser.Normalise | src/script/main.py:102 | comma replacement followed by space removal; see `CommaToPeriodSpec` and `CleanedPriceSpec` |
| PriceParser.CommaToPeriod | src/script/main.py:102 | each comma is replaced by a period in place; every other character is kept |
| PriceParser.CommaToPeriodSpec | src/script/main.py:102 | no comma remains; the periods are the old periods plus the old commas; the digits are unchanged |
| PriceParser.LastIndexOf | src/script/main.py:105-107 | the index of the last period, with none after it, or -1 when there is no period |
| PriceParser.CollapseShape | src/script/main.py:104-107 | text with at most one period is unchanged; with two or more, all periods before the last are dropped and the last stays just before the final segment |
| PriceParser.CollapseSpec | src/script/main.py:104-107 | after collapsing there is at most one period, exactly one if there were two or more, and the non-period characters and digits are unchanged |
| PriceParser.CollapsePeriods | src/script/main.py:104-107 | the period collapse as written, over `Split` and `Concat`; proved against `LastIndexOf` in `CollapseShape` and `CollapseSpec` |
| PriceParser.Split | src/script/main.py:105 | `str.split('.')`: always at least one part; see `SplitCount`, `SplitSegments` and `SplitJoin` |
| PriceParser.SplitJoin | src/script/main.py:105-107 | `'.'.join(s.split('.'))` gives back `s` |
| PriceParser.SplitSegments | src/script/main.py:105 | no part of `split('.')` holds a period |
| PriceParser.SplitCount | src/script/main.py:105-106 | `split('.')` yields one more part than there are periods |
| PriceParser.ToFloat | src/script/main.py:109 | `float()` of a text of digits and periods succeeds exactly when it has at most one period and at least one digit, and the value is non-negative |
| PriceParser.NumeralOfParts | src/script/main.py:109 | the value of digits, a period and digits is the whole part plus the decimal fraction |
| PriceParser.CleanedPrice | src/script/main.py:100-107 | the text handed to `float()`; its properties are `CleanedPriceSpec` |
| PriceParser.ParsePrice | src/script/main.py:97-112 | `parse_price`: `None` when `float()` raises, otherwise a non-negative value; `ParseFailsIffNoDigit` says exactly when it fails |
| PriceParser.CleanedPriceSpec | src/script/main.py:100-107 | the text given to `float()` is digits with at most one period, no comma and no space, and its digits are those of the raw text |
| PriceParser.ParseFailsIffNoDigit | src/script/main.py:97-112 | parsing returns `None` exactly when the raw text holds no digit; otherwise the value is non-negative |
| PriceParser.SeparatorConventions | src/script/main.py:100-107 | `A,BBB.CC` and `A.BBB,CC` both become `ABBB.CC` |
| PriceParser.ParseExamples | src/script/main.py:97-112 | `"1,299.50"` and `"1.299,50"` both parse to 1299.5 |
| PriceParser.ParseNoDigitExample | src/script/main.py:97-112 | `"руб."` does not parse |
| PriceParser.AbbreviationPeriodExample | src/script/main.py:100-109 | the period of a trailing `руб.` is kept and becomes the decimal point: `"5,50 руб."` reads as 550, not 5.5 |
| PriceParser.NumeralExample | src/script/main.py:109 | `float("1299.50")` is 1299.5 |
| ChangeDetector.CheckPriceChange | src/script/main.py:168-180 | New exactly when there is no previous price; Halved exactly when the price is at most half the previous one; a division error exactly when the previous price is 0 and the new one is positive; otherwise a percentage `p` with `p * previous == (current - previous) * 100` |
| ChangeDetector.HalvedIffHalfOff | src/script/main.py:174-178 | for a positive previous price, "halved" is the same as a change of -50 percent or less |
| ChangeDetector.ModerateRange | src/script/main.py:177-180 | a non-halved change is above -50 percent, and it is positive exactly when the price rose |
| ChangeDetector.ZeroAfterZero | src/script/main.py:174 | 0 after 0 counts as halved, so no division happens |
| ChangeDetector.ClassificationExamples | src/script/main.py:168-180 | sample outcomes: a new product, halvings, a 40 percent drop, a 50 percent rise, a price after a price of 0 |
| ChangeDetector.HistoryChange | src/script/main.py:209-213 | a history row shows a percentage exactly when its previous price is present and non-zero, and the percentage satisfies the same equation as above |
| ChangeDetector.HistoryAgreesWithCheck | src/script/main.py:211-213 | when the check reports a percentage, the history shows the same one for that row |
| PriceStore.LatestFor | src/script/main.py:144-152 | the row `ORDER BY check_date DESC LIMIT 1` finds is a row of the product; `LatestNone` and `LatestIsNewest` say it is a newest one |
| PriceStore.PreviousPrice | src/script/main.py:151-152 | the previous price is `None` exactly when the product has no row |
| PriceStore.LatestNone | src/script/main.py:144-152 | the previous-price query finds nothing exactly when the product has no row |
| PriceStore.LatestIsNewest | src/script/main.py:144-152 | the row it finds is a row of the product, and no row of the product is newer |
| PriceStore.LatestAfterNewer | src/script/main.py:144-152 | a row added after every existing row becomes the latest |
| PriceStore.LatestOther | src/script/main.py:144-152 | a row of another product does not change the latest row |
| PriceStore.AfterSave | src/script/main.py:154-164 | the rows after a save; `SaveAppends`, `PreviousIsLatest` and `SaveKeepsUnique` state what they are |
| PriceStore.SaveResult | src/script/main.py:161-164 | what a save reports: the previous price and `CheckPriceChange` of it, or Rejected on a key clash (`SaveAppends`) |
| PriceStore.SaveAppends | src/script/main.py:154-164 | a save appends exactly one row, or nothing on a key clash (exactly when the outcome is Rejected); earlier rows are unchanged |
| PriceStore.PreviousIsLatest | src/script/main.py:144-157 | the new row holds the given url, name, price and date, and as previous price the price of a newest row of the product, or `None` exactly when the product had no row |
| PriceStore.SaveKeepsUnique | src/script/main.py:52 | a save keeps `UNIQUE(product_url, check_date)` |
| PriceStore.SaveKeepsLinked | src/script/main.py:152-157 | if every row already holds the latest earlier price of its product, that stays true after a save |
| PriceStore.ThreeChecks | src/script/main.py:138-180 | saving 100, 50 and 80 at rising times reports a new product, a halving from 100, then a 60 percent rise from 50 |
| PriceStore.ForUrl | src/script/main.py:190 | only rows of the product, no more than the table has; `ForUrlMembers` says it holds all of them |
| PriceStore.ForUrlMembers | src/script/main.py:190 | `WHERE product_url = ?` selects exactly the rows of the product |
| PriceStore.SortByDate | src/script/main.py:191 | `ORDER BY check_date DESC` as an insertion sort, keeping the length; see `SortSpec` |
| PriceStore.SortSpec | src/script/main.py:191 | sorting by date gives a permutation of the rows, newest first |
| PriceStore.Recent | src/script/main.py:187-193 | the selected rows, no more than the limit; see `RecentIsNewest` |
| PriceStore.RecentIsNewest | src/script/main.py:187-198 | the history holds only rows of the product, newest first, as many as there are up to the limit |
| PriceStore.RecentDropsOnlyOlder | src/script/main.py:191-192 | every row of the product left out of the history is no newer than any row in it |
| PriceStore.RecentEmpty | src/script/main.py:187-198 | the history is empty exactly when the product has no row |
| PriceStore.RecentStrictlyNewest | src/script/main.py:187-193 | under the unique constraint the history's dates strictly decrease |
| PriceStore.History | src/script/main.py:187-198 | the selected columns of the rows `Recent` picks; what they are is `HistorySpec` |
| PriceStore.HistorySpec | src/script/main.py:187-198 | the history has at most ten entries, each the date, price and previous price of a row of the product; dates never increase, and strictly decrease under the unique constraint; it is empty exactly when the product has no row |
| PriceStore.PreviousIsHistoryHead | src/script/main.py:144-152 | the previous price a save reads is the price at the head of the product's history, or `None` when the history is empty |
| PriceStore.PriceTable.SetupDatabase | src/script/main.py:39-58 | `CREATE TABLE IF NOT EXISTS` keeps an existing table's rows, or starts an empty one |
| PriceStore.PriceTable.SaveAndCheckPrice | src/script/main.py:138-166 | the table becomes the old table with the new row appended, or stays as it was on a key clash; the outcome is the previous price and its classification, or Rejected; the unique constraint is kept |
| PriceStore.PriceTable.GetPriceHistory | src/script/main.py:182-198 | returns the up-to-ten newest rows of the product and changes nothing |
| Extraction.ChosenName | src/script/main.py:117-134 | the name the chain settles on is never empty |
| Extraction.FirstYield | src/script/main.py:125-130 | the position of the first selector whose stripped text is not empty; no earlier selector yields |
| Extraction.ChosenNameIsFirst | src/script/main.py:125-134 | the chosen name is the stripped text at the first yielding selector, or "Неизвестный товар" when none yields |
| Extraction.ChosenNameStripped | src/script/main.py:128-134 | the chosen name never starts or ends with whitespace |
| Extraction.GetProductName | src/script/main.py:114-136 | the loop returns the chosen name of the five selectors, which is never empty |
| Extraction.GetLinks | src/script/main.py:63 | there are no more links than lines |
| Extraction.GetLinksConcat | src/script/main.py:63 | filtering works line by line and keeps the file order |
| Extraction.GetLinksOne | src/script/main.py:63 | a blank line contributes nothing, and any other line contributes its stripped text |
| Extraction.GetLinksIdempotent | src/script/main.py:63 | filtering the links again changes nothing |
| Extraction.LinksAreStripped | src/script/main.py:63 | no link is empty or carries surrounding whitespace |
| Extraction.LinksComeFromLines | src/script/main.py:63 | every link is the stripped text of some line |
| Text.Strip | src/script/main.py:128 | `str.strip()`, never longer than its input; its properties are `StripSpec` |
| Text.StripSpec | src/script/main.py:128 | `strip()` gives the infix after the leading whitespace, with only whitespace after it, and neither starts nor ends with whitespace |
| Text.StripEmpty | src/script/main.py:128-129 | a stripped text is empty exactly when the text is all whitespace |
| Text.StripIdempotent | src/script/main.py:128 | stripping twice is stripping once |
| Monitor.AfterVisit | src/script/main.py:83-92 | the rows after one visit; `VisitAppends` and `FailedVisitKeepsRows` state what they are |
| Monitor.VisitResult | src/script/main.py:83-95 | how a visit ends: page failure, unparsable price, or the save's outcome (`VisitAppends`) |
| Monitor.VisitAppends | src/script/main.py:66-95 | a visit adds at most one row, a row of the visited link, and only for a parsable price; the row holds the parsed price, the chosen name, the previous price and the time |
| Monitor.FailedVisitKeepsRows | src/script/main.py:83-95 | an unreachable page or an unparsable price leaves the table unchanged |
| Monitor.GetProductPrice | src/script/main.py:66-95 | the visit changes the table as specified and keeps the unique constraint |
| Monitor.AfterRun | src/script/main.py:222-224 | the rows after visiting the links in order; see `RunAppends`, `RunKeepsUnique`, `RunKeepsLinked`, `RunWithRisingClock` |
| Monitor.RunAppends | src/script/main.py:222-226 | a batch only appends, at most one row per link |
| Monitor.RunKeepsUnique | src/script/main.py:222-226 | a batch keeps the unique constraint |
| Monitor.RunKeepsLinked | src/script/main.py:222-226 | a batch keeps every row's previous price equal to the price of the newest row of its product inserted before it |
| Monitor.RunWithRisingClock | src/script/main.py:222-226 | with a strictly rising clock that starts after every stored row, each parsable page adds exactly one row |
| Monitor.Shown | src/script/main.py:222-226 | the histories printed, one per link; `ShownAfterVisit` says which |
| Monitor.ShownAfterVisit | src/script/main.py:222-226 | the k-th history shown is that of link k right after its visit |
| Monitor.ProcessAllLinks | src/script/main.py:216-228 | visits the filtered links in file order; the table ends as the batch specifies, and the histories shown are those of each link right after its visit |

## Left out

- The Selenium driver is not modelled.
  - Not modelled: driver setup, navigation, `WebDriverWait`, `fullscreen_window`, `time.sleep` and `close()` (main.py:29-37, 68-79, 228-234).
  - It is foreign browser code. It is replaced by the `Page` parameter, and a visit that would raise becomes `Unreachable`.
  - The look-up error the name loop swallows becomes `Missing`.
- SQLite is not modelled.
  - Not modelled: connect, commit and close, and the `id AUTOINCREMENT` column, which is never read.
  - It is database I/O. The table is an in-memory sequence of rows in insertion order.
  - `CURRENT_TIMESTAMP` becomes the explicit `now` and `clock` parameters. The clock is an opaque integer, so two saves in the same second clash exactly as `UNIQUE(product_url, check_date)` makes them clash.
- File reading (main.py:62) and every `print` and logging call are not modelled; they are I/O.
  - `ProcessAllLinks` returns the histories it would print.
  - `%+.1f` rounding is not modelled.
- `ToFloat`: exact decimal reals stand in for IEEE doubles, so rounding, infinity and NaN are not modelled. `float()` is modelled only on the texts the normaliser can produce: digits and periods.
- `PriceParser.IsDigit`: only ASCII `0`-`9` count as digits. Python's `str.isdigit()` also accepts other Unicode digits, such as superscripts and Arabic-Indic digits, which `float()` then partly rejects.
- The normaliser's `.replace(' ', '')` (main.py:102) is modelled as written (`Normalise`). It never removes anything, because the filter on line 100 has already dropped every space.
- `check_price_change` with a previous price of 0 and a positive new price raises `ZeroDivisionError` after the row is committed. `save_and_check_price` catches it and logs it as a database error.
  - The model keeps the row and reports `DivisionByZero` in place of a percentage.
  - `show_price_history` avoids the division through `if previous:` (`HistoryChange`).
- SQLite failures other than the `UNIQUE` clash (a locked or read-only database, a full disk, a missing table) are not modelled.
  - In a save (main.py:94, 163-164) they are caught and logged, and the row is not written. In the model every save without a key clash succeeds.
  - In the history read (main.py:184-195) nothing catches them: neither `show_price_history` nor the loop of `process_all_links` has a `try`. The error escapes the batch, the main block logs it (main.py:243-247) and the run ends, so the remaining links are never visited. In the model `GetPriceHistory` always succeeds, so `ProcessAllLinks` always visits every link.
- The `KeyboardInterrupt`, top-level exception handler and shutdown (main.py:236-247) are process lifecycle and are not modelled.
- `show_price_history` is modelled only through `History` and `HistoryChange`; the "history not found" message is output.
- `PriceTable.SetupDatabase`: it assumes that a table already on disk satisfies its own `UNIQUE` constraint, as SQLite guarantees. It does not model an existing table with a different schema.
