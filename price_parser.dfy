/**
 * The price-text normaliser `parse_price`: keep digits, commas and periods,
 * turn commas into periods, collapse all periods but the last, and convert
 * the result to a number. The conversion is modelled on exact reals: a
 * string of digits with at most one period and at least one digit converts,
 * everything else fails.
 */
module PriceParser {
  import opened Wrappers
  import opened Text

  predicate IsDigit(c: char) {
    '0' <= c <= '9'
  }

  /** The characters the first cleaning step keeps. */
  predicate IsKept(c: char) {
    IsDigit(c) || c == ',' || c == '.'
  }

  predicate HasDigit(s: string) {
    exists k :: 0 <= k < |s| && IsDigit(s[k])
  }

  /** Every character is a digit or a period. */
  predicate IsDecimalText(s: string) {
    forall k :: 0 <= k < |s| ==> IsDigit(s[k]) || s[k] == '.'
  }

  /** The digits of `s`, in their order. */
  function Digits(s: string): string {
    if s == [] then []
    else if IsDigit(s[0]) then [s[0]] + Digits(s[1..])
    else Digits(s[1..])
  }

  /** No digits are left exactly when there were none. */
  lemma {:induction false} DigitsEmpty(s: string)
    ensures Digits(s) == [] <==> !HasDigit(s)
  {
    if s != [] {
      DigitsEmpty(s[1..]);
      assert forall k :: 1 <= k < |s| ==> s[k] == s[1..][k - 1];
      if !IsDigit(s[0]) && HasDigit(s) {
        var k :| 0 <= k < |s| && IsDigit(s[k]);
        assert s[1..][k - 1] == s[k];
      }
    }
  }

  lemma {:induction false} DigitsConcat(a: string, b: string)
    ensures Digits(a + b) == Digits(a) + Digits(b)
  {
    if a == [] {
      assert a + b == b;
    } else {
      assert (a + b)[1..] == a[1..] + b;
      DigitsConcat(a[1..], b);
    }
  }

  /** Removing a non-digit character leaves the digits as they were. */
  lemma {:induction false} DigitsWithout(s: string, c: char)
    requires !IsDigit(c)
    ensures Digits(Without(s, c)) == Digits(s)
  {
    if s != [] {
      DigitsWithout(s[1..], c);
      if s[0] != c {
        assert ([s[0]] + Without(s[1..], c))[1..] == Without(s[1..], c);
      }
    }
  }

  lemma {:induction false} DecimalTextWithout(s: string, c: char)
    requires IsDecimalText(s)
    ensures IsDecimalText(Without(s, c))
  {
    if s != [] {
      assert IsDecimalText(s[1..]) by {
        assert forall k :: 0 <= k < |s| - 1 ==> s[1..][k] == s[k + 1];
      }
      DecimalTextWithout(s[1..], c);
    }
  }

  // ---------------------------------------------------------------------
  // Step 1: keep only digits, commas and periods (main.py:100)
  // ---------------------------------------------------------------------

  /**
   * The cleaned text: every character it holds is a digit, comma or period,
   * and each such character occurs in it exactly as often as in `s`.
   */
  function Clean(s: string): (r: string)
    ensures |r| <= |s|
    ensures forall k :: 0 <= k < |r| ==> IsKept(r[k])
  {
    if s == [] then []
    else if IsKept(s[0]) then [s[0]] + Clean(s[1..])
    else Clean(s[1..])
  }

  /** Each digit, comma and period occurs as often after cleaning as before. */
  lemma {:induction false} CleanCounts(s: string, c: char)
    requires IsKept(c)
    ensures Count(Clean(s), c) == Count(s, c)
  {
    if s != [] {
      CleanCounts(s[1..], c);
      if IsKept(s[0]) {
        assert ([s[0]] + Clean(s[1..]))[1..] == Clean(s[1..]);
      }
    }
  }

  /** Cleaning works character by character, so it keeps the original order. */
  lemma {:induction false} CleanConcat(a: string, b: string)
    ensures Clean(a + b) == Clean(a) + Clean(b)
  {
    if a == [] {
      assert a + b == b;
    } else {
      assert (a + b)[1..] == a[1..] + b;
      CleanConcat(a[1..], b);
    }
  }

  /** A kept character survives cleaning; any other character disappears. */
  lemma CleanOne(c: char)
    ensures Clean([c]) == if IsKept(c) then [c] else []
  {
    assert [c][1..] == [];
  }

  lemma {:induction false} CleanKeepsDigits(s: string)
    ensures Digits(Clean(s)) == Digits(s)
  {
    if s != [] {
      CleanKeepsDigits(s[1..]);
      if IsKept(s[0]) {
        assert ([s[0]] + Clean(s[1..]))[1..] == Clean(s[1..]);
      }
    }
  }

  // ---------------------------------------------------------------------
  // Step 2: commas become periods, spaces are removed (main.py:102)
  // ---------------------------------------------------------------------

  /** `s.replace(',', '.')`: each comma replaced in place by a period. */
  function CommaToPeriod(s: string): (r: string)
    ensures |r| == |s|
    ensures forall k :: 0 <= k < |s| ==> r[k] == (if s[k] == ',' then '.' else s[k])
  {
    if s == [] then []
    else [if s[0] == ',' then '.' else s[0]] + CommaToPeriod(s[1..])
  }

  /**
   * After replacing, no comma remains, the periods are the old periods and
   * commas together, and the digits are unchanged.
   */
  lemma {:induction false} CommaToPeriodSpec(s: string)
    ensures Count(CommaToPeriod(s), ',') == 0
    ensures Count(CommaToPeriod(s), '.') == Count(s, '.') + Count(s, ',')
    ensures Digits(CommaToPeriod(s)) == Digits(s)
  {
    var r := CommaToPeriod(s);
    if s != [] {
      CommaToPeriodSpec(s[1..]);
      assert r[1..] == CommaToPeriod(s[1..]);
    }
  }

  /** The whole of line 102: `.replace(',', '.').replace(' ', '')`. */
  function Normalise(s: string): string {
    Without(CommaToPeriod(s), ' ')
  }

  // ---------------------------------------------------------------------
  // Step 3: collapse all periods but the last (main.py:104-107)
  // ---------------------------------------------------------------------

  /** `''.join(parts)` */
  function Concat(parts: seq<string>): string {
    if parts == [] then [] else parts[0] + Concat(parts[1..])
  }

  /** `'.'.join(parts)` */
  function JoinPeriod(parts: seq<string>): string
    requires parts != []
  {
    if |parts| == 1 then parts[0] else parts[0] + "." + JoinPeriod(parts[1..])
  }

  /** `s.split('.')`: always at least one segment. */
  function Split(s: string): (parts: seq<string>)
    ensures |parts| >= 1
  {
    if s == [] then [[]]
    else
      var rest := Split(s[1..]);
      if s[0] == '.' then [[]] + rest
      else [[s[0]] + rest[0]] + rest[1..]
  }

  /** There is one more segment than there are periods. */
  lemma {:induction false} SplitCount(s: string)
    ensures |Split(s)| == Count(s, '.') + 1
  {
    if s != [] {
      SplitCount(s[1..]);
    }
  }

  /** No segment holds a period. */
  lemma {:induction false} SplitSegments(s: string, i: nat)
    requires i < |Split(s)|
    ensures Count(Split(s)[i], '.') == 0
  {
    if s != [] {
      var rest := Split(s[1..]);
      if s[0] == '.' {
        if i > 0 { SplitSegments(s[1..], i - 1); }
      } else if i == 0 {
        SplitSegments(s[1..], 0);
        assert ([s[0]] + rest[0])[1..] == rest[0];
      } else {
        SplitSegments(s[1..], i);
      }
    }
  }

  /** Splitting and re-joining with periods gives back the text. */
  lemma {:induction false} SplitJoin(s: string)
    ensures JoinPeriod(Split(s)) == s
  {
    if s != [] {
      var rest := Split(s[1..]);
      SplitJoin(s[1..]);
      if s[0] == '.' {
        assert JoinPeriod([[]] + rest) == [] + "." + JoinPeriod(rest);
      } else {
        var parts := [[s[0]] + rest[0]] + rest[1..];
        if |rest| == 1 {
          assert JoinPeriod(rest) == rest[0];
        } else {
          assert JoinPeriod(rest) == rest[0] + "." + JoinPeriod(rest[1..]);
          assert parts[1..] == rest[1..];
        }
      }
    }
  }

  /** Joining the segments without separator drops exactly the periods. */
  lemma {:induction false} ConcatSplit(s: string)
    ensures Concat(Split(s)) == Without(s, '.')
  {
    if s != [] {
      var rest := Split(s[1..]);
      ConcatSplit(s[1..]);
      if s[0] == '.' {
        assert ([[]] + rest)[1..] == rest;
      } else {
        var parts := [[s[0]] + rest[0]] + rest[1..];
        assert parts[1..] == rest[1..];
        assert Concat(rest) == rest[0] + Concat(rest[1..]);
      }
    }
  }

  lemma {:induction false} SplitAbsent(s: string)
    requires Count(s, '.') == 0
    ensures Split(s) == [s]
  {
    if s != [] {
      SplitAbsent(s[1..]);
      assert [s[0]] + s[1..] == s;
    }
  }

  /** Splitting text that starts with a non-period extends the first segment. */
  lemma SplitCons(x: char, t: string)
    requires x != '.'
    ensures Split([x] + t) == [[x] + Split(t)[0]] + Split(t)[1..]
  {
    assert ([x] + t)[1..] == t;
  }

  /** Splitting text that starts with a period opens an empty first segment. */
  lemma SplitDot(t: string)
    ensures Split(['.'] + t) == [[]] + Split(t)
  {
    assert (['.'] + t)[1..] == t;
  }

  lemma ExtendHead(x: char, ra: seq<string>, rb: seq<string>)
    requires |ra| >= 1
    ensures [[x] + (ra + rb)[0]] + (ra + rb)[1..] == ([[x] + ra[0]] + ra[1..]) + rb
  {
    assert (ra + rb)[1..] == ra[1..] + rb;
  }

  /** A period splits the text into the segments before it and after it. */
  lemma {:induction false} SplitAtPeriod(a: string, b: string)
    ensures Split(a + "." + b) == Split(a) + Split(b)
  {
    if a == [] {
      assert a + "." + b == ['.'] + b;
      SplitDot(b);
    } else {
      SplitAtPeriod(a[1..], b);
      SplitAtPeriodStep(a[0], a[1..], b);
      assert a == [a[0]] + a[1..];
      assert a + "." + b == [a[0]] + (a[1..] + "." + b);
    }
  }

  /** The inductive step of `SplitAtPeriod`: one more character in front. */
  lemma SplitAtPeriodStep(x: char, a: string, b: string)
    requires Split(a + "." + b) == Split(a) + Split(b)
    ensures Split([x] + (a + "." + b)) == Split([x] + a) + Split(b)
  {
    var t := a + "." + b;
    if x == '.' {
      SplitDot(t);
      SplitDot(a);
    } else {
      SplitCons(x, t);
      SplitCons(x, a);
      ExtendHead(x, Split(a), Split(b));
    }
  }

  function CollapsePeriods(s: string): string {
    if '.' in s then
      var parts := Split(s);
      if |parts| > 2 then Concat(parts[..|parts| - 1]) + "." + parts[|parts| - 1] else s
    else s
  }

  /** Index of the last `c` in `s`, or -1 when there is none. */
  function LastIndexOf(s: string, c: char): (k: int)
    ensures -1 <= k < |s|
    ensures k >= 0 ==> s[k] == c && Count(s[k + 1..], c) == 0 && Count(s[..k], c) + 1 == Count(s, c)
    ensures k < 0 ==> Count(s, c) == 0
  {
    if s == [] then -1
    else if s[|s| - 1] == c then
      assert s == s[..|s| - 1] + [c];
      CountConcat(s[..|s| - 1], [c], c);
      |s| - 1
    else
      var k := LastIndexOf(s[..|s| - 1], c);
      assert s == s[..|s| - 1] + [s[|s| - 1]];
      CountConcat(s[..|s| - 1], [s[|s| - 1]], c);
      if k >= 0 then
        assert s[..|s| - 1][..k] == s[..k];
        assert s[k + 1..] == s[..|s| - 1][k + 1..] + [s[|s| - 1]];
        CountConcat(s[..|s| - 1][k + 1..], [s[|s| - 1]], c);
        k
      else k
  }

  /** With a period at `k`, none after it and one before it, all earlier periods go. */
  lemma CollapseAt(s: string, k: nat)
    requires k < |s| && s[k] == '.' && Count(s[k + 1..], '.') == 0 && Count(s[..k], '.') >= 1
    ensures CollapsePeriods(s) == Without(s[..k], '.') + s[k..]
  {
    var a, b := s[..k], s[k + 1..];
    assert s == a + "." + b;
    SplitAtPeriod(a, b);
    SplitAbsent(b);
    var parts := Split(s);
    assert parts == Split(a) + [b];
    SplitCount(a);
    assert parts[..|parts| - 1] == Split(a);
    ConcatSplit(a);
    assert s[k..] == "." + b;
  }

  /** Text with at most one period is left as it is. */
  lemma CollapseFew(s: string)
    requires Count(s, '.') <= 1
    ensures CollapsePeriods(s) == s
  {
    SplitCount(s);
  }

  /**
   * The collapse step: text with at most one period is left as it is; with
   * two or more, the earlier periods are dropped and the last one stays, just
   * before the last original segment.
   */
  lemma CollapseShape(s: string)
    ensures Count(s, '.') <= 1 ==> CollapsePeriods(s) == s
    ensures Count(s, '.') >= 2 ==>
      var k := LastIndexOf(s, '.');
      0 <= k && CollapsePeriods(s) == Without(s[..k], '.') + s[k..]
  {
    if Count(s, '.') >= 2 {
      CollapseAt(s, LastIndexOf(s, '.'));
    } else {
      CollapseFew(s);
    }
  }

  /** One period between two period-free texts. */
  lemma PeriodBetween(w: string, b: string)
    requires Count(w, '.') == 0 && Count(b, '.') == 0
    ensures Count(w + ['.'] + b, '.') == 1
    ensures Without(w + ['.'] + b, '.') == w + b
  {
    CountAround(w, b, '.');
    WithoutAround(w, b, '.');
    WithoutAbsent(w, '.');
    WithoutAbsent(b, '.');
  }

  /** Removing the periods of a text whose last period is at `k`. */
  lemma WithoutAtLast(s: string, k: nat)
    requires k < |s| && s[k] == '.' && Count(s[k + 1..], '.') == 0
    ensures Without(s, '.') == Without(s[..k], '.') + s[k + 1..]
  {
    assert s == s[..k] + ['.'] + s[k + 1..];
    WithoutAround(s[..k], s[k + 1..], '.');
    WithoutAbsent(s[k + 1..], '.');
  }

  /** The characters of the collapsed text when there were two or more periods. */
  lemma CollapsedParts(s: string, k: nat)
    requires k < |s| && s[k] == '.' && Count(s[k + 1..], '.') == 0
    ensures Count(Without(s[..k], '.') + s[k..], '.') == 1
    ensures Without(Without(s[..k], '.') + s[k..], '.') == Without(s, '.')
  {
    var w, b := Without(s[..k], '.'), s[k + 1..];
    assert s[k..] == ['.'] + b;
    assert w + (['.'] + b) == w + ['.'] + b;
    PeriodBetween(w, b);
    WithoutAtLast(s, k);
  }

  lemma CollapsedDecimal(s: string, k: nat)
    requires k < |s| && IsDecimalText(s)
    ensures IsDecimalText(Without(s[..k], '.') + s[k..])
  {
    assert IsDecimalText(s[..k]) by {
      assert forall j :: 0 <= j < k ==> s[..k][j] == s[j];
    }
    DecimalTextWithout(s[..k], '.');
    assert forall j :: 0 <= j < |s| - k ==> s[k..][j] == s[k + j];
  }

  /**
   * After collapsing there is at most one period, exactly one when the text
   * had two or more, and the characters other than periods are unchanged.
   */
  lemma CollapseSpec(s: string)
    ensures Count(CollapsePeriods(s), '.') <= 1
    ensures Count(s, '.') >= 2 ==> Count(CollapsePeriods(s), '.') == 1
    ensures Without(CollapsePeriods(s), '.') == Without(s, '.')
    ensures IsDecimalText(s) ==> IsDecimalText(CollapsePeriods(s))
    ensures Digits(CollapsePeriods(s)) == Digits(s)
  {
    if Count(s, '.') >= 2 {
      var k := LastIndexOf(s, '.');
      CollapseAt(s, k);
      CollapsedParts(s, k);
      if IsDecimalText(s) {
        CollapsedDecimal(s, k);
      }
    } else {
      CollapseFew(s);
    }
    DigitsWithout(CollapsePeriods(s), '.');
    DigitsWithout(s, '.');
  }

  // ---------------------------------------------------------------------
  // Step 4: float() (main.py:109) on text of digits and periods
  // ---------------------------------------------------------------------

  /** The texts `float()` accepts among those made of digits and periods. */
  predicate IsNumeral(s: string) {
    IsDecimalText(s) && Count(s, '.') <= 1 && HasDigit(s)
  }

  function DigitValue(c: char): nat
    requires IsDigit(c)
  {
    c as int - '0' as int
  }

  /** The value of a run of decimal digits (0 for the empty run). */
  function DigitsValue(ds: string): nat
    requires AllDigits(ds)
  {
    if ds == [] then 0 else DigitsValue(ds[..|ds| - 1]) * 10 + DigitValue(ds[|ds| - 1])
  }

  /** Index of the first `c` in `s`, or `|s|` when there is none. */
  function IndexOf(s: string, c: char): (i: nat)
    ensures i <= |s|
    ensures Count(s[..i], c) == 0
    ensures i < |s| ==> s[i] == c
  {
    if s == [] || s[0] == c then 0
    else
      var i := IndexOf(s[1..], c);
      assert s[..i + 1] == [s[0]] + s[1..][..i];
      i + 1
  }

  predicate AllDigits(s: string) {
    forall k :: 0 <= k < |s| ==> IsDigit(s[k])
  }

  /** A numeral splits at its period (if any) into two runs of digits. */
  lemma NumeralParts(s: string)
    requires IsNumeral(s)
    ensures AllDigits(s[..IndexOf(s, '.')])
    ensures IndexOf(s, '.') < |s| ==> AllDigits(s[IndexOf(s, '.') + 1..])
  {
    var i := IndexOf(s, '.');
    assert AllDigits(s[..i]) by {
      DecimalSlice(s, 0, i);
      assert s[0..i] == s[..i];
      PeriodFreeDigits(s[..i]);
    }
    if i < |s| {
      var frac := s[i + 1..];
      assert Count(frac, '.') == 0 by {
        CountAt(s, i, '.');
      }
      assert AllDigits(frac) by {
        DecimalSlice(s, i + 1, |s|);
        assert s[i + 1..|s|] == frac;
        PeriodFreeDigits(frac);
      }
    }
  }

  lemma DecimalSlice(s: string, i: nat, j: nat)
    requires IsDecimalText(s) && i <= j <= |s|
    ensures IsDecimalText(s[i..j])
  {
    assert forall k :: 0 <= k < j - i ==> s[i..j][k] == s[i + k];
  }

  /** Digits and periods without a period are digits. */
  lemma PeriodFreeDigits(t: string)
    requires IsDecimalText(t) && Count(t, '.') == 0
    ensures AllDigits(t)
  {
    CountAbsent(t, '.');
    forall k | 0 <= k < |t| ensures IsDigit(t[k]) {
      assert t[k] in t;
    }
  }

  /**
   * The value of the digits `ds` written after a decimal point:
   * `0.d1d2...` is `(d1 + 0.d2...) / 10`, a number in `[0, 1)`.
   */
  function FractionValue(ds: string): (v: real)
    requires AllDigits(ds)
    ensures 0.0 <= v < 1.0
  {
    if ds == [] then 0.0 else (DigitValue(ds[0]) as real + FractionValue(ds[1..])) / 10.0
  }

  /** Integer part before the period plus the fraction after it. */
  function NumeralValue(s: string): (v: real)
    requires IsNumeral(s)
    ensures v >= 0.0
  {
    NumeralParts(s);
    var i := IndexOf(s, '.');
    var frac := if i < |s| then s[i + 1..] else [];
    DigitsValue(s[..i]) as real + FractionValue(frac)
  }

  /** `float(text)` for the texts the normaliser can produce. */
  function ToFloat(s: string): (r: Option<real>)
    ensures r.Some? <==> IsNumeral(s)
    ensures r.Some? ==> r.value >= 0.0
  {
    if IsNumeral(s) then Some(NumeralValue(s)) else None
  }

  // ---------------------------------------------------------------------
  // parse_price (main.py:97-112)
  // ---------------------------------------------------------------------

  /** The text `float()` is applied to. */
  function CleanedPrice(text: string): string {
    CollapsePeriods(Normalise(Clean(text)))
  }

  /** `parse_price`: `None` when `float()` raises, otherwise a non-negative value. */
  function ParsePrice(text: string): (r: Option<real>)
    ensures r.Some? ==> r.value >= 0.0
  {
    ToFloat(CleanedPrice(text))
  }

  /**
   * The text handed to `float()` holds only digits and at most one period,
   * its digits are those of the raw text in the same order, it has no comma
   * and no space.
   */
  lemma CleanedPriceSpec(text: string)
    ensures IsDecimalText(CleanedPrice(text))
    ensures Count(CleanedPrice(text), '.') <= 1
    ensures Digits(CleanedPrice(text)) == Digits(text)
    ensures Count(CleanedPrice(text), ',') == 0 && Count(CleanedPrice(text), ' ') == 0
  {
    var c := Clean(text);
    var p := CommaToPeriod(c);
    var n := Without(p, ' ');
    CommaToPeriodSpec(c);
    assert IsDecimalText(p);
    DecimalTextWithout(p, ' ');
    CleanKeepsDigits(text);
    DigitsWithout(p, ' ');
    CollapseSpec(n);
    DecimalTextLacks(CleanedPrice(text), ',');
    DecimalTextLacks(CleanedPrice(text), ' ');
  }

  lemma DecimalTextLacks(s: string, c: char)
    requires IsDecimalText(s) && !IsDigit(c) && c != '.'
    ensures Count(s, c) == 0
  {
    CountAbsent(s, c);
  }

  /**
   * Parsing fails exactly when the raw text holds no digit at all;
   * otherwise it succeeds with a non-negative value.
   */
  lemma ParseFailsIffNoDigit(text: string)
    ensures ParsePrice(text).None? <==> !HasDigit(text)
    ensures ParsePrice(text).Some? ==> ParsePrice(text).value >= 0.0
  {
    CleanedPriceSpec(text);
    DigitsEmpty(text);
    DigitsEmpty(CleanedPrice(text));
  }

  /** Each kept character survives cleaning. */
  lemma {:induction false} CleanAllKept(s: string)
    requires forall k :: 0 <= k < |s| ==> IsKept(s[k])
    ensures Clean(s) == s
  {
    if s != [] {
      assert forall k :: 0 <= k < |s| - 1 ==> s[1..][k] == s[k + 1];
      CleanAllKept(s[1..]);
    }
  }

  /** Two periods between runs of digits collapse to the second one. */
  lemma CollapseTwoPeriods(a: string, b: string, c: string)
    requires AllDigits(a) && AllDigits(b) && AllDigits(c)
    ensures CollapsePeriods(a + "." + b + "." + c) == a + b + "." + c
  {
    var p := a + "." + b + "." + c;
    var k := |a| + 1 + |b|;
    assert p[..k] == a + "." + b && p[k..] == "." + c && p[k + 1..] == c;
    assert Count(p[k + 1..], '.') == 0 && Count(p[..k], '.') >= 1 by {
      NoPeriodInDigits(c);
      CountAround(a, b, '.');
    }
    assert Without(p[..k], '.') == a + b by {
      NoPeriodInDigits(a);
      NoPeriodInDigits(b);
      WithoutAround(a, b, '.');
      WithoutAbsent(a, '.');
      WithoutAbsent(b, '.');
    }
    CollapseAt(p, k);
  }

  /** Replacing the comma of either convention gives two periods. */
  lemma CommaToPeriodConventions(a: string, b: string, c: string)
    requires AllDigits(a) && AllDigits(b) && AllDigits(c)
    ensures CommaToPeriod(a + "," + b + "." + c) == a + "." + b + "." + c
    ensures CommaToPeriod(a + "." + b + "," + c) == a + "." + b + "." + c
  {
  }

  /** Text made only of kept characters is cleaned to itself. */
  lemma CleanedKept(x: string, p: string)
    requires forall k :: 0 <= k < |x| ==> IsKept(x[k])
    requires CommaToPeriod(x) == p && IsDecimalText(p)
    ensures CleanedPrice(x) == CollapsePeriods(p)
  {
    CleanAllKept(x);
    NoSpaceInDecimal(p);
    WithoutAbsent(p, ' ');
  }

  /**
   * The two separator conventions for thousands and decimals, `A,BBB.CC`
   * and `A.BBB,CC`, yield the same text `ABBB.CC` for `float()`.
   */
  lemma SeparatorConventions(a: string, b: string, c: string)
    requires AllDigits(a) && AllDigits(b) && AllDigits(c)
    ensures CleanedPrice(a + "," + b + "." + c) == a + b + "." + c
    ensures CleanedPrice(a + "." + b + "," + c) == a + b + "." + c
  {
    var p := a + "." + b + "." + c;
    var x, y := a + "," + b + "." + c, a + "." + b + "," + c;
    CommaToPeriodConventions(a, b, c);
    assert IsDecimalText(p);
    assert CollapsePeriods(p) == a + b + "." + c by {
      CollapseTwoPeriods(a, b, c);
    }
    assert CleanedPrice(x) == CollapsePeriods(p) by {
      assert forall k :: 0 <= k < |x| ==> IsKept(x[k]);
      CleanedKept(x, p);
    }
    assert CleanedPrice(y) == CollapsePeriods(p) by {
      assert forall k :: 0 <= k < |y| ==> IsKept(y[k]);
      CleanedKept(y, p);
    }
  }

  lemma NoPeriodInDigits(s: string)
    requires AllDigits(s)
    ensures Count(s, '.') == 0
  {
    CountAbsent(s, '.');
  }

  lemma NoSpaceInDecimal(s: string)
    requires IsDecimalText(s)
    ensures Count(s, ' ') == 0
  {
    CountAbsent(s, ' ');
  }

  /** Text with no digit, comma or period disappears when cleaned. */
  lemma {:induction false} CleanNoneKept(s: string)
    requires forall k :: 0 <= k < |s| ==> !IsKept(s[k])
    ensures Clean(s) == []
  {
    if s != [] {
      assert forall k :: 0 <= k < |s| - 1 ==> s[1..][k] == s[k + 1];
      CleanNoneKept(s[1..]);
    }
  }

  /**
   * Surroundings holding no digit, comma or period (words, spaces, currency
   * signs without a period) do not change the parse.
   */
  lemma ParseIgnoresSurroundings(pre: string, x: string, post: string)
    requires forall k :: 0 <= k < |pre| ==> !IsKept(pre[k])
    requires forall k :: 0 <= k < |post| ==> !IsKept(post[k])
    ensures ParsePrice(pre + x + post) == ParsePrice(x)
  {
    CleanConcat(pre + x, post);
    CleanConcat(pre, x);
    CleanNoneKept(pre);
    CleanNoneKept(post);
    assert Clean(pre + x + post) == Clean(x);
  }

  /**
   * `float()` of digits, a period and digits is the whole part plus the
   * fraction, as long as some digit is present.
   */
  lemma NumeralOfParts(w: string, f: string)
    requires AllDigits(w) && AllDigits(f) && (w != [] || f != [])
    ensures ToFloat(w + "." + f) == Some(DigitsValue(w) as real + FractionValue(f))
  {
    var s := w + "." + f;
    var i := |w|;
    assert s[..i] == w && s[i + 1..] == f;
    assert IsNumeral(s) by {
      PartsNumeral(w, f);
    }
    assert IndexOf(s, '.') == i by {
      NoPeriodInDigits(w);
      IndexOfAt(s, '.', i);
    }
    NumeralAt(s, i, w, f);
  }

  lemma PartsNumeral(w: string, f: string)
    requires AllDigits(w) && AllDigits(f) && (w != [] || f != [])
    ensures IsNumeral(w + "." + f)
  {
    var s := w + "." + f;
    NoPeriodInDigits(w);
    NoPeriodInDigits(f);
    CountAround(w, f, '.');
    if w != [] { assert IsDigit(s[0]); } else { assert IsDigit(s[|w| + 1]); }
  }

  /** The value of a numeral whose period is at `i`. */
  lemma NumeralAt(s: string, i: nat, w: string, f: string)
    requires IsNumeral(s) && i < |s| && IndexOf(s, '.') == i
    requires s[..i] == w && s[i + 1..] == f && AllDigits(w) && AllDigits(f)
    ensures ToFloat(s) == Some(DigitsValue(w) as real + FractionValue(f))
  {
  }

  /** A `c` at `i` with none before it is the first one. */
  lemma {:induction false} IndexOfAt(s: string, c: char, i: nat)
    requires i < |s| && s[i] == c && Count(s[..i], c) == 0
    ensures IndexOf(s, c) == i
  {
    if i > 0 {
      assert s[..i] == [s[0]] + s[1..][..i - 1];
      assert s[0] != c;
      IndexOfAt(s[1..], c, i - 1);
    }
  }

  /** `float("1299.50")` is 1299.5. */
  lemma NumeralExample()
    ensures ToFloat("1299.50") == Some(1299.5)
  {
    assert AllDigits("1299") && AllDigits("50");
    assert "1299" + "." + "50" == "1299.50";
    NumeralOfParts("1299", "50");
    WholeExample();
    FractionExample();
  }

  lemma WholeExample()
    ensures AllDigits("1299") && DigitsValue("1299") == 1299
  {
    assert "1299"[..3] == "129" && "129"[..2] == "12" && "12"[..1] == "1" && "1"[..0] == [];
  }

  lemma FractionExample()
    ensures AllDigits("50") && FractionValue("50") == 0.5
  {
    assert "50"[1..] == "0" && "0"[1..] == [];
  }

  /** Shop-style price texts in both separator conventions read as 1299.5. */
  lemma ParseExamples()
    ensures ParsePrice("1,299.50") == Some(1299.5)
    ensures ParsePrice("1.299,50") == Some(1299.5)
  {
    assert AllDigits("1") && AllDigits("299") && AllDigits("50");
    SeparatorConventions("1", "299", "50");
    assert "1" + "," + "299" + "." + "50" == "1,299.50";
    assert "1" + "." + "299" + "," + "50" == "1.299,50";
    assert "1" + "299" + "." + "50" == "1299.50";
    NumeralExample();
  }

  /** A text without digits does not parse. */
  lemma ParseNoDigitExample()
    ensures ParsePrice("руб.") == None
  {
    ParseFailsIffNoDigit("руб.");
    assert !HasDigit("руб.") by {
      assert forall k :: 0 <= k < 4 ==> !IsDigit("руб."[k]);
    }
  }

  /**
   * The period that ends the currency abbreviation `руб.` survives
   * cleaning and, being the last period, becomes the decimal point, while
   * the decimal comma before it is dropped: `"5,50 руб."` reads as 550,
   * not 5.5.
   */
  lemma AbbreviationPeriodExample()
    ensures CleanedPrice("5,50 руб.") == "550."
    ensures ParsePrice("5,50 руб.") == Some(550.0)
  {
    AbbreviationCleaned();
    AbbreviationNormalised();
    AbbreviationCollapsed();
    TrailingPeriodValue();
  }

  lemma AbbreviationNormalised()
    ensures Normalise("5,50.") == "5.50."
  {
    assert AllDigits("5") && AllDigits("50") && AllDigits("");
    CommaToPeriodConventions("5", "50", "");
    assert "5" + "," + "50" + "." + "" == "5,50.";
    assert "5" + "." + "50" + "." + "" == "5.50.";
    assert IsDecimalText("5.50.");
    NoSpaceInDecimal("5.50.");
    WithoutAbsent("5.50.", ' ');
  }

  lemma AbbreviationCollapsed()
    ensures CollapsePeriods("5.50.") == "550."
  {
    assert AllDigits("5") && AllDigits("50") && AllDigits("");
    CollapseTwoPeriods("5", "50", "");
    assert "5" + "." + "50" + "." + "" == "5.50.";
    assert "5" + "50" + "." + "" == "550.";
  }

  lemma AbbreviationCleaned()
    ensures Clean("5,50 руб.") == "5,50."
  {
    var num, word := "5,50", " руб";
    assert Clean(num) == num by {
      assert forall k :: 0 <= k < |num| ==> IsKept(num[k]);
      CleanAllKept(num);
    }
    assert Clean(word) == [] by {
      assert forall k :: 0 <= k < |word| ==> !IsKept(word[k]);
      CleanNoneKept(word);
    }
    assert Clean(num + word) == num by {
      CleanConcat(num, word);
    }
    assert Clean(num + word + ".") == num + "." by {
      CleanConcat(num + word, ".");
      CleanOne('.');
    }
    assert num + word + "." == "5,50 руб.";
  }

  /** `float("550.")` is 550. */
  lemma TrailingPeriodValue()
    ensures ToFloat("550.") == Some(550.0)
  {
    assert AllDigits("550") && AllDigits("");
    assert "550" + "." + "" == "550.";
    NumeralOfParts("550", "");
    assert DigitsValue("550") == 550 by {
      assert "550"[..2] == "55" && "55"[..1] == "5" && "5"[..0] == [];
    }
  }
}
