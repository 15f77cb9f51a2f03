/** The per-ticker feature pipeline: from a ticker's daily bars to the rows
    of the training set. Every column is computed over the whole date-sorted
    series first; then every row holding an undefined value is dropped. */
module Features {
  import opened Seqs
  import Calendar

  /** A numeric cell of a data frame: NaN, a finite number, or an infinity
      (what a float division by zero yields). */
  datatype Cell = NaN | Num(value: real) | Inf(positive: bool)

  /** `dropna` treats only NaN as missing; infinities are kept. */
  predicate Defined(c: Cell) {
    !c.NaN?
  }

  /** One daily bar of one ticker. */
  datatype Bar = Bar(date: Calendar.Day, open: real, high: real, low: real,
                     close: real, volume: real, ticker: string)

  /** The three indicators of the `ta` library, each giving its value at
      row i of a close series. Their formulas are not part of this model. */
  datatype Indicators = Indicators(rsi: (seq<real>, nat) -> Cell,
                                   macd: (seq<real>, nat) -> Cell,
                                   roc: (seq<real>, nat) -> Cell)

  /** A row of the frame `compute_features` builds: the bar's own columns,
      the nine model features, the calendar parts and the target. */
  datatype FeatureRow = FeatureRow(
    bar: Bar,
    ret: Cell, ma5: Cell, ma10: Cell, ma20: Cell,
    volChg: Cell, volatility: Cell,
    rsi: Cell, macd: Cell, momentum: Cell,
    dayOfWeek: int, month: int, day: int, isMonthStart: int, isMonthEnd: int,
    target: Cell)

  function BarDate(b: Bar): int {
    b.date
  }

  function RowDate(r: FeatureRow): int {
    r.bar.date
  }

  function Closes(bars: seq<Bar>): (s: seq<real>)
    ensures |s| == |bars|
  {
    seq(|bars|, i requires 0 <= i < |bars| => bars[i].close)
  }

  function Volumes(bars: seq<Bar>): (s: seq<real>)
    ensures |s| == |bars|
  {
    seq(|bars|, i requires 0 <= i < |bars| => bars[i].volume)
  }

  /** The float quotient x / y of two finite values: a division by zero
      gives a signed infinity, or NaN for 0 / 0. */
  function Quotient(x: real, y: real): (c: Cell)
    ensures y != 0.0 ==> c == Num(x / y)
    ensures y == 0.0 ==> (c.NaN? <==> x == 0.0)
  {
    if y != 0.0 then Num(x / y)
    else if x > 0.0 then Inf(true)
    else if x < 0.0 then Inf(false)
    else NaN
  }

  lemma QuotientLessOne(x: real, y: real)
    requires y != 0.0
    ensures x / y - 1.0 == (x - y) / y
  {
    assert y / y == 1.0;
    assert (x - y) / y == x / y - y / y;
  }

  /** `pct_change()` at row i, computed as pandas does: s[i] / s[i-1] - 1. */
  function PctChange(s: seq<real>, i: nat): (c: Cell)
    requires i < |s|
    ensures i == 0 ==> c == NaN
    ensures i > 0 && s[i - 1] != 0.0 ==> c == Num((s[i] - s[i - 1]) / s[i - 1])
    ensures i > 0 && s[i - 1] == 0.0 ==> (c.NaN? <==> s[i] == 0.0)
    ensures c.Num? ==> i > 0 && s[i] == s[i - 1] * (1.0 + c.value)
  {
    if i == 0 then NaN
    else
      match Quotient(s[i], s[i - 1])
      case Num(q) => QuotientLessOne(s[i], s[i - 1]); Num(q - 1.0)
      case other => other  // an infinity or NaN minus one is unchanged
  }

  function Sum(s: seq<real>): real {
    if s == [] then 0.0 else s[0] + Sum(s[1..])
  }

  /** The k bars ending at row i. */
  function Window(s: seq<real>, i: nat, k: nat): seq<real>
    requires k <= i + 1 <= |s|
  {
    s[i + 1 - k .. i + 1]
  }

  /** `rolling(window=k).mean()` at row i: undefined until k values exist. */
  function RollingMean(s: seq<real>, i: nat, k: nat): (c: Cell)
    requires 1 <= k && i < |s|
    ensures c.NaN? <==> i + 1 < k
  {
    if i + 1 < k then NaN else Num(Sum(Window(s, i, k)) / k as real)
  }

  /** `shift(-1)` at row i: the next row's value; the last row has none. */
  function NextValue(s: seq<real>, i: nat): (c: Cell)
    requires i < |s|
    ensures c.NaN? <==> i == |s| - 1
  {
    if i + 1 < |s| then Num(s[i + 1]) else NaN
  }

  function Flag(b: bool): int {
    if b then 1 else 0
  }

  /** Row i of the frame before `dropna`. */
  function RowAt(bars: seq<Bar>, ind: Indicators, i: nat): (r: FeatureRow)
    requires i < |bars|
    ensures r.bar == bars[i]
    ensures r.ret.NaN? <==> i == 0 || (bars[i - 1].close == 0.0 && bars[i].close == 0.0)
    ensures r.ma5.NaN? <==> i < 4
    ensures r.ma10.NaN? <==> i < 9
    ensures r.ma20.NaN? <==> i < 19
    ensures r.volChg.NaN? <==> i == 0 || (bars[i - 1].volume == 0.0 && bars[i].volume == 0.0)
    ensures r.volatility == Num(bars[i].high - bars[i].low)
    ensures r.target.NaN? <==> i == |bars| - 1
    ensures r.target.Num? ==> r.target.value == bars[i + 1].close
    ensures 0 <= r.dayOfWeek <= 6 && 1 <= r.month <= 12 && 1 <= r.day <= 31
    ensures r.isMonthStart == 1 <==> r.day == 1
    ensures r.isMonthEnd == 1 <==> Calendar.IsMonthStart(bars[i].date + 1)
  {
    var closes := Closes(bars);
    var b := bars[i];
    var c := Calendar.FromDay(b.date);
    Calendar.MonthEndBeforeMonthStart(b.date);
    FeatureRow(
      b,
      PctChange(closes, i), RollingMean(closes, i, 5), RollingMean(closes, i, 10),
      RollingMean(closes, i, 20),
      PctChange(Volumes(bars), i), Num(b.high - b.low),
      ind.rsi(closes, i), ind.macd(closes, i), ind.roc(closes, i),
      Calendar.DayOfWeek(b.date), c.month, c.day,
      Flag(c.day == 1), Flag(Calendar.IsMonthEnd(b.date)),
      NextValue(closes, i))
  }

  /** The price and volume columns of row i are the percent changes and
      moving averages of the close and volume series, and its calendar
      columns are those of bar i's date. */
  lemma RowColumns(bars: seq<Bar>, ind: Indicators, i: nat)
    requires i < |bars|
    ensures var r := RowAt(bars, ind, i);
      && r.ret == PctChange(Closes(bars), i) && r.volChg == PctChange(Volumes(bars), i)
      && r.ma5 == RollingMean(Closes(bars), i, 5) && r.ma10 == RollingMean(Closes(bars), i, 10)
      && r.ma20 == RollingMean(Closes(bars), i, 20)
    ensures var r, c := RowAt(bars, ind, i), Calendar.FromDay(bars[i].date);
      && r.dayOfWeek == Calendar.DayOfWeek(bars[i].date)
      && r.month == c.month && r.day == c.day
      && (r.isMonthStart == 1 <==> Calendar.IsMonthStart(bars[i].date))
      && (r.isMonthEnd == 1 <==> Calendar.IsMonthEnd(bars[i].date))
  {
  }

  /** The frame before `dropna`, one row per bar. */
  function Frame(bars: seq<Bar>, ind: Indicators): (f: seq<FeatureRow>)
    ensures |f| == |bars|
    ensures forall i :: 0 <= i < |f| ==> f[i] == RowAt(bars, ind, i)
  {
    seq(|bars|, i requires 0 <= i < |bars| => RowAt(bars, ind, i))
  }

  /** No column of the row is NaN. */
  predicate Complete(r: FeatureRow) {
    && Defined(r.ret) && Defined(r.ma5) && Defined(r.ma10) && Defined(r.ma20)
    && Defined(r.volChg) && Defined(r.volatility)
    && Defined(r.rsi) && Defined(r.macd) && Defined(r.momentum)
    && Defined(r.target)
  }

  /** Build every column over bars in the given order, then drop incomplete rows. */
  function DropIncomplete(bars: seq<Bar>, ind: Indicators): (d: seq<FeatureRow>)
    ensures forall r :: r in d <==> r in Frame(bars, ind) && Complete(r)
  {
    Filter(Frame(bars, ind), Complete)
  }

  /** `compute_features`: sort by date, build every column, drop incomplete
      rows. At most n - 20 rows come out, none for 20 bars or fewer. */
  function ComputeFeatures(bars: seq<Bar>, ind: Indicators): (out: seq<FeatureRow>)
    ensures |out| <= if |bars| >= 20 then |bars| - 20 else 0
    ensures forall r :: r in out ==> Complete(r)
  {
    SortByKeySorted(bars, BarDate);
    DropIncompleteLength(SortByKey(bars, BarDate), ind);
    DropIncomplete(SortByKey(bars, BarDate), ind)
  }

  // ---------------------------------------------------------------------
  // Moving averages

  lemma {:induction false} SumConstant(s: seq<real>, v: real)
    requires forall j :: 0 <= j < |s| ==> s[j] == v
    ensures Sum(s) == |s| as real * v
  {
    if s != [] {
      SumConstant(s[1..], v);
    }
  }

  lemma {:induction false} SumBounds(s: seq<real>, lo: real, hi: real)
    requires forall j :: 0 <= j < |s| ==> lo <= s[j] <= hi
    ensures |s| as real * lo <= Sum(s) <= |s| as real * hi
  {
    if s != [] {
      SumBounds(s[1..], lo, hi);
    }
  }

  lemma {:induction false} SumAppend(s: seq<real>, x: real)
    ensures Sum(s + [x]) == Sum(s) + x
  {
    if s == [] {
      assert s + [x] == [x];
    } else {
      assert (s + [x])[1..] == s[1..] + [x];
      SumAppend(s[1..], x);
    }
  }

  /** On a constant close series every defined moving average is that constant. */
  lemma MeanOfConstant(s: seq<real>, i: nat, k: nat, v: real)
    requires 1 <= k <= i + 1 <= |s|
    requires forall j :: 0 <= j < |s| ==> s[j] == v
    ensures RollingMean(s, i, k) == Num(v)
  {
    SumConstant(Window(s, i, k), v);
  }

  /** A moving average lies between the least and the greatest value of its window. */
  lemma MeanWithinWindow(s: seq<real>, i: nat, k: nat, lo: real, hi: real)
    requires 1 <= k <= i + 1 <= |s|
    requires forall j :: i + 1 - k <= j <= i ==> lo <= s[j] <= hi
    ensures lo <= RollingMean(s, i, k).value <= hi
  {
    var w := Window(s, i, k);
    assert forall j :: 0 <= j < |w| ==> w[j] == s[i + 1 - k + j];
    SumBounds(w, lo, hi);
  }

  /** Moving the window one row on adds the entering value and removes the
      leaving one, each weighted by 1/k. */
  lemma MeanSlides(s: seq<real>, i: nat, k: nat)
    requires 1 <= k <= i + 1 && i + 1 < |s|
    ensures (k as real) * (RollingMean(s, i + 1, k).value - RollingMean(s, i, k).value)
            == s[i + 1] - s[i + 1 - k]
  {
    var w, w' := Window(s, i, k), Window(s, i + 1, k);
    assert w' == w[1..] + [s[i + 1]];
    SumAppend(w[1..], s[i + 1]);
    assert Sum(w) == s[i + 1 - k] + Sum(w[1..]);
  }

  // ---------------------------------------------------------------------
  // No look-ahead: every feature but the target is computed from the bars
  // up to and including its own row.

  lemma NoLookAhead(bars: seq<Bar>, ind: Indicators, i: nat, m: nat)
    requires i < m <= |bars|
    ensures var r, r' := RowAt(bars, ind, i), RowAt(bars[..m], ind, i);
      && r'.bar == r.bar && r'.ret == r.ret && r'.ma5 == r.ma5 && r'.ma10 == r.ma10
      && r'.ma20 == r.ma20 && r'.volChg == r.volChg && r'.volatility == r.volatility
      && r'.dayOfWeek == r.dayOfWeek && r'.month == r.month && r'.day == r.day
      && r'.isMonthStart == r.isMonthStart && r'.isMonthEnd == r.isMonthEnd
  {
    var cs, cs' := Closes(bars), Closes(bars[..m]);
    assert cs' == cs[..m];
    assert Volumes(bars[..m]) == Volumes(bars)[..m];
    forall k | 1 <= k <= i + 1 ensures Window(cs', i, k) == Window(cs, i, k) {
    }
  }

  // ---------------------------------------------------------------------
  // What survives `dropna`

  /** Only rows 19 .. n-2 can be complete: the 20-bar average needs 19
      earlier bars and the target needs a later one. */
  lemma CompleteRange(bars: seq<Bar>, ind: Indicators, i: nat)
    requires i < |bars| && Complete(RowAt(bars, ind, i))
    ensures 19 <= i < |bars| - 1
  {
  }

  /** Over n bars at most n - 20 rows are complete, and none for 20 bars or fewer. */
  lemma DropIncompleteLength(bars: seq<Bar>, ind: Indicators)
    ensures |DropIncomplete(bars, ind)| <= if |bars| >= 20 then |bars| - 20 else 0
  {
    var f := Frame(bars, ind);
    forall i | 0 <= i < |f| && Complete(f[i]) ensures 19 <= i < |f| - 1 {
      CompleteRange(bars, ind, i);
    }
    if |f| >= 20 {
      FilterWithin(f, Complete, 19, |f| - 1);
    } else {
      FilterWithin(f, Complete, 0, 0);
    }
  }

  /** Every complete row is kept. */
  lemma DropIncompleteKeeps(bars: seq<Bar>, ind: Indicators, i: nat)
    requires i < |bars| && Complete(RowAt(bars, ind, i))
    ensures RowAt(bars, ind, i) in DropIncomplete(bars, ind)
  {
    var f := Frame(bars, ind);
    assert f[i] == RowAt(bars, ind, i);
  }

  /** Every kept row is a complete row i, with 19 <= i < n-1, carrying bar i
      and the next bar's close as target. */
  lemma DropIncompleteOrigin(bars: seq<Bar>, ind: Indicators, r: FeatureRow)
    requires r in DropIncomplete(bars, ind)
    ensures Complete(r)
    ensures exists i :: (19 <= i < |bars| - 1 && r == RowAt(bars, ind, i)
      && r.bar == bars[i] && r.target == Num(bars[i + 1].close))
  {
    var f := Frame(bars, ind);
    var i :| 0 <= i < |f| && f[i] == r;
    assert r == RowAt(bars, ind, i);
    CompleteRange(bars, ind, i);
  }

  /** Bars in date order give rows in date order. */
  lemma DropIncompleteSorted(bars: seq<Bar>, ind: Indicators)
    requires SortedBy(bars, BarDate)
    ensures SortedBy(DropIncomplete(bars, ind), RowDate)
  {
    var f := Frame(bars, ind);
    assert SortedBy(f, RowDate) by {
      forall i, j | 0 <= i < j < |f| ensures RowDate(f[i]) <= RowDate(f[j]) {
        assert f[i].bar == bars[i] && f[j].bar == bars[j];
      }
    }
    FilterSorted(f, Complete, RowDate);
  }

  /** The output holds exactly the complete rows of the frame built over the
      date-sorted bars, each with its bar's own columns and the next bar's
      close as target. */
  lemma OutputRows(bars: seq<Bar>, ind: Indicators)
    ensures var sorted := SortByKey(bars, BarDate);
      var out := ComputeFeatures(bars, ind);
      && (forall i :: 0 <= i < |sorted| && Complete(RowAt(sorted, ind, i)) ==>
            RowAt(sorted, ind, i) in out)
      && (forall r :: r in out ==>
            Complete(r) && exists i :: (19 <= i < |sorted| - 1 && r == RowAt(sorted, ind, i)
              && r.bar == sorted[i] && r.target == Num(sorted[i + 1].close)))
  {
    var sorted := SortByKey(bars, BarDate);
    forall i | 0 <= i < |sorted| && Complete(RowAt(sorted, ind, i))
      ensures RowAt(sorted, ind, i) in DropIncomplete(sorted, ind)
    {
      DropIncompleteKeeps(sorted, ind, i);
    }
    forall r | r in DropIncomplete(sorted, ind)
      ensures Complete(r) && exists i :: (19 <= i < |sorted| - 1 && r == RowAt(sorted, ind, i)
                && r.bar == sorted[i] && r.target == Num(sorted[i + 1].close))
    {
      DropIncompleteOrigin(sorted, ind, r);
    }
  }

  /** Every output row carries one of the input bars unchanged. */
  lemma OutputBars(bars: seq<Bar>, ind: Indicators, r: FeatureRow)
    requires r in ComputeFeatures(bars, ind)
    ensures r.bar in bars
  {
    var sorted := SortByKey(bars, BarDate);
    DropIncompleteOrigin(sorted, ind, r);
    SortedMembers(bars, BarDate, r.bar);
  }

  /** The output is in ascending date order. */
  lemma OutputSorted(bars: seq<Bar>, ind: Indicators)
    ensures SortedBy(ComputeFeatures(bars, ind), RowDate)
  {
    SortByKeySorted(bars, BarDate);
    DropIncompleteSorted(SortByKey(bars, BarDate), ind);
  }
}
