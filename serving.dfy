/** The prediction service: given a ticker and an optional as-of date, it
    picks one row of the collated training set, feeds its nine features to
    the trained model and labels the prediction Up or Down against that
    row's close. The dataset and the model are loaded once and only read;
    here they are parameters. */
module Serving {
  import opened Wrappers
  import opened Seqs
  import opened Features
  import Calendar

  /** The fields of a POST: `ticker` ("" when absent) and `date` (None when absent). */
  datatype Request = Request(ticker: string, date: Option<string>)

  datatype Direction = Up | Down

  /** Every way a request can fail; each is reported as a single message. */
  datatype Failure =
    | MissingTicker
    | UnknownTicker(ticker: string)
    | InvalidDate(message: string)
    | NoDataOnOrBefore(text: string, ticker: string)
    | ModelError(message: string)

  /** A successful answer: the normalised ticker, the reported date, the
      row the prediction was made from, its close, the prediction and the
      direction. */
  datatype Prediction = Prediction(ticker: string, date: Calendar.Day, base: FeatureRow,
                                   lastClose: real, predicted: real, status: Direction)

  /** The trained regressor: the price predicted from a feature vector, or
      the message of the exception it raises. */
  type Model = seq<Cell> -> Result<real, string>

  /** `pd.to_datetime` on the date text: a day, or the message of the exception it raises. */
  type DateParser = string -> Result<Calendar.Day, string>

  /** The text shown for a failure: the ticker errors end with the ticker
      they concern, and exception messages are shown as they are. */
  function Message(e: Failure): (m: string)
    ensures e.UnknownTicker? || e.NoDataOnOrBefore? ==>
      |e.ticker| <= |m| && m[|m| - |e.ticker|..] == e.ticker
    ensures e.InvalidDate? || e.ModelError? ==> m == e.message
  {
    match e
    case MissingTicker => "Ticker is required."
    case UnknownTicker(t) => "No data found for ticker: " + t
    case InvalidDate(m) => m
    case NoDataOnOrBefore(text, t) => "No data available on or before " + text + " for ticker " + t
    case ModelError(m) => m
  }

  predicate IsLower(c: char) {
    'a' <= c <= 'z'
  }

  function UpperChar(c: char): char {
    if IsLower(c) then (c as int - 32) as char else c
  }

  /** `str.upper()` on ASCII text. */
  function Upper(s: string): (u: string)
    ensures |u| == |s|
    ensures forall i :: 0 <= i < |u| ==> !IsLower(u[i])
    ensures forall i :: 0 <= i < |s| && !IsLower(s[i]) ==> u[i] == s[i]
    ensures forall i :: 0 <= i < |s| && IsLower(s[i]) ==> u[i] as int + 32 == s[i] as int
  {
    seq(|s|, i requires 0 <= i < |s| => UpperChar(s[i]))
  }

  /** `FEATURES`: the model's inputs, in this order. */
  function FeatureVector(r: FeatureRow): (v: seq<Cell>)
    ensures |v| == 9
    ensures Complete(r) ==> forall i :: 0 <= i < |v| ==> Defined(v[i])
  {
    [r.ret, r.ma5, r.ma10, r.ma20, r.volChg, r.volatility, r.rsi, r.macd, r.momentum]
  }

  /** The ticker's rows, sorted by date. */
  function TickerRows(data: seq<FeatureRow>, t: string): (df: seq<FeatureRow>)
    ensures SortedBy(df, RowDate)
    ensures forall r :: r in df <==> r in data && r.bar.ticker == t
  {
    var rows := Filter(data, (r: FeatureRow) => r.bar.ticker == t);
    SortByKeySorted(rows, RowDate);
    assert forall r :: r in SortByKey(rows, RowDate) <==> r in rows by {
      forall r ensures r in SortByKey(rows, RowDate) <==> r in rows {
        SortedMembers(rows, RowDate, r);
      }
    }
    SortByKey(rows, RowDate)
  }

  /** The rows dated on or before `asOf`, in their order. */
  function OnOrBefore(df: seq<FeatureRow>, asOf: Calendar.Day): (before: seq<FeatureRow>)
    ensures forall r :: r in before <==> r in df && r.bar.date <= asOf
  {
    Filter(df, (r: FeatureRow) => r.bar.date <= asOf)
  }

  /** `df["date"].max()`. */
  function LatestDate(df: seq<FeatureRow>): (d: Calendar.Day)
    requires df != []
    ensures exists i :: 0 <= i < |df| && df[i].bar.date == d
    ensures forall i :: 0 <= i < |df| ==> df[i].bar.date <= d
  {
    if |df| == 1 then df[0].bar.date
    else
      var rest := LatestDate(df[1..]);
      if df[0].bar.date >= rest then df[0].bar.date else rest
  }

  /** The row whose date is `asOf` when there is one (the first of them),
      else the last row. */
  function BaseRow(df: seq<FeatureRow>, asOf: Calendar.Day): (b: FeatureRow)
    requires df != []
    ensures b in df
    ensures (exists i :: 0 <= i < |df| && df[i].bar.date == asOf) ==> b.bar.date == asOf
  {
    var exact := Filter(df, (r: FeatureRow) => r.bar.date == asOf);
    assert forall i :: 0 <= i < |df| && df[i].bar.date == asOf ==> df[i] in exact;
    if exact != [] then
      assert exact[0] in exact;
      exact[0]
    else df[|df| - 1]
  }

  /** Prediction and labelling from the resolved rows. */
  function Respond(ticker: string, df: seq<FeatureRow>, asOf: Calendar.Day, model: Model)
    : (r: Result<Prediction, Failure>)
    requires df != []
    ensures r.Failure? ==> r.error.ModelError?
  {
    var base := BaseRow(df, asOf);
    var lastClose := base.bar.close;
    match model(FeatureVector(base))
    case Failure(m) => Failure(ModelError(m))
    case Success(price) =>
      Success(Prediction(ticker, asOf, base, lastClose, price,
                         if price > lastClose then Up else Down))
  }

  /** Whether the request carries a non-empty date. */
  predicate DateGiven(req: Request) {
    req.date.Some? && req.date.value != []
  }

  /** The POST branch of the page handler. An answer, and every ticker
      error, names the upper-cased ticker; an answer is Up exactly when the
      prediction is strictly above the last close. */
  function Home(req: Request, data: seq<FeatureRow>, model: Model, parse: DateParser)
    : (r: Result<Prediction, Failure>)
    ensures r.Success? ==> r.value.ticker == Upper(req.ticker)
    ensures r.Success? ==> (r.value.status == Up <==> r.value.predicted > r.value.lastClose)
    ensures r.Failure? && (r.error.UnknownTicker? || r.error.NoDataOnOrBefore?) ==>
      r.error.ticker == Upper(req.ticker)
  {
    var ticker := Upper(req.ticker);
    if ticker == [] then Failure(MissingTicker)
    else
      var df := TickerRows(data, ticker);
      if df == [] then Failure(UnknownTicker(ticker))
      else if DateGiven(req) then
        match parse(req.date.value)
        case Failure(m) => Failure(InvalidDate(m))
        case Success(asOf) =>
          var before := OnOrBefore(df, asOf);
          if before == [] then Failure(NoDataOnOrBefore(req.date.value, ticker))
          else Respond(ticker, before, asOf, model)
      else Respond(ticker, df, LatestDate(df), model)
  }

  // ---------------------------------------------------------------------
  // Properties of the handler

  /** Whether some stored row belongs to ticker t. */
  predicate HasTicker(data: seq<FeatureRow>, t: string) {
    exists i :: 0 <= i < |data| && data[i].bar.ticker == t
  }

  /** On sorted rows that are all on or before `asOf`, the base row has the
      greatest date. */
  lemma BaseRowLatest(df: seq<FeatureRow>, asOf: Calendar.Day)
    requires df != [] && SortedBy(df, RowDate)
    requires forall i :: 0 <= i < |df| ==> df[i].bar.date <= asOf
    ensures forall i :: 0 <= i < |df| ==> df[i].bar.date <= BaseRow(df, asOf).bar.date
  {
    var exact := Filter(df, (r: FeatureRow) => r.bar.date == asOf);
    if exact == [] {
      forall i | 0 <= i < |df| ensures df[i].bar.date <= df[|df| - 1].bar.date {
        if i < |df| - 1 {
          assert RowDate(df[i]) <= RowDate(df[|df| - 1]);
        }
      }
    }
  }

  /** An empty ticker, and only that, is refused with "Ticker is required.". */
  lemma HomeMissingTicker(req: Request, data: seq<FeatureRow>, model: Model, parse: DateParser)
    ensures Home(req, data, model, parse) == Failure(MissingTicker) <==> req.ticker == []
  {
  }

  /** A non-empty ticker that, once upper-cased, equals no stored ticker is
      refused as unknown, and that is the only way to get this error. */
  lemma HomeUnknownTicker(req: Request, data: seq<FeatureRow>, model: Model, parse: DateParser)
    ensures var r := Home(req, data, model, parse);
      r.Failure? && r.error.UnknownTicker? <==> req.ticker != [] && !HasTicker(data, Upper(req.ticker))
    ensures var r := Home(req, data, model, parse);
      r.Failure? && r.error.UnknownTicker? ==> r.error.ticker == Upper(req.ticker)
  {
    var t := Upper(req.ticker);
    var df := TickerRows(data, t);
    if HasTicker(data, t) {
      var i :| 0 <= i < |data| && data[i].bar.ticker == t;
      assert data[i] in df;
    }
  }

  /** With a date, the request fails for lack of data exactly when every
      row of the ticker is dated after it. */
  lemma HomeNoDataOnOrBefore(req: Request, data: seq<FeatureRow>, model: Model, parse: DateParser,
                             asOf: Calendar.Day)
    requires req.ticker != [] && HasTicker(data, Upper(req.ticker))
    requires DateGiven(req) && parse(req.date.value) == Success(asOf)
    ensures Home(req, data, model, parse) == Failure(NoDataOnOrBefore(req.date.value, Upper(req.ticker)))
      <==> forall i :: 0 <= i < |data| && data[i].bar.ticker == Upper(req.ticker) ==> data[i].bar.date > asOf
  {
    var t := Upper(req.ticker);
    var df := TickerRows(data, t);
    var i :| 0 <= i < |data| && data[i].bar.ticker == t;
    assert data[i] in df;
    var before := OnOrBefore(df, asOf);
    assert Home(req, data, model, parse) == Failure(NoDataOnOrBefore(req.date.value, t)) <==> before == [];
    if before == [] {
      forall j | 0 <= j < |data| && data[j].bar.ticker == t ensures data[j].bar.date > asOf {
        assert data[j] in df;
      }
    } else {
      assert before[0] in df && before[0].bar.date <= asOf;
    }
  }

  /** Every answer is about a stored row of the requested ticker: its close
      is the reported last close, its nine features are what the model was
      given, and the label is Up exactly when the prediction is strictly
      above that close. */
  lemma HomeAnswer(req: Request, data: seq<FeatureRow>, model: Model, parse: DateParser)
    requires Home(req, data, model, parse).Success?
    ensures var p := Home(req, data, model, parse).value;
      && p.ticker == Upper(req.ticker) != []
      && p.base in data && p.base.bar.ticker == p.ticker
      && p.lastClose == p.base.bar.close
      && model(FeatureVector(p.base)) == Success(p.predicted)
      && (p.status == Up <==> p.predicted > p.lastClose)
  {
    var t := Upper(req.ticker);
    var df := TickerRows(data, t);
    var p := Home(req, data, model, parse).value;
    if DateGiven(req) {
      var asOf := parse(req.date.value).value;
      var before := OnOrBefore(df, asOf);
      assert p.base in before;
    }
    assert p.base in df;
  }

  /** With a date, the answer reports that date and is made from the
      ticker's latest row on or before it: the row of that very date when
      there is one, else the most recent earlier row. */
  lemma HomeAsOf(req: Request, data: seq<FeatureRow>, model: Model, parse: DateParser,
                 asOf: Calendar.Day)
    requires DateGiven(req) && parse(req.date.value) == Success(asOf)
    requires Home(req, data, model, parse).Success?
    ensures var p := Home(req, data, model, parse).value;
      && p.date == asOf
      && p.base.bar.date <= asOf
      && forall i :: 0 <= i < |data| && data[i].bar.ticker == p.ticker && data[i].bar.date <= asOf
           ==> data[i].bar.date <= p.base.bar.date
  {
    var t := Upper(req.ticker);
    var df := TickerRows(data, t);
    var before := OnOrBefore(df, asOf);
    var p := Home(req, data, model, parse).value;
    FilterSorted(df, (r: FeatureRow) => r.bar.date <= asOf, RowDate);
    BaseRowLatest(before, asOf);
    assert p.base in before;
    forall i | 0 <= i < |data| && data[i].bar.ticker == t && data[i].bar.date <= asOf
      ensures data[i].bar.date <= p.base.bar.date
    {
      assert data[i] in df;
      assert data[i] in before;
    }
  }

  /** Without a date, the answer reports the ticker's latest date and is
      made from a row of that date. */
  lemma HomeLatest(req: Request, data: seq<FeatureRow>, model: Model, parse: DateParser)
    requires !DateGiven(req)
    requires Home(req, data, model, parse).Success?
    ensures var p := Home(req, data, model, parse).value;
      && p.base.bar.date == p.date
      && forall i :: 0 <= i < |data| && data[i].bar.ticker == p.ticker ==> data[i].bar.date <= p.date
  {
    var t := Upper(req.ticker);
    var df := TickerRows(data, t);
    forall i | 0 <= i < |data| && data[i].bar.ticker == t
      ensures data[i].bar.date <= LatestDate(df)
    {
      assert data[i] in df;
    }
  }

  predicate HasLower(s: string) {
    exists j :: 0 <= j < |s| && IsLower(s[j])
  }

  /** A stored ticker holding a lower-case letter is never served: the
      requested ticker is upper-cased and then compared exactly. */
  lemma LowerCaseTickerUnreachable(req: Request, data: seq<FeatureRow>, model: Model,
                                   parse: DateParser)
    requires forall i :: 0 <= i < |data| ==> HasLower(data[i].bar.ticker)
    ensures !Home(req, data, model, parse).Success?
  {
    if Home(req, data, model, parse).Success? {
      HomeAnswer(req, data, model, parse);
      assert false;
    }
  }

  /** Among rows of one ticker dated 2024-01-01, 2024-01-03 and 2024-01-05
      (days 738885, 738887 and 738889), the latest row on or before
      2024-01-04 (day 738888) is the 2024-01-03 row. */
  lemma FallbackRow(data: seq<FeatureRow>, t: string, b: FeatureRow)
    requires |data| == 3 && forall i :: 0 <= i < 3 ==> data[i].bar.ticker == t
    requires data[0].bar.date == 738885 && data[1].bar.date == 738887 && data[2].bar.date == 738889
    requires b in data && b.bar.date <= 738888
    requires forall i :: 0 <= i < |data| && data[i].bar.ticker == t && data[i].bar.date <= 738888
               ==> data[i].bar.date <= b.bar.date
    ensures b == data[1]
  {
    assert data[1].bar.date <= b.bar.date;
  }

  /** Rows dated 2024-01-01, 2024-01-03 and 2024-01-05; a request for
      2024-01-04 is answered from the 2024-01-03 row, and the date it
      reports is 2024-01-04. */
  lemma DateFallbackExample(data: seq<FeatureRow>, model: Model, parse: DateParser, req: Request)
    requires |data| == 3 && forall i :: 0 <= i < 3 ==> data[i].bar.ticker == "T"
    requires data[0].bar.date == 738885 && data[1].bar.date == 738887 && data[2].bar.date == 738889
    requires req == Request("t", Some("2024-01-04")) && parse("2024-01-04") == Success(738888)
    requires Home(req, data, model, parse).Success?
    ensures var p := Home(req, data, model, parse).value;
      p.base == data[1] && p.date == 738888 && p.ticker == "T"
  {
    assert Upper(req.ticker) == "T";
    HomeAnswer(req, data, model, parse);
    HomeAsOf(req, data, model, parse, 738888);
    var p := Home(req, data, model, parse).value;
    FallbackRow(data, "T", p.base);
  }
}
