/** How the two stages meet: the training set written by the preparation
    step is the dataset the prediction service reads. */
module EndToEnd {
  import opened Wrappers
  import opened Features
  import opened Preparation
  import opened Serving

  /** When every data file is named without an underscore (as `AAPL.csv`),
      each stored ticker keeps the `.csv` extension, and since requests are
      upper-cased before the exact comparison, no request is ever answered. */
  lemma UnderscorelessNamesNeverServed(files: seq<SourceFile>, ind: Indicators,
                                       data: seq<FeatureRow>, req: Request,
                                       model: Model, parse: DateParser)
    requires Collated(files, ind) == Some(data)
    requires forall k :: 0 <= k < |files| && Eligible(files[k]) ==> '_' !in files[k].name
    ensures !Home(req, data, model, parse).Success?
  {
    forall i | 0 <= i < |data|
      ensures HasLower(data[i].bar.ticker)
    {
      CollatedRows(files, ind, data[i]);
      var k :| 0 <= k < |files| && Eligible(files[k]) && data[i].bar.ticker == TickerOf(files[k].name);
      var name := files[k].name;
      TickerOfPlain(name);
      assert name[|name| - 3] == name[|name| - 4..][1] == 'c';
      assert IsLower(data[i].bar.ticker[|name| - 3]);
    }
    LowerCaseTickerUnreachable(req, data, model, parse);
  }
}
