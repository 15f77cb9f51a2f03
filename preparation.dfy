/** Assembly of the training set: every `.csv` file of the data directory
    gives the bars of one ticker, named by the file name up to its first
    underscore; each file's bars are deduplicated, featurised, and the
    resulting frames are concatenated in directory-listing order. */
module Preparation {
  import opened Wrappers
  import opened Seqs
  import opened Features
  import Calendar

  /** A row of a raw per-ticker file, before the ticker column is set. */
  datatype RawBar = RawBar(date: Calendar.Day, open: real, high: real, low: real,
                           close: real, volume: real)

  /** A directory entry: its name, and its rows when reading the file and
      selecting the required columns succeeds (None when that raised). */
  datatype SourceFile = SourceFile(name: string, rows: Option<seq<RawBar>>)

  predicate EndsWith(s: string, suffix: string) {
    |suffix| <= |s| && s[|s| - |suffix|..] == suffix
  }

  /** `name.split('_')[0]`: the longest prefix of the name without an underscore. */
  function TickerOf(name: string): (t: string)
    ensures t <= name
    ensures '_' !in t
    ensures |t| < |name| ==> name[|t|] == '_'
  {
    if name == [] || name[0] == '_' then []
    else [name[0]] + TickerOf(name[1..])
  }

  /** A file named `<ticker>_<anything>` yields `<ticker>`. */
  lemma {:induction false} TickerOfJoined(t: string, rest: string)
    requires '_' !in t
    ensures TickerOf(t + "_" + rest) == t
  {
    if t == [] {
      assert t + "_" + rest == ['_'] + rest;
    } else {
      assert (t + "_" + rest)[1..] == t[1..] + "_" + rest;
      TickerOfJoined(t[1..], rest);
    }
  }

  /** A name without an underscore is its own ticker, extension included:
      `AAPL.csv` gives the ticker `AAPL.csv`. */
  lemma TickerOfPlain(name: string)
    requires '_' !in name
    ensures TickerOf(name) == name
  {
  }

  /** The six columns of a bar that are read from its file. */
  function Raw(b: Bar): RawBar {
    RawBar(b.date, b.open, b.high, b.low, b.close, b.volume)
  }

  /** `df["ticker"] = ticker` on the rows read from a file: row i keeps the
      six columns of raw row i and gets the ticker. */
  function WithTicker(rows: seq<RawBar>, t: string): (bars: seq<Bar>)
    ensures |bars| == |rows|
    ensures forall i :: 0 <= i < |bars| ==> Raw(bars[i]) == rows[i] && bars[i].ticker == t
  {
    seq(|rows|, i requires 0 <= i < |rows| =>
      Bar(rows[i].date, rows[i].open, rows[i].high, rows[i].low,
          rows[i].close, rows[i].volume, t))
  }

  /** `drop_duplicates()`: keeps one copy of every row, comparing all
      seven columns. */
  function DropDuplicates(bars: seq<Bar>): (r: seq<Bar>)
    ensures |r| <= |bars|
    ensures forall b :: b in r <==> b in bars
    ensures forall i, j :: 0 <= i < j < |r| ==> r[i] != r[j]
  {
    if bars == [] then []
    else
      var init, last := bars[..|bars| - 1], bars[|bars| - 1];
      assert bars == init + [last];
      var kept := DropDuplicates(init);
      if last in init then kept else kept + [last]
  }

  /** A frame without duplicate rows is left as it is. */
  lemma {:induction false} DropDuplicatesDistinct(bars: seq<Bar>)
    requires forall i, j :: 0 <= i < j < |bars| ==> bars[i] != bars[j]
    ensures DropDuplicates(bars) == bars
  {
    if bars != [] {
      var init, last := bars[..|bars| - 1], bars[|bars| - 1];
      DropDuplicatesDistinct(init);
      assert bars == init + [last];
      assert last !in init by {
        forall j | 0 <= j < |init| ensures init[j] != last {
          assert init[j] == bars[j];
        }
      }
    }
  }

  /** Whether a directory entry contributes a frame. */
  predicate Eligible(f: SourceFile) {
    EndsWith(f.name, ".csv") && f.rows.Some?
  }

  /** The loop body's work on one `.csv` file. Every row it yields is
      complete, carries the ticker parsed from the file name and the six
      columns of one of the file's rows; a file of 20 rows or fewer yields
      nothing. */
  function ProcessFile(name: string, rows: seq<RawBar>, ind: Indicators): (out: seq<FeatureRow>)
    ensures |out| <= if |rows| >= 20 then |rows| - 20 else 0
    ensures forall r :: r in out ==> Complete(r) && r.bar.ticker == TickerOf(name) && Raw(r.bar) in rows
  {
    var tagged := WithTicker(rows, TickerOf(name));
    var bars := DropDuplicates(tagged);
    assert forall r :: r in ComputeFeatures(bars, ind) ==>
        r.bar.ticker == TickerOf(name) && Raw(r.bar) in rows by {
      forall r | r in ComputeFeatures(bars, ind)
        ensures r.bar.ticker == TickerOf(name) && Raw(r.bar) in rows
      {
        OutputBars(bars, ind, r);
        var i :| 0 <= i < |tagged| && tagged[i] == r.bar;
      }
    }
    ComputeFeatures(bars, ind)
  }

  /** The list `combined` after the loop has visited `files`: at most one
      frame per entry. */
  function Frames(files: seq<SourceFile>, ind: Indicators): (frames: seq<seq<FeatureRow>>)
    ensures |frames| <= |files|
  {
    if files == [] then []
    else
      var f := files[|files| - 1];
      Frames(files[..|files| - 1], ind)
        + if Eligible(f) then [ProcessFile(f.name, f.rows.value, ind)] else []
  }

  /** What is written as the training set: nothing when no frame was
      collected, which is exactly when no `.csv` file could be read, else
      the concatenation of the frames. */
  function Collated(files: seq<SourceFile>, ind: Indicators): (written: Option<seq<FeatureRow>>)
    ensures written.None? <==> forall k :: 0 <= k < |files| ==> !Eligible(files[k])
  {
    FramesEmpty(files, ind);
    var frames := Frames(files, ind);
    if frames == [] then None else Some(Concat(frames))
  }

  /** `prepare_dataset`, over an explicit directory listing. */
  method PrepareDataset(files: seq<SourceFile>, ind: Indicators) returns (written: Option<seq<FeatureRow>>)
    ensures written == Collated(files, ind)
  {
    var combined: seq<seq<FeatureRow>> := [];
    for k := 0 to |files|
      invariant combined == Frames(files[..k], ind)
    {
      var f := files[k];
      assert files[..k + 1][..k] == files[..k] && files[..k + 1][k] == f;
      assert Frames(files[..k + 1], ind) == Frames(files[..k], ind)
        + if Eligible(f) then [ProcessFile(f.name, f.rows.value, ind)] else [];
      if EndsWith(f.name, ".csv") {
        match f.rows {
          case Some(rows) =>
            var df := ProcessFile(f.name, rows, ind);
            combined := combined + [df];
          case None =>
        }
      }
    }
    assert files[..|files|] == files;
    if combined != [] {
      written := Some(Concat(combined));
    } else {
      written := None;
    }
  }

  // ---------------------------------------------------------------------
  // Properties of the collated training set

  /** The list of frames is empty exactly when no file is eligible. */
  lemma {:induction false} FramesEmpty(files: seq<SourceFile>, ind: Indicators)
    ensures Frames(files, ind) == [] <==> forall k :: 0 <= k < |files| ==> !Eligible(files[k])
  {
    if files != [] {
      var init := files[..|files| - 1];
      FramesEmpty(init, ind);
      if Frames(files, ind) == [] {
        forall k | 0 <= k < |files| ensures !Eligible(files[k]) {
          if k < |init| {
            assert files[k] == init[k];
          }
        }
      }
    }
  }

  /** Each collected frame is the frame of an eligible file. */
  lemma {:induction false} FramesFromFiles(files: seq<SourceFile>, ind: Indicators, j: nat)
    requires j < |Frames(files, ind)|
    ensures exists k :: (0 <= k < |files| && Eligible(files[k])
      && Frames(files, ind)[j] == ProcessFile(files[k].name, files[k].rows.value, ind))
  {
    var init, f := files[..|files| - 1], files[|files| - 1];
    var frames := Frames(files, ind);
    if j < |Frames(init, ind)| {
      FramesFromFiles(init, ind, j);
      var k :| 0 <= k < |init| && Eligible(init[k])
        && Frames(init, ind)[j] == ProcessFile(init[k].name, init[k].rows.value, ind);
      assert files[k] == init[k];
    } else {
      assert frames[j] == ProcessFile(f.name, f.rows.value, ind);
    }
  }

  /** The collected frames are those of the eligible entries, one each, in
      listing order. */
  lemma {:induction false} FramesInOrder(files: seq<SourceFile>, ind: Indicators)
    ensures var el := Filter(files, Eligible);
      && |Frames(files, ind)| == |el|
      && forall j :: 0 <= j < |el| ==>
           Eligible(el[j]) && Frames(files, ind)[j] == ProcessFile(el[j].name, el[j].rows.value, ind)
  {
    if files != [] {
      var init, f := files[..|files| - 1], files[|files| - 1];
      FramesInOrder(init, ind);
      assert files == init + [f];
      FilterSnoc(init, f, Eligible);
      var el, el0 := Filter(files, Eligible), Filter(init, Eligible);
      var frames, frames0 := Frames(files, ind), Frames(init, ind);
      forall j | 0 <= j < |el|
        ensures Eligible(el[j]) && frames[j] == ProcessFile(el[j].name, el[j].rows.value, ind)
      {
        if j < |el0| {
          assert el[j] == el0[j] && frames[j] == frames0[j];
        } else {
          assert el[j] == f;
        }
      }
    }
  }

  /** Every eligible entry contributes its frame. */
  lemma {:induction false} FramesOfEligible(files: seq<SourceFile>, ind: Indicators, k: nat)
    requires k < |files| && Eligible(files[k])
    ensures ProcessFile(files[k].name, files[k].rows.value, ind) in Frames(files, ind)
  {
    var init := files[..|files| - 1];
    if k < |files| - 1 {
      assert files[k] == init[k];
      FramesOfEligible(init, ind, k);
    }
  }

  /** Every row an eligible file yields is written to the training set. */
  lemma CollatedKeeps(files: seq<SourceFile>, ind: Indicators, k: nat, r: FeatureRow)
    requires k < |files| && Eligible(files[k])
    requires r in ProcessFile(files[k].name, files[k].rows.value, ind)
    ensures Collated(files, ind).Some? && r in Collated(files, ind).value
  {
    FramesOfEligible(files, ind, k);
    var frames := Frames(files, ind);
    var j :| 0 <= j < |frames| && frames[j] == ProcessFile(files[k].name, files[k].rows.value, ind);
  }

  /** Every row of the training set is a complete row whose ticker is the
      name of an eligible `.csv` file up to its first underscore, and whose
      date, prices and volume are those of a row of that file. */
  lemma CollatedRows(files: seq<SourceFile>, ind: Indicators, r: FeatureRow)
    requires Collated(files, ind).Some? && r in Collated(files, ind).value
    ensures Complete(r)
    ensures exists k :: (0 <= k < |files| && Eligible(files[k])
      && r.bar.ticker == TickerOf(files[k].name) && Raw(r.bar) in files[k].rows.value)
  {
    var frames := Frames(files, ind);
    var i :| 0 <= i < |Concat(frames)| && Concat(frames)[i] == r;
    var j :| 0 <= j < |frames| && r in frames[j];
    FramesFromFiles(files, ind, j);
    var k :| 0 <= k < |files| && Eligible(files[k])
      && frames[j] == ProcessFile(files[k].name, files[k].rows.value, ind);
  }
}
