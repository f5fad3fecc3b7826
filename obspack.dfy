/** One call of make_ObsPack_Input_netcdfs (gcpy/obspack_fill.py, lines 12-212):
    one file per day segment of the window, each holding equal-length columns
    over its sample instants, and the list of the paths written. */
module ObsPack {
  import opened Errors
  import opened Text
  import Calendar
  import opened Segments
  import opened Sampling
  import opened ObsIds

  /** The arguments of a call. The window ends come both as the text given ('YYYYMMDD HH:MM:SS'),
      which the identifier prefix uses, and as the instants that text denotes. */
  datatype Config = Config(
    siteName: string, lat: real, lon: real, alt: real,
    dateStart: string, dateEnd: string, start: int, end: int,
    sampleFreq: int, strategy: int, outPath: string)

  /** The variables of one file, each a column over the observations. */
  datatype Dataset = Dataset(
    latitude: seq<real>, longitude: seq<real>, altitude: seq<real>,
    timeComponents: seq<seq<int>>, obspackId: seq<string>, samplingStrategy: seq<int>)

  /** One netCDF file handed to the writer: its path and its contents. */
  datatype FileWrite = FileWrite(path: string, data: Dataset)

  /** What a call returns (the list of paths, or the error it raises) and the files it wrote first. */
  datatype Run = Run(result: Result<seq<string>>, writes: seq<FileWrite>)

  /** np.full(n, v): n copies of v. */
  function Fill<T>(n: nat, v: T): (s: seq<T>)
    ensures |s| == n && forall i :: 0 <= i < n ==> s[i] == v
  {
    seq(n, _ => v)
  }

  function Prefix(cfg: Config): (r: string)
  {
    IdPrefix(cfg.siteName, cfg.dateStart, cfg.dateEnd)
  }

  /** The columns of the file for one segment. The altitude column is filled with the longitude,
      as the source does; the altitude argument is never used. */
  function SegmentDataset(cfg: Config, seg: Segment): (r: Dataset)
    requires cfg.sampleFreq > 0
  {
    var ts := SampleInstants(seg, cfg.sampleFreq);
    var n := |ts|;
    Dataset(Fill(n, cfg.lat), Fill(n, cfg.lon), Fill(n, cfg.lon), TimeComponents(ts),
            seq(n, i requires 0 <= i < n => IdRow(Prefix(cfg), i)), Fill(n, cfg.strategy))
  }

  /** The columns the file was evidently meant to hold: those of SegmentDataset, with the altitude
      column filled with the altitude argument. */
  function IntendedDataset(cfg: Config, seg: Segment): (r: Dataset)
    requires cfg.sampleFreq > 0
  {
    SegmentDataset(cfg, seg).(altitude := Fill(|SampleInstants(seg, cfg.sampleFreq)|, cfg.alt))
  }

  /** Every identifier of the segment's file fits in a row. */
  predicate SegmentFits(cfg: Config, seg: Segment)
    requires cfg.sampleFreq > 0
  {
    AllIdsFit(Prefix(cfg), |SampleInstants(seg, cfg.sampleFreq)|)
  }

  /** A date the timestamp range can reach: a valid date with a four-digit year. */
  predicate NameableDate(d: Calendar.Date) { Calendar.ValidDate(d) && 1600 <= d.year <= 2400 }

  /** The calendar date instant t falls on. */
  function DayDate(t: int): (d: Calendar.Date)
    requires InTimestampRange(t)
    ensures NameableDate(d)
  {
    InstantDay(t);
    DayYearRange(t / 86400);
    Calendar.CivilFromDaysValid(t / 86400);
    Calendar.CivilFromDays(t / 86400)
  }

  /** The date of instant t is day t / 86400 of the epoch. */
  lemma DayDateDays(t: int)
    requires InTimestampRange(t)
    ensures Calendar.DaysFromCivil(DayDate(t)) == t / 86400
  {
    Calendar.CivilFromDaysRoundTrip(t / 86400);
  }

  /** Instants on different days fall on different dates. */
  lemma DayDateDistinct(s: int, t: int)
    requires InTimestampRange(s) && InTimestampRange(t) && s / 86400 != t / 86400
    ensures DayDate(s) != DayDate(t)
  {
    DayDateDays(s);
    DayDateDays(t);
  }

  /** The date as str() of a timestamp writes it before the space: yyyy-mm-dd. */
  function DateText(d: Calendar.Date): (r: string)
    requires NameableDate(d)
  {
    IsoDate(d.year, d.month, d.day)
  }

  /** Different dates are written differently. */
  lemma DateTextInjective(a: Calendar.Date, b: Calendar.Date)
    requires NameableDate(a) && NameableDate(b) && DateText(a) == DateText(b)
    ensures a == b
  {
    IsoDateInjective(a.year, a.month, a.day, b.year, b.month, b.day);
  }

  /** 'obspack_' + sitename + '_freq' + str(samplefreq) + 's.': the part every file name shares. */
  function NameHead(cfg: Config): (r: string)
    requires cfg.sampleFreq > 0
  {
    "obspack_" + cfg.siteName + "_freq" + Decimal(cfg.sampleFreq) + "s."
  }

  /** The file name for a date: the shared head, the date, then '.nc'. */
  function FileName(cfg: Config, d: Calendar.Date): (r: string)
    requires cfg.sampleFreq > 0 && NameableDate(d)
  {
    NameHead(cfg) + DateText(d) + ".nc"
  }

  /** outpath + the file name for a date. */
  function FilePath(cfg: Config, d: Calendar.Date): (r: string)
    requires cfg.sampleFreq > 0 && NameableDate(d)
  {
    cfg.outPath + FileName(cfg, d)
  }

  /** The file written for one segment, named after the date its first instant falls on. */
  function SegmentFile(cfg: Config, seg: Segment): (r: FileWrite)
    requires cfg.sampleFreq > 0 && InTimestampRange(seg.first)
  {
    FileWrite(FilePath(cfg, DayDate(seg.first)), SegmentDataset(cfg, seg))
  }

  /** The number of leading segments whose identifiers all fit: the files written before the
      first row assignment that fails. */
  function LeadingFits(cfg: Config, segs: seq<Segment>): (k: nat)
    requires cfg.sampleFreq > 0
    ensures k <= |segs|
    ensures forall i :: 0 <= i < k ==> SegmentFits(cfg, segs[i])
    ensures k < |segs| ==> !SegmentFits(cfg, segs[k])
  {
    if segs == [] || !SegmentFits(cfg, segs[0]) then 0 else 1 + LeadingFits(cfg, segs[1..])
  }

  predicate AllInRange(segs: seq<Segment>)
  {
    forall i :: 0 <= i < |segs| ==> InTimestampRange(segs[i].first)
  }

  /** The files written for the first k segments, in order. */
  function Files(cfg: Config, segs: seq<Segment>, k: nat): (ws: seq<FileWrite>)
    requires cfg.sampleFreq > 0 && k <= |segs| && AllInRange(segs)
    ensures |ws| == k
  {
    seq(k, i requires 0 <= i < k => SegmentFile(cfg, segs[i]))
  }

  function Paths(ws: seq<FileWrite>): (paths: seq<string>)
    ensures |paths| == |ws|
  {
    seq(|ws|, i requires 0 <= i < |ws| => ws[i].path)
  }

  lemma FilesStep(cfg: Config, segs: seq<Segment>, k: nat)
    requires cfg.sampleFreq > 0 && k < |segs| && AllInRange(segs)
    ensures Files(cfg, segs, k + 1) == Files(cfg, segs, k) + [SegmentFile(cfg, segs[k])]
  {
  }

  lemma PathsStep(ws: seq<FileWrite>, w: FileWrite)
    ensures Paths(ws + [w]) == Paths(ws) + [w.path]
  {
  }

  /** The loop over the segments: the files up to the first whose identifiers do not fit, and the
      list of their paths when every file was written. */
  function Outcome(cfg: Config, segs: seq<Segment>): (r: Run)
    requires cfg.sampleFreq > 0 && AllInRange(segs)
  {
    var k := LeadingFits(cfg, segs);
    if k < |segs| then Run(Failure(IdTooLong), Files(cfg, segs, k))
    else Run(Success(Paths(Files(cfg, segs, k))), Files(cfg, segs, k))
  }

  /** The outcome of a call: the segmentation error before anything is written, or the loop. */
  function Expected(cfg: Config): (r: Run)
    requires cfg.sampleFreq > 0
  {
    match Segmentation(cfg.start, cfg.end)
    case Failure(e) => Run(Failure(e), [])
    case Success(segs) =>
      SegmentsInRange(cfg.start, cfg.end);
      Outcome(cfg, segs)
  }

  /** One pass of the loop body: the sample instants of the segment, their time components, the
      identifier matrix filled row by row, the columns and the path; ok is false when a row of the
      identifier matrix does not fit, which is where the source raises. */
  method BuildFile(cfg: Config, seg: Segment) returns (w: FileWrite, ok: bool)
    requires cfg.sampleFreq > 0 && InTimestampRange(seg.first)
    ensures ok == SegmentFits(cfg, seg)
    ensures ok ==> w == SegmentFile(cfg, seg)
  {
    var dts := SampleInstants(seg, cfg.sampleFreq);
    var timeComponents := TimeComponents(dts);
    var ids;
    ids, ok := FillIds(Prefix(cfg), |dts|);
    var n := |dts|;
    var ds := Dataset(Fill(n, cfg.lat), Fill(n, cfg.lon), Fill(n, cfg.lon), timeComponents,
                      Rows(ids), Fill(n, cfg.strategy));
    w := FileWrite(FilePath(cfg, DayDate(seg.first)), ds);
  }

  /** The date a file is named after is the date in the first row of its time components. */
  lemma FileDateFirstRow(cfg: Config, seg: Segment)
    requires cfg.sampleFreq > 0 && InTimestampRange(seg.first) && seg.first <= seg.last
    ensures var d, row := DayDate(seg.first), SegmentDataset(cfg, seg).timeComponents[0];
      row[0] == d.year && row[1] == d.month && row[2] == d.day
  {
    var ts := SampleInstants(seg, cfg.sampleFreq);
    assert ts[0] == seg.first;
    assert SegmentDataset(cfg, seg).timeComponents[0] == TimeRow(seg.first);
  }

  /** The loop over the segments: builds and writes each segment's file in turn and appends its
      path to the list, stopping at the first file whose identifiers do not fit. */
  method WriteFiles(cfg: Config, segs: seq<Segment>) returns (result: Result<seq<string>>, writes: seq<FileWrite>)
    requires cfg.sampleFreq > 0 && AllInRange(segs)
    ensures Run(result, writes) == Outcome(cfg, segs)
  {
    var allFiles: seq<string> := [];
    writes := [];
    var t := 0;
    while t < |segs|
      invariant 0 <= t <= LeadingFits(cfg, segs)
      invariant writes == Files(cfg, segs, t)
      invariant allFiles == Paths(writes)
    {
      var w, ok := BuildFile(cfg, segs[t]);
      if !ok {
        return Failure(IdTooLong), writes;
      }
      FilesStep(cfg, segs, t);
      PathsStep(writes, w);
      writes := writes + [w];
      allFiles := allFiles + [w.path];
      t := t + 1;
    }
    result := Success(allFiles);
  }

  /** The generator: segments the window, then writes one file per segment. */
  method Generate(cfg: Config) returns (result: Result<seq<string>>, writes: seq<FileWrite>)
    requires cfg.sampleFreq > 0
    ensures Run(result, writes) == Expected(cfg)
  {
    var segmentation := ComputeSegments(cfg.start, cfg.end);
    if segmentation.Failure? {
      return Failure(segmentation.error), [];
    }
    SegmentsInRange(cfg.start, cfg.end);
    result, writes := WriteFiles(cfg, segmentation.value);
  }

  /** When the loop finishes, it has written one file per segment, in order, and returned their paths. */
  lemma OutcomeFiles(cfg: Config, segs: seq<Segment>)
    requires cfg.sampleFreq > 0 && AllInRange(segs) && Outcome(cfg, segs).result.Success?
    ensures var run := Outcome(cfg, segs);
      && |run.result.value| == |run.writes| == |segs|
      && forall i :: 0 <= i < |segs| ==>
           run.writes[i] == SegmentFile(cfg, segs[i]) && run.result.value[i] == run.writes[i].path
  {
  }

  /** The loop over segments on consecutive days: path i is named after the date segment i
      starts on, which is day i after the day of start. */
  lemma OutcomePaths(cfg: Config, segs: seq<Segment>, start: int)
    requires cfg.sampleFreq > 0 && AllInRange(segs) && Outcome(cfg, segs).result.Success?
    requires forall i :: 0 <= i < |segs| ==> segs[i].first / 86400 == start / 86400 + i
    ensures var run := Outcome(cfg, segs);
      && |run.result.value| == |run.writes| == |segs|
      && forall i :: 0 <= i < |segs| ==>
           && run.writes[i].path == run.result.value[i]
           && run.writes[i].data == SegmentDataset(cfg, segs[i])
           && run.result.value[i] == FilePath(cfg, DayDate(segs[i].first))
           && Calendar.DaysFromCivil(DayDate(segs[i].first)) == start / 86400 + i
  {
    OutcomeFiles(cfg, segs);
    forall i | 0 <= i < |segs|
      ensures Calendar.DaysFromCivil(DayDate(segs[i].first)) == start / 86400 + i
    {
      DayDateDays(segs[i].first);
    }
  }

  /** A successful call writes one file per day segment and returns their paths in the order
      written: path i is named after the date segment i starts on, i days after the window start,
      and that date is day i after the start's day, so the list runs day by day. */
  lemma OutputFiles(cfg: Config)
    requires cfg.sampleFreq > 0 && Expected(cfg).result.Success?
    ensures Segmentation(cfg.start, cfg.end).Success?
    ensures var paths, writes, segs := Expected(cfg).result.value, Expected(cfg).writes, Segmentation(cfg.start, cfg.end).value;
      && |paths| == |writes| == |segs| == DayCount(cfg.start, cfg.end)
      && forall i :: 0 <= i < |segs| ==>
           && segs[i].first == cfg.start + i * 86400
           && writes[i].path == paths[i]
           && writes[i].data == SegmentDataset(cfg, segs[i])
           && paths[i] == FilePath(cfg, DayDate(segs[i].first))
           && Calendar.DaysFromCivil(DayDate(segs[i].first)) == cfg.start / 86400 + i
  {
    var segs := Segmentation(cfg.start, cfg.end).value;
    SegmentCount(cfg.start, cfg.end);
    SegmentBounds(cfg.start, cfg.end);
    SegmentDays(cfg.start, cfg.end);
    SegmentsInRange(cfg.start, cfg.end);
    assert Expected(cfg) == Outcome(cfg, segs);
    OutcomePaths(cfg, segs, cfg.start);
  }

  /** p + (h + x + b) == p + (h + y + b) only when x == y. */
  lemma FrameCancel(p: string, h: string, x: string, y: string, b: string)
    requires p + (h + x + b) == p + (h + y + b)
    ensures x == y
  {
    var s, t := p + (h + x + b), p + (h + y + b);
    assert |x| == |y|;
    forall k | 0 <= k < |x|
      ensures x[k] == y[k]
    {
      assert x[k] == s[|p| + |h| + k];
      assert y[k] == t[|p| + |h| + k];
    }
  }

  /** Files of different dates get different paths. */
  lemma FilePathInjective(cfg: Config, a: Calendar.Date, b: Calendar.Date)
    requires cfg.sampleFreq > 0 && NameableDate(a) && NameableDate(b) && a != b
    ensures FilePath(cfg, a) != FilePath(cfg, b)
  {
    if FilePath(cfg, a) == FilePath(cfg, b) {
      FrameCancel(cfg.outPath, NameHead(cfg), DateText(a), DateText(b), ".nc");
      DateTextInjective(a, b);
    }
  }

  /** Paths for pairwise distinct dates are pairwise distinct. */
  lemma DatePathsDistinct(cfg: Config, dates: seq<Calendar.Date>, paths: seq<string>)
    requires cfg.sampleFreq > 0 && |dates| == |paths|
    requires forall i :: 0 <= i < |dates| ==> NameableDate(dates[i])
    requires forall i :: 0 <= i < |paths| ==> paths[i] == FilePath(cfg, dates[i])
    requires forall i, j :: 0 <= i < j < |dates| ==> dates[i] != dates[j]
    ensures forall i, j :: 0 <= i < j < |paths| ==> paths[i] != paths[j]
  {
    forall i, j | 0 <= i < j < |paths|
      ensures paths[i] != paths[j]
    {
      FilePathInjective(cfg, dates[i], dates[j]);
    }
  }

  /** Files named after the start dates of segments on consecutive days have pairwise distinct paths. */
  lemma SegmentPathsDistinct(cfg: Config, segs: seq<Segment>, paths: seq<string>, start: int)
    requires cfg.sampleFreq > 0 && AllInRange(segs) && |paths| == |segs|
    requires forall i :: 0 <= i < |segs| ==> segs[i].first / 86400 == start / 86400 + i
    requires forall i :: 0 <= i < |segs| ==> paths[i] == FilePath(cfg, DayDate(segs[i].first))
    ensures forall i, j :: 0 <= i < j < |paths| ==> paths[i] != paths[j]
  {
    var dates := seq(|segs|, i requires 0 <= i < |segs| => DayDate(segs[i].first));
    forall i, j | 0 <= i < j < |dates|
      ensures dates[i] != dates[j]
    {
      DayDateDistinct(segs[i].first, segs[j].first);
    }
    DatePathsDistinct(cfg, dates, paths);
  }

  /** The returned paths are pairwise distinct. */
  lemma OutputDistinct(cfg: Config)
    requires cfg.sampleFreq > 0 && Expected(cfg).result.Success?
    ensures var paths := Expected(cfg).result.value;
      forall i, j :: 0 <= i < j < |paths| ==> paths[i] != paths[j]
  {
    OutputFiles(cfg);
    var segs := Segmentation(cfg.start, cfg.end).value;
    SegmentDays(cfg.start, cfg.end);
    SegmentsInRange(cfg.start, cfg.end);
    SegmentPathsDistinct(cfg, segs, Expected(cfg).result.value, cfg.start);
  }

  /** When the first file's identifiers fit, so do every file's: no segment has more samples. */
  lemma FirstFitsAll(cfg: Config)
    requires cfg.sampleFreq > 0 && Segmentation(cfg.start, cfg.end).Success?
    ensures var segs := Segmentation(cfg.start, cfg.end).value;
      SegmentFits(cfg, segs[0]) ==> forall i :: 0 <= i < |segs| ==> SegmentFits(cfg, segs[i])
  {
    var segs := Segmentation(cfg.start, cfg.end).value;
    var prefix := Prefix(cfg);
    SamplesPerSegment(cfg.start, cfg.end, cfg.sampleFreq);
    SegmentCount(cfg.start, cfg.end);
    var n0 := |SampleInstants(segs[0], cfg.sampleFreq)|;
    if SegmentFits(cfg, segs[0]) {
      forall i | 0 <= i < |segs|
        ensures SegmentFits(cfg, segs[i])
      {
        var n := |SampleInstants(segs[i], cfg.sampleFreq)|;
        AllIdsFitLast(prefix, n);
        AllIdsFitLast(prefix, n0);
        if n > 0 {
          DecimalLengthMonotone(n - 1, n0 - 1);
        }
      }
    }
  }

  /** A failing call has written nothing: the window errors come before the loop, and a too long
      identifier shows up first in the first file, which has the most samples. */
  lemma FailureWritesNothing(cfg: Config)
    requires cfg.sampleFreq > 0 && Expected(cfg).result.Failure?
    ensures Expected(cfg).writes == []
  {
    if Segmentation(cfg.start, cfg.end).Success? {
      FirstFitsAll(cfg);
    }
  }

  /** The columns of a file: all as long as the segment has samples; latitude, longitude and
      strategy constant; altitude equal to the longitude; one valid time row per sample instant
      that composes back to it; and IdWidth-character identifiers, pairwise distinct, where row i
      depends only on the call and i and is therefore the same in every file. */
  lemma DatasetColumns(cfg: Config, seg: Segment)
    requires cfg.sampleFreq > 0 && SegmentFits(cfg, seg)
    ensures var ds, ts := SegmentDataset(cfg, seg), SampleInstants(seg, cfg.sampleFreq);
      && |ds.latitude| == |ds.longitude| == |ds.altitude| == |ds.samplingStrategy| == |ts|
      && |ds.timeComponents| == |ds.obspackId| == |ts|
      && (forall i :: 0 <= i < |ts| ==> ds.latitude[i] == cfg.lat && ds.longitude[i] == cfg.lon)
      && (forall i :: 0 <= i < |ts| ==> ds.altitude[i] == cfg.lon && ds.samplingStrategy[i] == cfg.strategy)
      && (forall i :: 0 <= i < |ts| ==> ValidRow(ds.timeComponents[i]) && ComposeRow(ds.timeComponents[i]) == ts[i])
      && (forall i :: 0 <= i < |ts| ==> ds.obspackId[i] == IdRow(Prefix(cfg), i) && |ds.obspackId[i]| == IdWidth)
      && (forall i, j :: 0 <= i < j < |ts| ==> ds.obspackId[i] != ds.obspackId[j])
  {
    var ts := SampleInstants(seg, cfg.sampleFreq);
    TimeComponentsRoundTrip(ts);
    forall i | 0 <= i < |ts|
      ensures |IdRow(Prefix(cfg), i)| == IdWidth
    {
      IdRowShape(Prefix(cfg), i);
    }
    forall i, j | 0 <= i < j < |ts|
      ensures IdRow(Prefix(cfg), i) != IdRow(Prefix(cfg), j)
    {
      if IdRow(Prefix(cfg), i) == IdRow(Prefix(cfg), j) {
        IdRowInjective(Prefix(cfg), i, j);
      }
    }
  }

  /** The defect in the altitude column: whenever the altitude and longitude arguments differ, no
      entry of the altitude column holds the altitude given. */
  lemma AltitudeIgnored(cfg: Config, seg: Segment)
    requires cfg.sampleFreq > 0 && cfg.alt != cfg.lon
    ensures cfg.alt !in SegmentDataset(cfg, seg).altitude
  {
  }

  /** The corrected columns: the altitude column holds the altitude given in every row, every other
      column is that of the file as written, and the two datasets agree exactly when the altitude and
      longitude arguments are equal or the segment has no sample. */
  lemma IntendedColumns(cfg: Config, seg: Segment)
    requires cfg.sampleFreq > 0
    ensures var ts, a, w := SampleInstants(seg, cfg.sampleFreq), IntendedDataset(cfg, seg), SegmentDataset(cfg, seg);
      && |a.altitude| == |ts| && (forall i :: 0 <= i < |a.altitude| ==> a.altitude[i] == cfg.alt)
      && a.latitude == w.latitude && a.longitude == w.longitude && a.timeComponents == w.timeComponents
      && a.obspackId == w.obspackId && a.samplingStrategy == w.samplingStrategy
      && (a == w <==> cfg.alt == cfg.lon || |ts| == 0)
  {
    var ts := SampleInstants(seg, cfg.sampleFreq);
    if |ts| > 0 && cfg.alt != cfg.lon {
      assert IntendedDataset(cfg, seg).altitude[0] != SegmentDataset(cfg, seg).altitude[0];
    }
  }

  /** A window of whole days gives files of 86399 / freq + 1 samples each. */
  lemma WholeDaySamples(start: int, end: int, freq: int)
    requires freq > 0 && Segmentation(start, end).Success? && (end - start) % 86400 == 0
    ensures var segs := Segmentation(start, end).value;
      forall i :: 0 <= i < |segs| ==> |SampleInstants(segs[i], freq)| == 86399 / freq + 1
  {
    WholeDayWindow(start, end);
  }

  /** The example call of the documentation: SOAS-Ground, hourly, from 2013-06-01 00:00:00 to
      2013-07-16 00:00:00, gives 45 files of 24 samples each. */
  lemma DocumentedWindow(start: int, end: int)
    requires start == 1370044800 && end == 1373932800
    ensures start == Calendar.DaysFromCivil(Calendar.Date(2013, 6, 1)) * 86400
    ensures end == Calendar.DaysFromCivil(Calendar.Date(2013, 7, 16)) * 86400
    ensures Segmentation(start, end).Success?
    ensures var segs := Segmentation(start, end).value;
      |segs| == 45 && forall i :: 0 <= i < 45 ==> |SampleInstants(segs[i], 3600)| == 24
  {
    SegmentationOutcome(start, end);
    SegmentCount(start, end);
    WholeDaySamples(start, end, 3600);
  }
}
