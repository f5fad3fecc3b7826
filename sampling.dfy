/** The sample instants of one day segment and their calendar components
    (gcpy/obspack_fill.py, lines 96-111): the closed date range from the
    segment start to the segment end at the sampling step, and one row
    (year, month, day, hour, minute, second) per instant. */
module Sampling {
  import Calendar
  import opened Arith
  import opened Segments

  /** first, first + freq, first + 2 freq, ... as long as they do not pass last. */
  function SampleInstants(seg: Segment, freq: int): (r: seq<int>)
    requires freq > 0
  {
    if seg.last < seg.first then [] else seq((seg.last - seg.first) / freq + 1, k => seg.first + k * freq)
  }

  /** The instants start at the segment start, step by freq, stay within the segment, increase
      strictly, and stop only where one more step would pass the segment end. */
  lemma SampleInstantsShape(seg: Segment, freq: int)
    requires freq > 0
    ensures var ts := SampleInstants(seg, freq);
      && (seg.last < seg.first <==> ts == [])
      && (forall k :: 0 <= k < |ts| ==> ts[k] == seg.first + k * freq)
      && (forall k :: 0 <= k < |ts| ==> seg.first <= ts[k] <= seg.last)
      && (forall j, k :: 0 <= j < k < |ts| ==> ts[j] < ts[k])
      && (|ts| > 0 ==> seg.last < ts[|ts| - 1] + freq)
  {
    var ts := SampleInstants(seg, freq);
    if seg.first <= seg.last {
      var q, r := (seg.last - seg.first) / freq, (seg.last - seg.first) % freq;
      assert seg.last - seg.first == q * freq + r;
      forall k | 0 <= k < |ts|
        ensures seg.first <= ts[k] <= seg.last
      {
        MulMonotone(0, k, freq);
        MulMonotone(k, q, freq);
      }
      forall j, k | 0 <= j < k < |ts|
        ensures ts[j] < ts[k]
      {
        MulDistributes(k, j, freq);
        MulAtLeast(k - j, freq);
      }
      assert ts[|ts| - 1] + freq == seg.first + (q + 1) * freq;
    }
  }

  /** An instant is sampled exactly when it lies in the segment a whole number of steps after its start. */
  lemma SampleMembership(seg: Segment, freq: int, t: int)
    requires freq > 0
    ensures t in SampleInstants(seg, freq) <==> seg.first <= t <= seg.last && (t - seg.first) % freq == 0
  {
    var ts := SampleInstants(seg, freq);
    SampleInstantsShape(seg, freq);
    if t in ts {
      var k :| 0 <= k < |ts| && ts[k] == t;
      DivModUnique(t - seg.first, freq, k, 0);
    }
    if seg.first <= t <= seg.last && (t - seg.first) % freq == 0 {
      var k := (t - seg.first) / freq;
      assert t - seg.first == k * freq;
      DivMonotone(t - seg.first, seg.last - seg.first, freq);
      assert ts[k] == t;
    }
  }

  /** A segment never holds more samples than a longer one. */
  lemma SampleCountMonotone(s: Segment, u: Segment, freq: int)
    requires freq > 0 && s.first <= s.last && s.last - s.first <= u.last - u.first
    ensures |SampleInstants(s, freq)| <= |SampleInstants(u, freq)|
  {
    DivMonotone(s.last - s.first, u.last - u.first, freq);
  }

  /** One row of time_components: year, month, day, hour, minute, second of t. */
  function TimeRow(t: int): (row: seq<int>)
    ensures |row| == 6
  {
    var c := Calendar.Split(t);
    [c.year, c.month, c.day, c.hour, c.minute, c.second]
  }

  /** The time_components matrix: one row per sample instant, in order. */
  function TimeComponents(ts: seq<int>): (rows: seq<seq<int>>)
    ensures |rows| == |ts|
  {
    seq(|ts|, k requires 0 <= k < |ts| => TimeRow(ts[k]))
  }

  /** A row names a real calendar instant: month 1-12, a day of that month, hour 0-23, minute and second 0-59. */
  predicate ValidRow(row: seq<int>)
  {
    |row| == 6 && Calendar.ValidDateTime(Calendar.DateTime(row[0], row[1], row[2], row[3], row[4], row[5]))
  }

  /** The instant a row of components denotes. */
  function ComposeRow(row: seq<int>): (r: int)
    requires |row| == 6 && 1 <= row[1] <= 12
  {
    Calendar.Compose(Calendar.DateTime(row[0], row[1], row[2], row[3], row[4], row[5]))
  }

  /** Every row of time_components is valid and composes back to its sample instant. */
  lemma TimeComponentsRoundTrip(ts: seq<int>)
    ensures var rows := TimeComponents(ts);
      forall k :: 0 <= k < |ts| ==> ValidRow(rows[k]) && ComposeRow(rows[k]) == ts[k]
  {
    forall k | 0 <= k < |ts|
      ensures ValidRow(TimeComponents(ts)[k]) && ComposeRow(TimeComponents(ts)[k]) == ts[k]
    {
      Calendar.SplitRoundTrip(ts[k]);
    }
  }

  /** Distinct instants get distinct rows. */
  lemma TimeRowInjective(s: int, t: int)
    requires TimeRow(s) == TimeRow(t)
    ensures s == t
  {
    Calendar.SplitRoundTrip(s);
    Calendar.SplitRoundTrip(t);
    assert Calendar.Split(s) == Calendar.Split(t) by {
      assert TimeRow(s)[0] == TimeRow(t)[0] && TimeRow(s)[1] == TimeRow(t)[1];
      assert TimeRow(s)[2] == TimeRow(t)[2] && TimeRow(s)[3] == TimeRow(t)[3];
      assert TimeRow(s)[4] == TimeRow(t)[4] && TimeRow(s)[5] == TimeRow(t)[5];
    }
  }

  /** The day numbers (days since 1970-01-01) of instants in the timestamp range. */
  predicate DayInRange(z: int) { -106752 <= z <= 106751 }

  lemma InstantDay(t: int)
    requires InTimestampRange(t)
    ensures DayInRange(t / 86400)
  {
  }

  /** Every day of the timestamp range falls in a four-digit year. */
  lemma DayYearRange(z: int)
    requires DayInRange(z)
    ensures 1600 <= Calendar.CivilFromDays(z).year <= 2400
  {
    var zz := z + 719468;
    var era, doe := zz / 146097, zz % 146097;
    assert 4 <= era <= 5;
    Calendar.YearOfEraBounds(doe);
  }

  /** A full day holds 86399 / freq + 1 samples, and no segment of a window holds more than the
      first, which is a full day whenever another segment follows it. */
  lemma SamplesPerSegment(start: int, end: int, freq: int)
    requires freq > 0 && Segmentation(start, end).Success?
    ensures var segs := Segmentation(start, end).value;
      && (forall i :: 0 <= i < |segs| - 1 ==> |SampleInstants(segs[i], freq)| == 86399 / freq + 1)
      && (forall i :: 0 <= i < |segs| ==> |SampleInstants(segs[i], freq)| <= |SampleInstants(segs[0], freq)|)
  {
    var segs := Segmentation(start, end).value;
    SegmentBounds(start, end);
    SegmentsContiguous(start, end);
    forall i | 0 <= i < |segs|
      ensures |SampleInstants(segs[i], freq)| <= |SampleInstants(segs[0], freq)|
    {
      if |segs| > 1 {
        SampleCountMonotone(segs[i], segs[0], freq);
      }
    }
  }
}
