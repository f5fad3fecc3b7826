/** Splitting the requested window into day segments, one per output file
    (gcpy/obspack_fill.py, lines 73-87). Instants are whole seconds since
    1970-01-01 00:00:00 UTC; a day is 86400 seconds. */
module Segments {
  import opened Errors
  import Arith
  import Calendar

  /** The whole-second instants a 64-bit nanosecond timestamp can hold
      (1677-09-21 00:12:44 to 2262-04-11 23:47:16 UTC). */
  const MinInstant: int := -9223372036
  const MaxInstant: int := 9223372036

  predicate InTimestampRange(t: int) { MinInstant <= t <= MaxInstant }

  /** The closed range of instants one output file covers. */
  datatype Segment = Segment(first: int, last: int)

  /** The number of files for the window [start, end]: the whole days of
      end - start, plus one when there is time left over. */
  function DayCount(start: int, end: int): (r: int)
  {
    var delta := end - start;
    if delta % 86400 != 0 then delta / 86400 + 1 else delta / 86400
  }

  /** The daily instants start, start + 1 day, ... that do not pass end. */
  function DailyStarts(start: int, end: int): (r: seq<int>)
  {
    if end < start then [] else seq((end - start) / 86400 + 1, k => start + k * 86400)
  }

  /** s[:k]: the first k elements, or, for negative k, all but the last -k. */
  function TakePrefix(s: seq<int>, k: int): (r: seq<int>)
    ensures r <= s
  {
    if k >= 0 then (if k < |s| then s[..k] else s)
    else (if |s| + k > 0 then s[..|s| + k] else [])
  }

  /** The sequence with its last element lowered to limit when it exceeds limit. */
  function ClampLast(ends: seq<int>, limit: int): (r: seq<int>)
    requires |ends| > 0
    ensures |r| == |ends|
  {
    if ends[|ends| - 1] > limit then ends[..|ends| - 1] + [limit] else ends
  }

  /** The day segments of the window [start, end], or why there are none. */
  function Segmentation(start: int, end: int): (r: Result<seq<Segment>>)
  {
    if !InTimestampRange(start) || !InTimestampRange(end) then Failure(OutOfBounds)
    else
      var starts := TakePrefix(DailyStarts(start, end), DayCount(start, end));
      if |starts| > 0 && starts[|starts| - 1] + 86400 > MaxInstant then Failure(Overflow)
      else if |starts| == 0 then Failure(EmptyWindow)
      else
        var ends := ClampLast(seq(|starts|, i requires 0 <= i < |starts| => starts[i] + 86400 - 1), end);
        Success(seq(|starts|, i requires 0 <= i < |starts| => Segment(starts[i], ends[i])))
  }

  /** Lowers the last segment end to the window end, in place; nothing else changes. */
  method ClampLastInPlace(ends: array<int>, limit: int)
    requires ends.Length > 0
    modifies ends
    ensures ends[..] == ClampLast(old(ends[..]), limit)
    ensures forall i :: 0 <= i < ends.Length - 1 ==> ends[i] == old(ends[i])
    ensures ends[ends.Length - 1] <= limit
  {
    if ends[ends.Length - 1] > limit {
      ends[ends.Length - 1] := limit;
    }
  }

  /** Computes the segment starts and ends as the source does, clamping the last end in place. */
  method ComputeSegments(start: int, end: int) returns (r: Result<seq<Segment>>)
    ensures r == Segmentation(start, end)
  {
    if !InTimestampRange(start) || !InTimestampRange(end) {
      return Failure(OutOfBounds);
    }
    var starts := TakePrefix(DailyStarts(start, end), DayCount(start, end));
    if |starts| > 0 && starts[|starts| - 1] + 86400 > MaxInstant {
      return Failure(Overflow);
    }
    var ends := new int[|starts|](i requires 0 <= i < |starts| => starts[i] + 86400 - 1);
    if ends.Length == 0 {
      return Failure(EmptyWindow);
    }
    assert ends[..] == seq(|starts|, i requires 0 <= i < |starts| => starts[i] + 86400 - 1);
    ClampLastInPlace(ends, end);
    var clamped := ends[..];
    r := Success(seq(|starts|, i requires 0 <= i < |starts| => Segment(starts[i], clamped[i])));
  }

  /** The segment starts are start, start + 1 day, ..., DayCount of them, when end is after start. */
  lemma StartsOfWindow(start: int, end: int)
    ensures var starts := TakePrefix(DailyStarts(start, end), DayCount(start, end));
      && (end <= start ==> starts == [])
      && (start < end ==> 1 <= DayCount(start, end) && starts == seq(DayCount(start, end), k => start + k * 86400))
  {
    if start < end {
      var n, all := DayCount(start, end), DailyStarts(start, end);
      assert 1 <= n <= |all|;
      assert TakePrefix(all, n) == all[..n];
    }
  }

  /** Segmentation fails exactly when an end lies outside the timestamp range (OutOfBounds), the
      window is empty (EmptyWindow), or one day after the last segment start overflows (Overflow). */
  lemma SegmentationOutcome(start: int, end: int)
    ensures Segmentation(start, end).Success? <==>
      InTimestampRange(start) && InTimestampRange(end) && start < end &&
      start + DayCount(start, end) * 86400 <= MaxInstant
    ensures Segmentation(start, end).Failure? ==>
      Segmentation(start, end).error ==
        (if !InTimestampRange(start) || !InTimestampRange(end) then OutOfBounds
         else if end <= start then EmptyWindow
         else Overflow)
  {
    StartsOfWindow(start, end);
  }

  /** There is one segment per started day of the window: the fewest whole days that cover it. */
  lemma SegmentCount(start: int, end: int)
    requires Segmentation(start, end).Success?
    ensures var n := |Segmentation(start, end).value|;
      && n == DayCount(start, end)
      && ((end - start) % 86400 != 0 ==> n == (end - start) / 86400 + 1)
      && ((end - start) % 86400 == 0 ==> n == (end - start) / 86400)
    ensures var n := |Segmentation(start, end).value|;
      (n - 1) * 86400 < end - start <= n * 86400
  {
    StartsOfWindow(start, end);
  }

  /** Segment i starts i days after start and, unless it is the last, ends one second before the
      next day; the last one ends at the window end when a full day would pass it. */
  lemma SegmentBounds(start: int, end: int)
    requires Segmentation(start, end).Success?
    ensures var segs := Segmentation(start, end).value; var n := |segs|;
      && n > 0
      && (forall i :: 0 <= i < n ==> segs[i].first == start + i * 86400)
      && (forall i :: 0 <= i < n - 1 ==> segs[i].last == segs[i].first + 86400 - 1)
      && segs[n - 1].last == (if segs[n - 1].first + 86400 - 1 > end then end else segs[n - 1].first + 86400 - 1)
  {
    StartsOfWindow(start, end);
  }

  /** The segments follow each other without gap or overlap, none is empty and none passes the
      window end; the first starts at the window start and the last ends at the window end, or one
      second before it when the window is a whole number of days. */
  lemma SegmentsContiguous(start: int, end: int)
    requires Segmentation(start, end).Success?
    ensures var segs := Segmentation(start, end).value; var n := |segs|;
      && n > 0
      && segs[0].first == start
      && (forall i :: 0 <= i < n - 1 ==> segs[i].last + 1 == segs[i + 1].first)
      && (forall i :: 0 <= i < n ==> segs[i].first <= segs[i].last <= end)
      && segs[n - 1].last == (if (end - start) % 86400 != 0 then end else end - 1)
  {
    SegmentBounds(start, end);
    SegmentCount(start, end);
  }

  /** A window of whole days needs no clamping, and its end instant falls in no segment. */
  lemma WholeDayWindow(start: int, end: int)
    requires Segmentation(start, end).Success? && (end - start) % 86400 == 0
    ensures var segs := Segmentation(start, end).value;
      && (forall i :: 0 <= i < |segs| ==> segs[i].last == segs[i].first + 86400 - 1)
      && (forall i :: 0 <= i < |segs| ==> !(segs[i].first <= end <= segs[i].last))
  {
    SegmentBounds(start, end);
    SegmentsContiguous(start, end);
  }

  /** Every instant of the window lies in exactly one segment, the one (t - start) / 86400 names,
      except the end instant of a window of whole days, which lies in none. */
  lemma SegmentOfInstant(start: int, end: int, t: int)
    requires Segmentation(start, end).Success? && start <= t <= end
    ensures var segs := Segmentation(start, end).value; var i := (t - start) / 86400;
      (i < |segs| && segs[i].first <= t <= segs[i].last) <==> (t < end || (end - start) % 86400 != 0)
    ensures var segs := Segmentation(start, end).value;
      forall j :: 0 <= j < |segs| && segs[j].first <= t <= segs[j].last ==> j == (t - start) / 86400
  {
    var segs := Segmentation(start, end).value;
    SegmentBounds(start, end);
    SegmentsContiguous(start, end);
    forall j | 0 <= j < |segs| && segs[j].first <= t <= segs[j].last
      ensures j == (t - start) / 86400
    {
      Arith.DivModUnique(t - start, 86400, j, t - segs[j].first);
    }
  }

  /** Every segment lies within the window, and so within the timestamp range. */
  lemma SegmentsInRange(start: int, end: int)
    requires Segmentation(start, end).Success?
    ensures var segs := Segmentation(start, end).value;
      forall i :: 0 <= i < |segs| ==> start <= segs[i].first <= segs[i].last <= end && InTimestampRange(segs[i].first)
  {
    SegmentBounds(start, end);
    SegmentsContiguous(start, end);
  }

  /** Segment i starts on day i after the day of the window start. */
  lemma SegmentDays(start: int, end: int)
    requires Segmentation(start, end).Success?
    ensures var segs := Segmentation(start, end).value;
      forall i :: 0 <= i < |segs| ==> segs[i].first / 86400 == start / 86400 + i
  {
    var segs := Segmentation(start, end).value;
    SegmentBounds(start, end);
    forall i | 0 <= i < |segs|
      ensures segs[i].first / 86400 == start / 86400 + i
    {
      Arith.DivModUnique(segs[i].first, 86400, start / 86400 + i, start % 86400);
    }
  }
}
