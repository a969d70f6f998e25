/** The solved-count history diff (get_weekly_solved_count): solved.ac returns
    a cumulative solvedCount series, and the number of problems solved in a
    window is the cumulative value at its end minus the value just before
    its start. Times are whole seconds (see Base). */
module History {
  import opened Base

  /** One element of the history response. `timestamp` is None when the field is missing,
      empty or not an ISO date-time, and otherwise the wall-clock time it spells
      (any UTC offset dropped); `value` is None when it is missing or int() rejects it. */
  datatype RawEntry = RawEntry(timestamp: Option<int>, value: Option<int>)

  datatype Sample = Sample(time: int, value: int)

  /** A bound passed in by the caller: naive (Korean wall-clock, a valid datetime) or
      carrying a zone (as its UTC instant, which may fall outside years 1..9999). */
  datatype Stamp = Naive(wall: int) | Aware(utc: int)

  /** The {'count', 'problems'} dictionary. */
  datatype WindowResult = WindowResult(count: int, problems: seq<int>)

  const KstOffset: int := 9 * HourSeconds

  const NoResult: WindowResult := WindowResult(0, [])

  /** The entries that survive the filter loop, in response order. */
  function Samples(data: seq<RawEntry>): seq<Sample> {
    if data == [] then []
    else
      var rest := Samples(data[..|data| - 1]);
      var e := data[|data| - 1];
      if e.timestamp.Some? && e.value.Some? then rest + [Sample(e.timestamp.value, e.value.value)] else rest
  }

  // ---------------------------------------------------------------------
  // The stable sort by time (history.sort(key=lambda x: x[0])).
  // ---------------------------------------------------------------------

  ghost predicate SortedByTime(h: seq<Sample>) {
    forall i, j :: 0 <= i < j < |h| ==> h[i].time <= h[j].time
  }

  /** Puts x after every sample of the sorted h whose time is not later than x's. */
  function InsertByTime(x: Sample, h: seq<Sample>): seq<Sample> {
    if h == [] then [x]
    else if x.time < h[0].time then [x] + h
    else [h[0]] + InsertByTime(x, h[1..])
  }

  /** Insertion sort taking the samples in order; equal times keep their order. */
  function SortByTime(h: seq<Sample>): seq<Sample> {
    if h == [] then [] else InsertByTime(h[|h| - 1], SortByTime(h[..|h| - 1]))
  }

  /** Inserting never puts anything earlier than a common lower bound. */
  lemma {:induction false} InsertByTimeBound(x: Sample, h: seq<Sample>, b: int)
    requires forall i :: 0 <= i < |h| ==> b <= h[i].time
    requires b <= x.time
    ensures forall i :: 0 <= i < |InsertByTime(x, h)| ==> b <= InsertByTime(x, h)[i].time
  {
    if h != [] && x.time >= h[0].time {
      InsertByTimeBound(x, h[1..], b);
    }
  }

  lemma {:induction false} InsertByTimeSorted(x: Sample, h: seq<Sample>)
    requires SortedByTime(h)
    ensures SortedByTime(InsertByTime(x, h))
  {
    if h != [] && x.time >= h[0].time {
      var tail := InsertByTime(x, h[1..]);
      InsertByTimeSorted(x, h[1..]);
      InsertByTimeBound(x, h[1..], h[0].time);
      var r := [h[0]] + tail;
      forall i, j | 0 <= i < j < |r| ensures r[i].time <= r[j].time {
        if i > 0 {
          assert r[i] == tail[i - 1] && r[j] == tail[j - 1];
        } else {
          assert r[j] == tail[j - 1];
        }
      }
    }
  }

  lemma {:induction false} InsertByTimeMultiset(x: Sample, h: seq<Sample>)
    ensures multiset(InsertByTime(x, h)) == multiset(h) + multiset{x}
  {
    if h != [] && x.time >= h[0].time {
      InsertByTimeMultiset(x, h[1..]);
      assert h == [h[0]] + h[1..];
    }
  }

  /** The sort orders by time and only rearranges the samples. */
  lemma {:induction false} SortByTimeSpec(h: seq<Sample>)
    ensures SortedByTime(SortByTime(h))
    ensures multiset(SortByTime(h)) == multiset(h)
  {
    if h != [] {
      var init := h[..|h| - 1];
      SortByTimeSpec(init);
      InsertByTimeSorted(h[|h| - 1], SortByTime(init));
      InsertByTimeMultiset(h[|h| - 1], SortByTime(init));
      assert h == init + [h[|h| - 1]];
    }
  }

  // ---------------------------------------------------------------------
  // cumulative_before.
  // ---------------------------------------------------------------------

  /** The loop's test: the sample lies before the target (or at it, when inclusive). */
  predicate Before(s: Sample, target: int, inclusive: bool) {
    s.time < target || (inclusive && s.time <= target)
  }

  /** How many leading samples pass the test before the loop breaks. */
  function Leading(h: seq<Sample>, target: int, inclusive: bool): (k: nat)
    ensures k <= |h|
  {
    if h == [] || !Before(h[0], target, inclusive) then 0 else 1 + Leading(h[1..], target, inclusive)
  }

  /** The value cumulative_before returns: that of the last sample the loop took, 0 if none. */
  function CumBefore(h: seq<Sample>, target: int, inclusive: bool): int {
    var k := Leading(h, target, inclusive);
    if k == 0 then 0 else h[k - 1].value
  }

  /** Leading counts exactly the run of passing samples at the front. */
  lemma {:induction false} LeadingExact(h: seq<Sample>, target: int, inclusive: bool, k: nat)
    requires k <= |h|
    requires forall j :: 0 <= j < k ==> Before(h[j], target, inclusive)
    requires k == |h| || !Before(h[k], target, inclusive)
    ensures Leading(h, target, inclusive) == k
  {
    if k > 0 {
      LeadingExact(h[1..], target, inclusive, k - 1);
    }
  }

  /** cumulative_before. */
  method CumulativeBefore(history: seq<Sample>, target: int, inclusive: bool) returns (lastVal: int)
    ensures lastVal == CumBefore(history, target, inclusive)
  {
    lastVal := 0;
    var i := 0;
    while i < |history|
      invariant 0 <= i <= |history|
      invariant forall j :: 0 <= j < i ==> Before(history[j], target, inclusive)
      invariant lastVal == if i == 0 then 0 else history[i - 1].value
    {
      var s := history[i];
      if s.time < target || (inclusive && s.time <= target) {
        lastVal := s.value;
      } else {
        break;
      }
      i := i + 1;
    }
    LeadingExact(history, target, inclusive, i);
  }

  /** On a time-sorted series the loop takes exactly the samples before the target. */
  lemma LeadingOnSorted(h: seq<Sample>, target: int, inclusive: bool)
    requires SortedByTime(h)
    ensures forall j :: 0 <= j < |h| ==> (j < Leading(h, target, inclusive) <==> Before(h[j], target, inclusive))
  {
    var k := Leading(h, target, inclusive);
    LeadingPrefix(h, target, inclusive);
    forall j | k <= j < |h| ensures !Before(h[j], target, inclusive) {
      assert h[k].time <= h[j].time;
    }
  }

  lemma {:induction false} LeadingPrefix(h: seq<Sample>, target: int, inclusive: bool)
    ensures forall j :: 0 <= j < Leading(h, target, inclusive) ==> Before(h[j], target, inclusive)
    ensures Leading(h, target, inclusive) < |h| ==> !Before(h[Leading(h, target, inclusive)], target, inclusive)
  {
    if h != [] && Before(h[0], target, inclusive) {
      LeadingPrefix(h[1..], target, inclusive);
      forall j | 0 < j < Leading(h, target, inclusive) ensures Before(h[j], target, inclusive) {
        assert h[j] == h[1..][j - 1];
      }
    }
  }

  // ---------------------------------------------------------------------
  // get_weekly_solved_count.
  // ---------------------------------------------------------------------

  /** to_utc: an aware bound is its UTC instant; a naive one is taken as Korean time.
      None where the datetime arithmetic raises OverflowError: a naive bound before
      0001-01-01 09:00, or an aware one whose UTC instant lies outside years 1..9999. */
  function ToUtc(t: Stamp): (r: Option<int>)
    ensures r.Some? ==> 0 <= r.value
    ensures t.Naive? ==> (r.Some? <==> t.wall >= KstOffset) && (r.Some? ==> r.value == t.wall - KstOffset)
    ensures t.Aware? ==> (r.Some? <==> 0 <= t.utc < TimeLimit) && (r.Some? ==> r.value == t.utc)
  {
    match t
    case Aware(utc) => if 0 <= utc < TimeLimit then Some(utc) else None
    case Naive(wall) => if wall < KstOffset then None else Some(wall - KstOffset)
  }

  /** The whole function; `status` is None when the request raised. An overflow in
      to_utc is caught by the same `except` and gives {0, []} too. */
  function WeeklyCount(status: Option<int>, data: seq<RawEntry>, start: Stamp, end: Stamp): WindowResult {
    if status != Some(200) then NoResult
    else
      var history := Samples(data);
      if history == [] || ToUtc(start).None? || ToUtc(end).None? then NoResult
      else
        var sorted := SortByTime(history);
        var totalBefore := CumBefore(sorted, ToUtc(start).value, false);
        var totalEnd := CumBefore(sorted, ToUtc(end).value, true);
        WindowResult(if totalEnd - totalBefore > 0 then totalEnd - totalBefore else 0, [])
  }

  /** get_weekly_solved_count: the filter loop, the sort and the two cumulative lookups. */
  method GetWeeklySolvedCount(status: Option<int>, data: seq<RawEntry>, start: Stamp, end: Stamp) returns (r: WindowResult)
    ensures r == WeeklyCount(status, data, start, end)
  {
    if status != Some(200) {
      return NoResult;
    }
    var history: seq<Sample> := [];
    var i := 0;
    while i < |data|
      invariant 0 <= i <= |data|
      invariant history == Samples(data[..i])
    {
      var entry := data[i];
      assert data[..i + 1][..i] == data[..i];
      if entry.timestamp.Some? && entry.value.Some? {
        history := history + [Sample(entry.timestamp.value, entry.value.value)];
      }
      i := i + 1;
    }
    assert data[..i] == data;
    if history == [] {
      return NoResult;
    }
    history := SortByTime(history);
    var startUtc := ToUtc(start);
    var endUtc := ToUtc(end);
    if startUtc.None? || endUtc.None? {
      return NoResult;
    }
    var totalBefore := CumulativeBefore(history, startUtc.value, false);
    var totalEnd := CumulativeBefore(history, endUtc.value, true);
    var count := if totalEnd - totalBefore > 0 then totalEnd - totalBefore else 0;
    return WindowResult(count, []);
  }

  // ---------------------------------------------------------------------
  // What the history diff promises.
  // ---------------------------------------------------------------------

  /** The count is never negative, no problem list is ever reported, and a failed request
      or a series with no usable entry gives {0, []}. */
  lemma WeeklyCountShape(status: Option<int>, data: seq<RawEntry>, start: Stamp, end: Stamp)
    ensures WeeklyCount(status, data, start, end).count >= 0
    ensures WeeklyCount(status, data, start, end).problems == []
    ensures status != Some(200) || Samples(data) == [] ==> WeeklyCount(status, data, start, end) == NoResult
    ensures ToUtc(start).None? || ToUtc(end).None? ==> WeeklyCount(status, data, start, end) == NoResult
  {
  }

  /** A naive start in the first nine hours of year 1 overflows, whatever the series. */
  lemma EarlyNaiveStartOverflows(data: seq<RawEntry>, wall: int, end: Stamp)
    requires wall < KstOffset
    ensures WeeklyCount(Some(200), data, Naive(wall), end) == NoResult
  {
  }

  /** A sample survives the filter exactly when both fields parsed. */
  lemma {:induction false} SamplesExact(data: seq<RawEntry>)
    ensures forall s :: s in Samples(data) <==> exists e :: e in data && e.timestamp == Some(s.time) && e.value == Some(s.value)
  {
    if data != [] {
      var init := data[..|data| - 1];
      SamplesExact(init);
      assert data == init + [data[|data| - 1]];
      forall s ensures s in Samples(data) <==> exists e :: e in data && e.timestamp == Some(s.time) && e.value == Some(s.value) {
        if s in Samples(data) && s !in Samples(init) {
          assert data[|data| - 1] in data;
        }
        if e :| e in data && e.timestamp == Some(s.time) && e.value == Some(s.value) {
          if e != data[|data| - 1] {
            assert e in init;
          }
        }
      }
    }
  }

  /** The loop run for the lower bound stops no later than the one for the upper bound. */
  lemma {:induction false} LeadingMonotone(h: seq<Sample>, t1: int, t2: int)
    requires t1 <= t2
    ensures Leading(h, t1, false) <= Leading(h, t2, true)
  {
    if h != [] && Before(h[0], t1, false) {
      LeadingMonotone(h[1..], t1, t2);
    }
  }

  ghost predicate ValuesNonDecreasing(h: seq<Sample>) {
    (forall i :: 0 <= i < |h| ==> 0 <= h[i].value) &&
    (forall i, j :: 0 <= i < j < |h| ==> h[i].value <= h[j].value)
  }

  /** On a genuine cumulative series (non-negative, never decreasing in time order) and a
      window whose start is not after its end, the clamp to 0 never bites: the count is the
      cumulative value at the end minus the value just before the start. */
  lemma NoClampOnCumulativeSeries(h: seq<Sample>, start: int, end: int)
    requires start <= end
    requires ValuesNonDecreasing(h)
    ensures CumBefore(h, end, true) - CumBefore(h, start, false) >= 0
  {
    LeadingMonotone(h, start, end);
  }

  /** The same, for the whole function: with a genuine cumulative series the count is the
      last value at or before the end minus the last value strictly before the start. */
  lemma WeeklyCountIsDifference(data: seq<RawEntry>, start: Stamp, end: Stamp)
    requires ToUtc(start).Some? && ToUtc(end).Some? && ToUtc(start).value <= ToUtc(end).value
    requires Samples(data) != []
    requires ValuesNonDecreasing(SortByTime(Samples(data)))
    ensures WeeklyCount(Some(200), data, start, end).count
      == CumBefore(SortByTime(Samples(data)), ToUtc(end).value, true)
         - CumBefore(SortByTime(Samples(data)), ToUtc(start).value, false)
  {
    NoClampOnCumulativeSeries(SortByTime(Samples(data)), ToUtc(start).value, ToUtc(end).value);
  }

  /** What the two lookups pick on the sorted series: the value of the last sample at a time
      not after the end (strictly before the start), or 0 when there is none. */
  lemma CumBeforeIsLastBefore(h: seq<Sample>, target: int, inclusive: bool, k: nat)
    requires SortedByTime(h)
    requires k < |h| && Before(h[k], target, inclusive)
    requires k + 1 == |h| || !Before(h[k + 1], target, inclusive)
    ensures CumBefore(h, target, inclusive) == h[k].value
  {
    LeadingOnSorted(h, target, inclusive);
  }

  lemma NothingBefore(h: seq<Sample>, target: int, inclusive: bool)
    requires SortedByTime(h)
    requires forall j :: 0 <= j < |h| ==> !Before(h[j], target, inclusive)
    ensures CumBefore(h, target, inclusive) == 0
  {
    if h != [] {
      assert !Before(h[0], target, inclusive);
    }
  }
}
