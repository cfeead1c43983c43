/**
 * The recommendation and feature rules of the digital twin that work on a
 * device's recent telemetry: the discharge-depth segment detector, the
 * idle / above-90%-charge accumulators, and the gate that decides when a new
 * prediction-feature row is due.
 *
 * Timestamps are integer seconds; currents and voltages are reals (the
 * source's floats, without rounding).
 */
module TwinRules {
  import opened Common
  import QueryWindow

  // ---------------------------------------------------------------------------
  // Discharge-depth segments (`low_depth_of_discharge_check`)
  // ---------------------------------------------------------------------------

  /** One fetched row: current, voltage and timestamp, in that column order. */
  datatype Sample = Sample(current: real, voltage: real, timestamp: int)

  /** A current above this marks a row as charging. */
  const CurrentThreshold: real := 0.01

  /** The data window of the check: 12 hours of active time. */
  const WindowSeconds: int := 12 * 3600

  /** A candidate segment: the rows from `first` to `last`, both included. */
  datatype Segment = Segment(first: nat, last: nat)

  /**
   * The loop state of the detector: whether a charging row has been seen,
   * the pending start and stop indices, and the segments recorded so far.
   */
  datatype ScanState = ScanState(cleanStart: bool, start: Option<nat>, stop: Option<nat>, segments: seq<Segment>)

  /**
   * No gap checked inside the segment exceeds `MinDowntime`: the check looks
   * at the gaps after rows `first` to `last - 2`, i.e. every gap of the
   * segment except the final one into row `last`.
   */
  predicate GapFree(data: seq<Sample>, first: nat, last: nat)
    requires last < |data|
  {
    forall j :: first <= j < last - 1 ==> data[j + 1].timestamp - data[j].timestamp <= QueryWindow.MinDowntime
  }

  /** The detector's handling of row `i`. */
  function ScanStep(data: seq<Sample>, i: nat, st: ScanState): ScanState
    requires i < |data|
    requires st.start.Some? ==> st.start.value < i
    requires st.stop.Some? ==> st.stop.value < i
  {
    if st.start.Some? then
      if st.stop.Some? then
        var seg := Segment(st.start.value, st.stop.value);
        var segments := if GapFree(data, seg.first, seg.last) then st.segments + [seg] else st.segments;
        ScanState(st.cleanStart, None, None, segments)
      else if data[i].current > CurrentThreshold then
        ScanState(st.cleanStart, st.start, Some(i - 1), st.segments)
      else st
    else if data[i].current > CurrentThreshold then
      ScanState(true, st.start, st.stop, st.segments)
    else if st.cleanStart then
      ScanState(st.cleanStart, Some(i), st.stop, st.segments)
    else st
  }

  /** The detector's state after the first `n` rows. */
  function Scan(data: seq<Sample>, n: nat): (st: ScanState)
    requires n <= |data|
    ensures st.start.Some? ==> st.start.value < n
    ensures st.stop.Some? ==> st.stop.value < n && st.start.Some?
    ensures forall k :: 0 <= k < |st.segments| ==> st.segments[k].first <= st.segments[k].last < n
  {
    if n == 0 then ScanState(false, None, None, [])
    else ScanStep(data, n - 1, Scan(data, n - 1))
  }

  /** Voltage drop over a segment. */
  function Depth(data: seq<Sample>, seg: Segment): real
    requires seg.first < |data| && seg.last < |data|
  {
    data[seg.first].voltage - data[seg.last].voltage
  }

  function SumOf(s: seq<real>): real
  {
    if s == [] then 0.0 else SumOf(s[..|s| - 1]) + s[|s| - 1]
  }

  /** The depths of discharge of the recorded segments, in order. */
  function Depths(data: seq<Sample>, segments: seq<Segment>): (r: seq<real>)
    requires forall k :: 0 <= k < |segments| ==> segments[k].first < |data| && segments[k].last < |data|
    ensures |r| == |segments|
  {
    if segments == [] then [] else Depths(data, segments[..|segments| - 1]) + [Depth(data, segments[|segments| - 1])]
  }

  /**
   * A recorded segment is a discharge block: it starts after some charging
   * row, every row in it is at or below the current threshold, the row right
   * after it is charging, and its checked gaps are short.
   */
  ghost predicate DischargeSegment(data: seq<Sample>, seg: Segment)
  {
    && 0 < seg.first <= seg.last && seg.last + 1 < |data|
    && (exists k :: 0 <= k < seg.first && data[k].current > CurrentThreshold)
    && (forall k :: seg.first <= k <= seg.last ==> data[k].current <= CurrentThreshold)
    && data[seg.last + 1].current > CurrentThreshold
    && GapFree(data, seg.first, seg.last)
  }

  /** What the detector's pending state after `n` rows guarantees. */
  ghost predicate PendingInvariant(data: seq<Sample>, n: nat, st: ScanState)
    requires n <= |data|
  {
    && (st.cleanStart ==> exists k :: 0 <= k < n && data[k].current > CurrentThreshold)
    && (st.start.None? ==> st.stop.None?)
    && (st.start.Some? ==>
          && st.cleanStart
          && st.start.value < n
          && (exists k :: 0 <= k < st.start.value && data[k].current > CurrentThreshold)
          && (forall k :: st.start.value <= k < n - 1 ==> data[k].current <= CurrentThreshold)
          && (st.stop.None? ==> data[n - 1].current <= CurrentThreshold)
          && (st.stop.Some? ==> st.stop.value == n - 2 && st.start.value <= st.stop.value
                                && data[n - 1].current > CurrentThreshold))
  }

  /** What the segments recorded after `n` rows guarantee. */
  ghost predicate SegmentsInvariant(data: seq<Sample>, n: nat, st: ScanState)
    requires n <= |data|
  {
    && (forall k :: 0 <= k < |st.segments| ==> DischargeSegment(data, st.segments[k]))
    && (forall k :: 0 <= k < |st.segments| ==> st.segments[k].last + 2 < n)
    && (forall k :: 0 <= k < |st.segments| && st.start.Some? ==> st.segments[k].last < st.start.value)
    && (forall k :: 0 < k < |st.segments| ==> st.segments[k - 1].last < st.segments[k].first)
  }

  lemma StepKeepsPending(data: seq<Sample>, n: nat, st: ScanState)
    requires 0 < n <= |data|
    requires st.start.Some? ==> st.start.value < n - 1
    requires st.stop.Some? ==> st.stop.value < n - 1
    requires PendingInvariant(data, n - 1, st)
    ensures PendingInvariant(data, n, ScanStep(data, n - 1, st))
  {
    var i := n - 1;
    if st.start.None? && data[i].current > CurrentThreshold {
      assert data[i].current > CurrentThreshold;
    }
  }

  lemma StepKeepsSegments(data: seq<Sample>, n: nat, st: ScanState)
    requires 0 < n <= |data|
    requires st.start.Some? ==> st.start.value < n - 1
    requires st.stop.Some? ==> st.stop.value < n - 1
    requires PendingInvariant(data, n - 1, st) && SegmentsInvariant(data, n - 1, st)
    ensures SegmentsInvariant(data, n, ScanStep(data, n - 1, st))
  {
    if st.start.Some? && st.stop.Some? {
      var seg := Segment(st.start.value, st.stop.value);
      if GapFree(data, seg.first, seg.last) {
        assert DischargeSegment(data, seg);
        var segs := st.segments + [seg];
        assert forall k :: 0 <= k < |st.segments| ==> segs[k] == st.segments[k];
      }
    }
  }

  /** The detector keeps both invariants from row to row. */
  lemma {:induction false} ScanKeepsInvariant(data: seq<Sample>, n: nat)
    requires n <= |data|
    ensures PendingInvariant(data, n, Scan(data, n)) && SegmentsInvariant(data, n, Scan(data, n))
  {
    if n > 0 {
      ScanKeepsInvariant(data, n - 1);
      StepKeepsPending(data, n, Scan(data, n - 1));
      StepKeepsSegments(data, n, Scan(data, n - 1));
    }
  }

  /**
   * Every depth the check averages comes from a discharge block: a segment
   * of rows at or below the current threshold that follows a charging row,
   * ends right before a charging row, and has no long gap inside; segments
   * are recorded in order and do not overlap.
   */
  lemma RecordedSegmentsAreDischarges(data: seq<Sample>)
    ensures var segs := Scan(data, |data|).segments;
      && (forall k :: 0 <= k < |segs| ==> DischargeSegment(data, segs[k]))
      && (forall k :: 0 < k < |segs| ==> segs[k - 1].last < segs[k].first)
  {
    ScanKeepsInvariant(data, |data|);
  }

  /** A table that never charges above the threshold records no segment. */
  lemma NoChargeNoSegments(data: seq<Sample>)
    requires forall k :: 0 <= k < |data| ==> data[k].current <= CurrentThreshold
    ensures Scan(data, |data|).segments == []
  {
    ScanKeepsInvariant(data, |data|);
  }

  /** The verdict: more than four segments whose mean depth is below the threshold. */
  predicate LowDepthVerdict(depths: seq<real>, threshold: real)
  {
    |depths| > 4 && SumOf(depths) / (|depths| as real) < threshold
  }

  /** The rows the check analyses: the `q` most recent rows of the table, oldest first. */
  function RecentRows(table: seq<Sample>, q: int): (r: seq<Sample>)
    ensures |r| == if q < 0 then 0 else if q < |table| then q else |table|
    ensures r == table[|table| - |r|..]
  {
    if q <= 0 then [] else if q < |table| then table[|table| - q..] else table
  }

  function Timestamps(table: seq<Sample>): (ts: seq<int>)
    ensures |ts| == |table|
    ensures forall k :: 0 <= k < |table| ==> ts[k] == table[k].timestamp
  {
    if table == [] then [] else Timestamps(table[..|table| - 1]) + [table[|table| - 1].timestamp]
  }

  /**
   * The answer of `low_depth_of_discharge_check` for a table, at time `now`.
   * The fetches numbered in `fetchFails` raise inside `get_query_size`, which
   * returns the count reached so far. `fails` stands for a raise from the
   * table load or the row fetch, which the `except` block turns into `False`.
   */
  ghost function LowDepthOfDischarge(table: seq<Sample>, now: int, threshold: real, fetchFails: set<nat>, fails: bool): bool
    requires QueryWindow.Increasing(Timestamps(table))
  {
    if fails then false
    else
      var data := RecentRows(table, QueryWindow.QuerySizeFailing(Timestamps(table), now, WindowSeconds, fetchFails));
      var segs := Scan(data, |data|).segments;
      LowDepthVerdict(Depths(data, segs), threshold)
  }

  /** The `any(...)` test of the detector: whether some checked gap of the segment exceeds `MinDowntime`. */
  method HasLongGap(data: seq<Sample>, first: nat, last: nat) returns (broken: bool)
    requires last < |data|
    ensures broken <==> !GapFree(data, first, last)
  {
    broken := false;
    var j := first;
    while j < last - 1
      invariant first <= j
      invariant broken <==> exists m :: first <= m < j && m < last - 1 &&
                                     data[m + 1].timestamp - data[m].timestamp > QueryWindow.MinDowntime
    {
      if data[j + 1].timestamp - data[j].timestamp > QueryWindow.MinDowntime {
        broken := true;
      }
      j := j + 1;
    }
  }

  /** Recording one more segment appends its depth. */
  lemma DepthsSnoc(data: seq<Sample>, segments: seq<Segment>, seg: Segment)
    requires forall k :: 0 <= k < |segments| ==> segments[k].first < |data| && segments[k].last < |data|
    requires seg.first < |data| && seg.last < |data|
    ensures Depths(data, segments + [seg]) == Depths(data, segments) + [data[seg.first].voltage - data[seg.last].voltage]
  {
    assert (segments + [seg])[..|segments|] == segments;
  }

  /**
   * One pass of the detector's loop over row `i`: the new pending indices,
   * and whether the pending segment is recorded, are the scan's step.
   */
  method ScanRow(data: seq<Sample>, i: nat, cleanStart: bool, start: Option<nat>, stop: Option<nat>, ghost segments: seq<Segment>)
    returns (cleanStart': bool, start': Option<nat>, stop': Option<nat>, recorded: bool)
    requires i < |data|
    requires start.Some? ==> start.value < i
    requires stop.Some? ==> stop.value < i
    ensures recorded ==> start.Some? && stop.Some?
    ensures ScanStep(data, i, ScanState(cleanStart, start, stop, segments))
      == ScanState(cleanStart', start', stop', if recorded then segments + [Segment(start.value, stop.value)] else segments)
  {
    if start.Some? && stop.Some? {
      var broken := HasLongGap(data, start.value, stop.value);
      return cleanStart, None, None, !broken;
    }
    var charging := data[i].current > CurrentThreshold;
    if start.Some? && charging {
      stop' := Some(i - 1);
    } else {
      stop' := stop;
    }
    cleanStart' := cleanStart || (start.None? && charging);
    start' := if start.None? && !charging && cleanStart then Some(i) else start;
    recorded := false;
  }

  /** One pass of the collecting loop: the state and the depths after row `i`. */
  method CollectRow(data: seq<Sample>, i: nat, cleanStart: bool, start: Option<nat>, stop: Option<nat>,
                    ghost segments: seq<Segment>, depths: seq<real>)
    returns (cleanStart': bool, start': Option<nat>, stop': Option<nat>, ghost segments': seq<Segment>, depths': seq<real>)
    requires i < |data|
    requires Scan(data, i) == ScanState(cleanStart, start, stop, segments)
    requires depths == Depths(data, segments)
    ensures Scan(data, i + 1) == ScanState(cleanStart', start', stop', segments')
    ensures depths' == Depths(data, segments')
  {
    assert Scan(data, i + 1) == ScanStep(data, i, ScanState(cleanStart, start, stop, segments));
    var recorded;
    cleanStart', start', stop', recorded := ScanRow(data, i, cleanStart, start, stop, segments);
    segments', depths' := segments, depths;
    if recorded {
      DepthsSnoc(data, segments, Segment(start.value, stop.value));
      segments' := segments + [Segment(start.value, stop.value)];
      depths' := depths + [data[start.value].voltage - data[stop.value].voltage];
    }
  }

  /** The scanning loop of the detector, collecting the depth of each recorded segment. */
  method CollectDepths(data: seq<Sample>) returns (depths: seq<real>)
    ensures depths == Depths(data, Scan(data, |data|).segments)
  {
    var cleanStart := false;
    var start: Option<nat> := None;
    var stop: Option<nat> := None;
    ghost var segments: seq<Segment> := [];
    depths := [];
    var i := 0;
    while i < |data|
      invariant 0 <= i <= |data|
      invariant Scan(data, i) == ScanState(cleanStart, start, stop, segments)
      invariant depths == Depths(data, segments)
    {
      cleanStart, start, stop, segments, depths := CollectRow(data, i, cleanStart, start, stop, segments, depths);
      i := i + 1;
    }
  }

  /**
   * `low_depth_of_discharge_check`: size the window with the windowed query,
   * fetch that many recent rows, collect the depths of the discharge
   * segments, and answer whether there are more than four of them with a
   * mean depth below the threshold. A raise from the table load or the row
   * fetch (`fails`) is caught and answers `False`.
   */
  method LowDepthOfDischargeCheck(table: seq<Sample>, now: int, threshold: real, fetchFails: set<nat>, fails: bool)
    returns (low: bool)
    requires QueryWindow.Increasing(Timestamps(table))
    ensures low == LowDepthOfDischarge(table, now, threshold, fetchFails, fails)
    ensures fails ==> !low
    ensures low ==> |Scan(RecentRows(table, QueryWindow.QuerySizeFailing(Timestamps(table), now, WindowSeconds, fetchFails)),
                         |RecentRows(table, QueryWindow.QuerySizeFailing(Timestamps(table), now, WindowSeconds, fetchFails))|).segments| > 4
  {
    if fails {
      return false;
    }
    var querySize := QueryWindow.GetQuerySize(Timestamps(table), now, WindowSeconds, fetchFails);
    var data := RecentRows(table, querySize);
    var depths := CollectDepths(data);
    low := |depths| > 4 && SumOf(depths) / (|depths| as real) < threshold;
  }

  // ---------------------------------------------------------------------------
  // Idle time and time above 90% charge (`add_to_prediction_features`)
  // ---------------------------------------------------------------------------

  /** One row of the last-7-days block: timestamp and state of charge. */
  datatype ChargeReading = ChargeReading(timestamp: int, soc: int)

  /** A state of charge above this counts as "above 90%". */
  const HighSoc: int := 90

  /** The idle contribution of the gap before reading `k`: the gap when it exceeds `MinDowntime`, else nothing. */
  function IdleGap(block: seq<ChargeReading>, k: nat): int
    requires 0 < k < |block|
  {
    var gap := block[k].timestamp - block[k - 1].timestamp;
    if gap > QueryWindow.MinDowntime then gap else 0
  }

  /** Idle seconds over the first `n` readings: the sum of the long gaps between them. */
  function IdleSeconds(block: seq<ChargeReading>, n: nat): int
    requires n <= |block|
  {
    if n <= 1 then 0 else IdleSeconds(block, n - 1) + IdleGap(block, n - 1)
  }

  /** Index of the first reading of the run of above-90% readings that ends just before `k`. */
  function RunStart(block: seq<ChargeReading>, k: nat): (s: nat)
    requires k <= |block|
    ensures s <= k
    ensures forall m :: s <= m < k ==> block[m].soc > HighSoc
    ensures s == 0 || block[s - 1].soc <= HighSoc
  {
    if k > 0 && block[k - 1].soc > HighSoc then RunStart(block, k - 1) else k
  }

  /**
   * What reading `k` closes: when it is at or below 90% and the readings
   * before it were above, the time since the first of those readings.
   */
  function HighClosed(block: seq<ChargeReading>, k: nat): int
    requires k < |block|
  {
    if block[k].soc <= HighSoc && k > 0 && block[k - 1].soc > HighSoc
    then block[k].timestamp - block[RunStart(block, k)].timestamp
    else 0
  }

  /** Seconds above 90% over the first `n` readings: the sum of the closed excursions. */
  function HighSeconds(block: seq<ChargeReading>, n: nat): int
    requires n <= |block|
  {
    if n == 0 then 0 else HighSeconds(block, n - 1) + HighClosed(block, n - 1)
  }

  /** Readings in strictly increasing time. */
  ghost predicate Chronological(block: seq<ChargeReading>)
  {
    forall i, j :: 0 <= i < j < |block| ==> block[i].timestamp < block[j].timestamp
  }

  /**
   * The idle/above-90% loop: idle time sums the gaps longer than 5 minutes,
   * above-90% time sums, for every reading at or below 90% that follows
   * readings above 90%, the time since the first of those readings. An
   * empty block fails (the source indexes its first row) and gives no
   * result. The totals are in seconds; the source divides both by 3600.
   */
  method IdleAndHighSoc(block: seq<ChargeReading>) returns (r: Option<(int, int)>)
    ensures block == [] <==> r.None?
    ensures r.Some? ==> r.value == (IdleSeconds(block, |block|), HighSeconds(block, |block|))
  {
    if block == [] {
      return None;
    }
    var idle := 0;
    var lastTimestamp := block[0].timestamp;
    var high := 0;
    var firstAbove := block[0].timestamp;
    var wasAbove := false;
    var i := 0;
    while i < |block|
      invariant 0 <= i <= |block|
      invariant lastTimestamp == block[if i == 0 then 0 else i - 1].timestamp
      invariant idle == IdleSeconds(block, i)
      invariant high == HighSeconds(block, i)
      invariant wasAbove <==> i > 0 && block[i - 1].soc > HighSoc
      invariant wasAbove ==> firstAbove == block[RunStart(block, i)].timestamp
    {
      var timestamp, soc := block[i].timestamp, block[i].soc;
      if timestamp - lastTimestamp > QueryWindow.MinDowntime {
        idle := idle + (timestamp - lastTimestamp);
      }
      lastTimestamp := timestamp;
      if soc <= HighSoc {
        if wasAbove {
          high := high + (timestamp - firstAbove);
          wasAbove := false;
        }
      } else {
        if !wasAbove {
          firstAbove := timestamp;
        }
        wasAbove := true;
      }
      i := i + 1;
    }
    return Some((idle, high));
  }

  /** Idle time never exceeds the span of the block. */
  lemma {:induction false} IdleWithinSpan(block: seq<ChargeReading>, n: nat)
    requires Chronological(block) && 0 < n <= |block|
    ensures 0 <= IdleSeconds(block, n) <= block[n - 1].timestamp - block[0].timestamp
  {
    if n > 1 {
      IdleWithinSpan(block, n - 1);
    }
  }

  /** Time of the excursion above 90% still open after the first `n` readings. */
  function OpenHigh(block: seq<ChargeReading>, n: nat): int
    requires 0 < n <= |block|
  {
    if block[n - 1].soc > HighSoc then block[n - 1].timestamp - block[RunStart(block, n)].timestamp else 0
  }

  /**
   * Time above 90%, closed or still open, never exceeds the span of the
   * block: the excursions do not overlap.
   */
  lemma {:induction false} HighWithinSpan(block: seq<ChargeReading>, n: nat)
    requires Chronological(block) && 0 < n <= |block|
    ensures 0 <= HighSeconds(block, n) && 0 <= OpenHigh(block, n)
    ensures HighSeconds(block, n) + OpenHigh(block, n) <= block[n - 1].timestamp - block[0].timestamp
  {
    if n == 1 {
      assert HighSeconds(block, 1) == HighClosed(block, 0);
    } else {
      HighWithinSpan(block, n - 1);
      var k := n - 1;
      if block[k].soc > HighSoc && block[k - 1].soc > HighSoc {
        assert RunStart(block, n) == RunStart(block, k);
      }
    }
  }

  /** Readings that never rise above 90% accumulate no time above 90%. */
  lemma {:induction false} NeverHighNoHighTime(block: seq<ChargeReading>, n: nat)
    requires n <= |block|
    requires forall k :: 0 <= k < |block| ==> block[k].soc <= HighSoc
    ensures HighSeconds(block, n) == 0
  {
    if n > 0 {
      NeverHighNoHighTime(block, n - 1);
    }
  }

  /** Short gaps are never idle: with every gap at most 5 minutes the idle time is zero. */
  lemma {:induction false} NoLongGapNoIdle(block: seq<ChargeReading>, n: nat)
    requires n <= |block|
    requires forall k :: 0 < k < |block| ==> block[k].timestamp - block[k - 1].timestamp <= QueryWindow.MinDowntime
    ensures IdleSeconds(block, n) == 0
  {
    if n > 1 {
      NoLongGapNoIdle(block, n - 1);
    }
  }

  // ---------------------------------------------------------------------------
  // The feature gate (`add_to_prediction_features`)
  // ---------------------------------------------------------------------------

  /** Cycle count from which features are produced (the largest feature block spans 200 cycles). */
  const FirstFeatureCycle: int := 200
  /** A feature row is produced every this many cycles. */
  const FeatureEvery: int := 10

  /**
   * The recorded prediction-feature rows (device, cycle index) after one call
   * of `add_to_prediction_features`: the pair is added exactly when the cycle
   * is at least 200, a multiple of 10, not yet recorded, and the features were
   * computed and committed (`computed`; a failure is rolled back).
   */
  function AfterFeatureAttempt(recorded: set<(int, int)>, espId: int, cycle: int, computed: bool): (r: set<(int, int)>)
    ensures recorded <= r && r - recorded <= {(espId, cycle)}
    ensures (espId, cycle) in r - recorded
        <==> cycle >= FirstFeatureCycle && cycle % FeatureEvery == 0 && (espId, cycle) !in recorded && computed
  {
    if cycle < FirstFeatureCycle then recorded
    else if cycle % FeatureEvery != 0 then recorded
    else if (espId, cycle) in recorded then recorded
    else if computed then recorded + {(espId, cycle)}
    else recorded
  }

  /** The prediction_features table, identified by device and cycle index. */
  class FeatureStore {
    var recorded: set<(int, int)>

    constructor ()
      ensures recorded == {}
    {
      recorded := {};
    }

    /** `add_to_prediction_features`, its guards and the recorded row. */
    method AddToPredictionFeatures(espId: int, cycle: int, computed: bool)
      modifies this
      ensures recorded == AfterFeatureAttempt(old(recorded), espId, cycle, computed)
    {
      if cycle < FirstFeatureCycle {
        return;
      }
      if cycle % FeatureEvery != 0 {
        return;
      }
      if (espId, cycle) in recorded {
        return;
      }
      if computed {
        recorded := recorded + {(espId, cycle)};
      }
    }
  }

  /**
   * Of ten consecutive cycles from 200 on, exactly one passes the gate's
   * cycle test: a first attempt at it, with the features computed, records
   * a row.
   */
  lemma OneDueCyclePerTen(espId: int, c: int)
    requires c >= FirstFeatureCycle
    ensures |set k | c <= k < c + FeatureEvery && (espId, k) in AfterFeatureAttempt({}, espId, k, true)| == 1
  {
    var due := set k | c <= k < c + FeatureEvery && (espId, k) in AfterFeatureAttempt({}, espId, k, true);
    var tens := set k | c <= k < c + FeatureEvery && k % FeatureEvery == 0;
    forall k | c <= k < c + FeatureEvery
      ensures k in due <==> k in tens
    {
      GateCycle(espId, k);
    }
    assert due == tens;
    OneMultipleOfTen(c);
  }

  /** A first, computed attempt records a row exactly for a cycle of at least 200 divisible by 10. */
  lemma GateCycle(espId: int, k: int)
    ensures (espId, k) in AfterFeatureAttempt({}, espId, k, true) <==> k >= FirstFeatureCycle && k % FeatureEvery == 0
  {
    assert (espId, k) in AfterFeatureAttempt({}, espId, k, true) <==> (espId, k) in AfterFeatureAttempt({}, espId, k, true) - {};
  }

  /** Ten consecutive integers hold exactly one multiple of ten. */
  lemma OneMultipleOfTen(c: int)
    ensures |set k | c <= k < c + FeatureEvery && k % FeatureEvery == 0| == 1
  {
    var q := c / 10;
    assert c == 10 * q + c % 10;
    var m := if c % 10 == 0 then c else 10 * (q + 1);
    assert m % 10 == 0;
    var s := set k | c <= k < c + FeatureEvery && k % FeatureEvery == 0;
    assert m in s;
    forall k | k in s
      ensures k == m
    {
      assert k == 10 * (k / 10);
      assert m == 10 * (m / 10);
    }
    assert s == {m};
  }
}
