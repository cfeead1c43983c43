/**
 * The windowed query of the digital-twin recommendations (`get_query_size`):
 * how many of the most recent rows of a device's table are needed to cover a
 * target duration of *active* time, when readings come in bursts separated by
 * idle gaps.
 *
 * A table is modelled by its timestamp column, in seconds, in ascending order
 * (the timestamp is the table's primary key, so the values are distinct).
 * The wall-clock `datetime.now()` that seeds the cursor is a parameter.
 */
module QueryWindow {
  import opened Common

  /** A gap of this many seconds or more separates two active runs (5 minutes). */
  const MinDowntime: int := 300
  /** Number of timestamps fetched per query. */
  const BatchSize: nat := 60

  /** The timestamp column as `ORDER BY timestamp` returns it: strictly increasing. */
  ghost predicate Increasing(ts: seq<int>)
  {
    forall i, j :: 0 <= i < j < |ts| ==> ts[i] < ts[j]
  }

  function Max(a: int, b: int): int { if a < b then b else a }

  /** Number of rows with `timestamp <= cursor`: they form a prefix of the table. */
  function CountUpTo(ts: seq<int>, cursor: int): (n: nat)
    requires Increasing(ts)
    ensures n <= |ts|
    ensures forall i :: 0 <= i < n ==> ts[i] <= cursor
    ensures forall i :: n <= i < |ts| ==> cursor < ts[i]
  {
    if ts == [] || ts[|ts| - 1] <= cursor then |ts| else CountUpTo(ts[..|ts| - 1], cursor)
  }

  /** The `BatchSize` newest of `rows` (all of them when there are fewer), oldest first. */
  function LastBatch(rows: seq<int>): (b: seq<int>)
    ensures |b| == if |rows| < BatchSize then |rows| else BatchSize
  {
    if |rows| <= BatchSize then rows else rows[|rows| - BatchSize..]
  }

  /**
   * One batch: the `BatchSize` most recent timestamps at or before `cursor`
   * (`WHERE timestamp <= cursor ORDER BY timestamp DESC LIMIT 60`), re-ordered
   * oldest first.
   */
  function FetchBatch(ts: seq<int>, cursor: int): (b: seq<int>)
    requires Increasing(ts)
    ensures |b| == if CountUpTo(ts, cursor) < BatchSize then CountUpTo(ts, cursor) else BatchSize
  {
    LastBatch(ts[..CountUpTo(ts, cursor)])
  }

  /** A batch is ascending. */
  lemma BatchAscending(ts: seq<int>, cursor: int)
    requires Increasing(ts)
    ensures Increasing(FetchBatch(ts, cursor))
  {
    var n := CountUpTo(ts, cursor);
    var b := FetchBatch(ts, cursor);
    var lo := n - |b|;
    forall i, j | 0 <= i < j < |b|
      ensures b[i] < b[j]
    {
      assert b[i] == ts[lo + i] && b[j] == ts[lo + j];
    }
  }

  /** A batch holds only rows of the table at or before the cursor. */
  lemma BatchBeforeCursor(ts: seq<int>, cursor: int)
    requires Increasing(ts)
    ensures forall x :: x in FetchBatch(ts, cursor) ==> x in ts && x <= cursor
  {
    var n := CountUpTo(ts, cursor);
    var b := FetchBatch(ts, cursor);
    var lo := n - |b|;
    forall x | x in b
      ensures x in ts && x <= cursor
    {
      var k :| 0 <= k < |b| && b[k] == x;
      assert ts[lo + k] == x;
    }
  }

  /** Every row at or before the cursor that a batch leaves out is older than all of the batch. */
  lemma BatchMostRecent(ts: seq<int>, cursor: int)
    requires Increasing(ts)
    ensures forall i :: 0 <= i < |ts| && ts[i] <= cursor && ts[i] !in FetchBatch(ts, cursor) ==>
              ts[i] < FetchBatch(ts, cursor)[0]
  {
    var n := CountUpTo(ts, cursor);
    var b := FetchBatch(ts, cursor);
    var lo := n - |b|;
    forall i | 0 <= i < |ts| && ts[i] <= cursor && ts[i] !in b
      ensures ts[i] < b[0]
    {
      assert b[0] == ts[lo];
    }
  }

  /** Concatenation of runs, oldest first. */
  function Flatten(runs: seq<seq<int>>): seq<int>
  {
    if runs == [] then [] else Flatten(runs[..|runs| - 1]) + runs[|runs| - 1]
  }

  /**
   * Split an ascending batch into active runs: the next timestamp joins the
   * current run only when it follows the previous one by less than
   * `MinDowntime`; otherwise it starts a new run.
   */
  function Runs(b: seq<int>): (runs: seq<seq<int>>)
    ensures b == [] <==> runs == []
    ensures forall k :: 0 <= k < |runs| ==> runs[k] != []
  {
    if b == [] then []
    else if |b| == 1 then [b]
    else
      var prev := Runs(b[..|b| - 1]);
      var last := b[|b| - 1];
      if last - b[|b| - 2] < MinDowntime then prev[..|prev| - 1] + [prev[|prev| - 1] + [last]]
      else prev + [[last]]
  }

  /** Active time covered by one run: last minus first timestamp. */
  function Span(run: seq<int>): int
    requires run != []
  {
    run[|run| - 1] - run[0]
  }

  /** Running totals of the walk: active seconds covered and rows counted. */
  datatype Progress = Progress(covered: int, count: int)

  /**
   * Consume runs newest-first: each adds its span to the covered time and its
   * length to the count; the walk stops at the first run that makes the
   * covered time reach the target.
   */
  function Consume(runs: seq<seq<int>>, p: Progress, target: int): Progress
    requires forall k :: 0 <= k < |runs| ==> runs[k] != []
  {
    if runs == [] then p
    else
      var run := runs[|runs| - 1];
      var p' := Progress(p.covered + Span(run), p.count + |run|);
      if p'.covered >= target then p' else Consume(runs[..|runs| - 1], p', target)
  }

  /**
   * The outer loop of `get_query_size` over the rows at or before the
   * cursor: take the newest batch, consume its runs, then move the cursor to
   * the oldest fetched timestamp and take one off the count, since that row
   * is fetched again by the next batch. A short batch means the table is
   * exhausted.
   */
  /** One batch of the walk: consume the runs of batch `b` newest-first. */
  function BatchStep(b: seq<int>, p: Progress, target: int): Progress
  {
    Consume(Runs(b), p, target)
  }

  function Walk(rows: seq<int>, p: Progress, target: int): int
    decreases |rows|
  {
    if p.covered >= target then p.count
    else
      var b := LastBatch(rows);
      if b == [] then p.count
      else
        var p' := BatchStep(b, p, target);
        if |b| < BatchSize then p'.count - 1
        else Walk(rows[..|rows| - BatchSize + 1], Progress(p'.covered, p'.count - 1), target)
  }

  /** One step of the walk over a full batch: the walk continues from the batch's oldest row. */
  lemma WalkFullBatch(rows: seq<int>, p: Progress, target: int)
    requires p.covered < target && |rows| >= BatchSize
    ensures var p' := BatchStep(LastBatch(rows), p, target);
      Walk(rows, p, target) == Walk(rows[..|rows| - BatchSize + 1], Progress(p'.covered, p'.count - 1), target)
  {
    var b := LastBatch(rows);
    assert |b| == BatchSize;
  }

  /** The walk over a short, nonempty batch ends with that batch. */
  lemma WalkShortBatch(rows: seq<int>, p: Progress, target: int)
    requires p.covered < target && 0 < |rows| < BatchSize
    ensures Walk(rows, p, target) == BatchStep(rows, p, target).count - 1
  {
  }

  /**
   * The row count `get_query_size` returns: the walk over the rows at or
   * before `now`, with nothing covered and a count of 1.
   */
  function QuerySize(ts: seq<int>, now: int, target: int): int
    requires Increasing(ts)
  {
    Walk(ts[..CountUpTo(ts, now)], Progress(0, 1), target)
  }

  /**
   * The walk when fetches can raise. `fetchFails` holds the numbers (from 0)
   * of the batch fetches that raise. The first of them ends the walk, and the
   * `except` block leaves the count reached so far to be returned.
   */
  function WalkFailing(rows: seq<int>, p: Progress, target: int, batch: nat, fetchFails: set<nat>): int
    decreases |rows|
  {
    if p.covered >= target || batch in fetchFails then p.count
    else
      var b := LastBatch(rows);
      if b == [] then p.count
      else
        var p' := BatchStep(b, p, target);
        if |b| < BatchSize then p'.count - 1
        else WalkFailing(rows[..|rows| - BatchSize + 1], Progress(p'.covered, p'.count - 1), target, batch + 1, fetchFails)
  }

  /** The row count `get_query_size` returns when the fetches numbered in `fetchFails` raise. */
  function QuerySizeFailing(ts: seq<int>, now: int, target: int, fetchFails: set<nat>): int
    requires Increasing(ts)
  {
    WalkFailing(ts[..CountUpTo(ts, now)], Progress(0, 1), target, 0, fetchFails)
  }

  /** One full batch of the failing walk, fetched without a raise: the walk continues from its oldest row. */
  lemma WalkFailingFullBatch(rows: seq<int>, p: Progress, target: int, batch: nat, fetchFails: set<nat>)
    requires p.covered < target && batch !in fetchFails && |rows| >= BatchSize
    ensures var p' := BatchStep(LastBatch(rows), p, target);
      WalkFailing(rows, p, target, batch, fetchFails)
        == WalkFailing(rows[..|rows| - BatchSize + 1], Progress(p'.covered, p'.count - 1), target, batch + 1, fetchFails)
  {
    var b := LastBatch(rows);
    assert |b| == BatchSize;
  }

  /** The failing walk returns the count so far once the target is covered, the fetch raises or no rows are left. */
  lemma WalkFailingStops(rows: seq<int>, p: Progress, target: int, batch: nat, fetchFails: set<nat>)
    requires p.covered >= target || batch in fetchFails || LastBatch(rows) == []
    ensures WalkFailing(rows, p, target, batch, fetchFails) == p.count
  {
  }

  /** A short, nonempty batch fetched without a raise ends the failing walk with that batch. */
  lemma WalkFailingShortBatch(rows: seq<int>, p: Progress, target: int, batch: nat, fetchFails: set<nat>)
    requires p.covered < target && batch !in fetchFails && 0 < |rows| < BatchSize
    ensures WalkFailing(rows, p, target, batch, fetchFails) == BatchStep(rows, p, target).count - 1
  {
  }

  /** Without a raising fetch, the failing walk is the walk. */
  lemma {:induction false} WalkFailingWithoutFailures(rows: seq<int>, p: Progress, target: int, batch: nat)
    ensures WalkFailing(rows, p, target, batch, {}) == Walk(rows, p, target)
    decreases |rows|, 1
  {
    var b := LastBatch(rows);
    if p.covered >= target || b == [] {
      WalkFailingStops(rows, p, target, batch, {});
      WalkStops(rows, p, target);
    } else if |b| < BatchSize {
      WalkFailingShortBatch(rows, p, target, batch, {});
      WalkShortBatch(rows, p, target);
    } else {
      WalkFailingWithoutFailuresFull(rows, p, target, batch);
    }
  }

  /** `WalkFailingWithoutFailures` when the walk goes on past a full batch. */
  lemma {:induction false} WalkFailingWithoutFailuresFull(rows: seq<int>, p: Progress, target: int, batch: nat)
    requires p.covered < target && |rows| >= BatchSize
    ensures WalkFailing(rows, p, target, batch, {}) == Walk(rows, p, target)
    decreases |rows|, 0
  {
    var p' := BatchStep(LastBatch(rows), p, target);
    var q := Progress(p'.covered, p'.count - 1);
    var rest := rows[..|rows| - BatchSize + 1];
    assert WalkFailing(rows, p, target, batch, {}) == WalkFailing(rest, q, target, batch + 1, {}) by {
      WalkFailingFullBatch(rows, p, target, batch, {});
    }
    assert Walk(rows, p, target) == Walk(rest, q, target) by {
      WalkFullBatch(rows, p, target);
    }
    WalkFailingWithoutFailures(rest, q, target, batch + 1);
  }

  /** The walk returns the count so far once the target is covered or no rows are left. */
  lemma WalkStops(rows: seq<int>, p: Progress, target: int)
    requires p.covered >= target || LastBatch(rows) == []
    ensures Walk(rows, p, target) == p.count
  {
  }

  /**
   * A raising fetch can only cut the walk short: the count returned is at
   * least the count so far and at most the count of the walk without failures.
   */
  lemma {:induction false} WalkFailingUndercounts(rows: seq<int>, p: Progress, target: int, batch: nat, fetchFails: set<nat>)
    ensures p.count <= WalkFailing(rows, p, target, batch, fetchFails) <= Walk(rows, p, target)
    decreases |rows|, 1
  {
    var b := LastBatch(rows);
    if p.covered >= target || batch in fetchFails || b == [] {
      WalkFailingStops(rows, p, target, batch, fetchFails);
      WalkBounds(rows, p, target);
    } else if |b| < BatchSize {
      ConsumeBatchBounds(b, p, target);
      WalkFailingShortBatch(rows, p, target, batch, fetchFails);
      WalkShortBatch(rows, p, target);
    } else {
      WalkFailingUndercountsFull(rows, p, target, batch, fetchFails);
    }
  }

  /** `WalkFailingUndercounts` for a full batch fetched without a raise. */
  lemma {:induction false} WalkFailingUndercountsFull(rows: seq<int>, p: Progress, target: int, batch: nat, fetchFails: set<nat>)
    requires p.covered < target && batch !in fetchFails && |rows| >= BatchSize
    ensures p.count <= WalkFailing(rows, p, target, batch, fetchFails) <= Walk(rows, p, target)
    decreases |rows|, 0
  {
    var b := LastBatch(rows);
    var p' := BatchStep(b, p, target);
    var q := Progress(p'.covered, p'.count - 1);
    var rest := rows[..|rows| - BatchSize + 1];
    assert p.count <= q.count by {
      ConsumeBatchBounds(b, p, target);
    }
    assert WalkFailing(rows, p, target, batch, fetchFails) == WalkFailing(rest, q, target, batch + 1, fetchFails) by {
      WalkFailingFullBatch(rows, p, target, batch, fetchFails);
    }
    assert Walk(rows, p, target) == Walk(rest, q, target) by {
      WalkFullBatch(rows, p, target);
    }
    WalkFailingUndercounts(rest, q, target, batch + 1, fetchFails);
  }

  /**
   * The count returned when fetches raise lies between 1 and the count
   * without failures; it is that count when nothing raises, and 1 when the
   * first fetch raises before anything is covered.
   */
  lemma QuerySizeFailingBounds(ts: seq<int>, now: int, target: int, fetchFails: set<nat>)
    requires Increasing(ts)
    ensures 1 <= QuerySizeFailing(ts, now, target, fetchFails) <= QuerySize(ts, now, target)
    ensures fetchFails == {} ==> QuerySizeFailing(ts, now, target, fetchFails) == QuerySize(ts, now, target)
    ensures 0 in fetchFails ==> QuerySizeFailing(ts, now, target, fetchFails) == 1
  {
    var rows := ts[..CountUpTo(ts, now)];
    WalkFailingUndercounts(rows, Progress(0, 1), target, 0, fetchFails);
    if fetchFails == {} {
      WalkFailingWithoutFailures(rows, Progress(0, 1), target, 0);
    }
  }

  /** Rows at or before the timestamp of row k are exactly rows 0..k. */
  lemma CountUpToAt(ts: seq<int>, k: nat)
    requires Increasing(ts) && k < |ts|
    ensures CountUpTo(ts, ts[k]) == k + 1
  {
  }

  /** A full batch moves the cursor back: all but the boundary row of the batch drop out. */
  lemma CursorMoves(ts: seq<int>, cursor: int)
    requires Increasing(ts)
    requires |FetchBatch(ts, cursor)| == BatchSize
    ensures CountUpTo(ts, FetchBatch(ts, cursor)[0]) == CountUpTo(ts, cursor) - BatchSize + 1
  {
    var n := CountUpTo(ts, cursor);
    CountUpToAt(ts, n - BatchSize);
  }

  /** After a full batch, the rows at or before the new cursor are all but the batch's newer rows. */
  lemma CursorMovesRows(ts: seq<int>, cursor: int)
    requires Increasing(ts)
    requires |FetchBatch(ts, cursor)| == BatchSize
    ensures var rows := ts[..CountUpTo(ts, cursor)];
      ts[..CountUpTo(ts, FetchBatch(ts, cursor)[0])] == rows[..|rows| - BatchSize + 1]
  {
    CursorMoves(ts, cursor);
  }

  /** Flattening distributes over concatenation. */
  lemma {:induction false} FlattenAppend(a: seq<seq<int>>, b: seq<seq<int>>)
    ensures Flatten(a + b) == Flatten(a) + Flatten(b)
    decreases |b|
  {
    if b == [] {
      assert a + b == a;
    } else {
      var front, last := b[..|b| - 1], b[|b| - 1];
      assert b == front + [last];
      assert a + b == (a + front) + [last];
      FlattenAppend(a, front);
      FlattenSnoc(a + front, last);
      FlattenSnoc(front, last);
    }
  }

  /** Flattening one more run appends that run. */
  lemma FlattenSnoc(runs: seq<seq<int>>, run: seq<int>)
    ensures Flatten(runs + [run]) == Flatten(runs) + run
  {
    assert (runs + [run])[..|runs|] == runs;
  }

  /** The runs of a batch are the batch itself, cut into pieces: nothing is lost, duplicated or reordered. */
  lemma {:induction false} RunsFlatten(b: seq<int>)
    ensures Flatten(Runs(b)) == b
  {
    if |b| == 1 {
      assert Flatten([b]) == Flatten([]) + b;
    } else if |b| > 1 {
      var front := b[..|b| - 1];
      RunsFlatten(front);
      var prev := Runs(front);
      var x := b[|b| - 1];
      var init := prev[..|prev| - 1];
      var last := prev[|prev| - 1];
      assert prev == init + [last];
      FlattenAppend(init, [last]);
      assert Flatten([last]) == Flatten([]) + last;
      if x - b[|b| - 2] < MinDowntime {
        FlattenAppend(init, [last + [x]]);
        assert Flatten([last + [x]]) == Flatten([]) + (last + [x]);
      } else {
        FlattenAppend(prev, [[x]]);
        assert Flatten([[x]]) == Flatten([]) + [x];
      }
      assert b == front + [x];
    }
  }

  /** Consuming runs adds at least the newest run and at most every row of the runs to the count. */
  lemma {:induction false} ConsumeBounds(runs: seq<seq<int>>, p: Progress, target: int)
    requires forall k :: 0 <= k < |runs| ==> runs[k] != []
    requires runs != []
    ensures p.count + |runs[|runs| - 1]| <= Consume(runs, p, target).count <= p.count + |Flatten(runs)|
  {
    var run := runs[|runs| - 1];
    var p' := Progress(p.covered + Span(run), p.count + |run|);
    var rest := runs[..|runs| - 1];
    assert runs == rest + [run];
    FlattenAppend(rest, [run]);
    assert Flatten([run]) == Flatten([]) + run;
    if p'.covered < target && rest != [] {
      ConsumeBounds(rest, p', target);
    }
  }

  /** Consuming the runs of a nonempty batch adds at least one row and at most the whole batch. */
  lemma ConsumeBatchBounds(b: seq<int>, p: Progress, target: int)
    requires b != []
    ensures p.count + 1 <= BatchStep(b, p, target).count <= p.count + |b|
  {
    RunsFlatten(b);
    ConsumeBounds(Runs(b), p, target);
  }

  /**
   * The walk never lowers the count, and adds at most one less than the
   * number of rows at or before the cursor (the first row is already counted).
   */
  lemma {:induction false} WalkBounds(rows: seq<int>, p: Progress, target: int)
    ensures p.count <= Walk(rows, p, target) <= p.count + Max(0, |rows| - 1)
    decreases |rows|, 1
  {
    if p.covered < target && rows != [] {
      if |rows| < BatchSize {
        WalkShortBatch(rows, p, target);
        ConsumeBatchBounds(rows, p, target);
      } else {
        WalkBoundsFull(rows, p, target);
      }
    }
  }

  /** `WalkBounds` for a walk that starts with a full batch. */
  lemma {:induction false} WalkBoundsFull(rows: seq<int>, p: Progress, target: int)
    requires p.covered < target && |rows| >= BatchSize
    ensures p.count <= Walk(rows, p, target) <= p.count + |rows| - 1
    decreases |rows|, 0
  {
    var rest, q := WalkFullStep(rows, p, target);
    WalkBounds(rest, q, target);
  }

  /**
   * A full batch leaves the walk to continue over all but `BatchSize - 1`
   * rows, having counted at most `BatchSize - 1` more.
   */
  lemma WalkFullStep(rows: seq<int>, p: Progress, target: int) returns (rest: seq<int>, q: Progress)
    requires p.covered < target && |rows| >= BatchSize
    ensures |rest| == |rows| - BatchSize + 1
    ensures p.count <= q.count <= p.count + BatchSize - 1
    ensures Walk(rows, p, target) == Walk(rest, q, target)
  {
    var b := LastBatch(rows);
    WalkFullBatch(rows, p, target);
    ConsumeBatchBounds(b, p, target);
    var p' := BatchStep(b, p, target);
    rest := rows[..|rows| - BatchSize + 1];
    q := Progress(p'.covered, p'.count - 1);
  }

  /**
   * `get_query_size` returns at least 1, exactly 1 when the table holds no
   * row at or before `now` or the target is not positive, and never more
   * than the number of rows available.
   */
  lemma QuerySizeBounds(ts: seq<int>, now: int, target: int)
    requires Increasing(ts)
    ensures 1 <= QuerySize(ts, now, target) <= Max(1, CountUpTo(ts, now))
    ensures CountUpTo(ts, now) == 0 || target <= 0 ==> QuerySize(ts, now, target) == 1
  {
    WalkBounds(ts[..CountUpTo(ts, now)], Progress(0, 1), target);
  }

  /** Consecutive timestamps of a run are less than `MinDowntime` apart. */
  ghost predicate Tight(run: seq<int>)
  {
    forall i :: 0 < i < |run| ==> run[i] - run[i - 1] < MinDowntime
  }

  ghost predicate AllTight(runs: seq<seq<int>>)
  {
    forall k :: 0 <= k < |runs| ==> Tight(runs[k])
  }

  /** Each run starts at least `MinDowntime` after the previous run ends. */
  ghost predicate Separated(runs: seq<seq<int>>)
    requires forall k :: 0 <= k < |runs| ==> runs[k] != []
  {
    forall k :: 0 < k < |runs| ==> runs[k][0] - runs[k - 1][|runs[k - 1]| - 1] >= MinDowntime
  }

  /** The last run of a nonempty batch ends with the batch's last timestamp. */
  lemma LastRunEndsBatch(b: seq<int>)
    requires b != []
    ensures Runs(b)[|Runs(b)| - 1] != []
    ensures Runs(b)[|Runs(b)| - 1][|Runs(b)[|Runs(b)| - 1]| - 1] == b[|b| - 1]
  {
    var runs := Runs(b);
    var last := runs[|runs| - 1];
    RunsFlatten(b);
    assert runs == runs[..|runs| - 1] + [last];
    FlattenAppend(runs[..|runs| - 1], [last]);
    assert Flatten([last]) == Flatten([]) + last;
  }

  /** Inside each run of a batch, consecutive timestamps are less than `MinDowntime` apart. */
  lemma {:induction false} RunsAreTight(b: seq<int>)
    ensures AllTight(Runs(b))
  {
    if |b| > 1 {
      var front := b[..|b| - 1];
      RunsAreTight(front);
      LastRunEndsBatch(front);
      var prev := Runs(front);
      var x := b[|b| - 1];
      if x - b[|b| - 2] < MinDowntime {
        TightGrow(prev, x);
      } else {
        assert Tight([x]);
        assert Runs(b) == prev + [[x]];
      }
    }
  }

  lemma TightGrow(prev: seq<seq<int>>, x: int)
    requires prev != [] && prev[|prev| - 1] != [] && AllTight(prev)
    requires x - prev[|prev| - 1][|prev[|prev| - 1]| - 1] < MinDowntime
    ensures AllTight(prev[..|prev| - 1] + [prev[|prev| - 1] + [x]])
  {
    var grown := prev[|prev| - 1] + [x];
    assert Tight(grown) by {
      assert Tight(prev[|prev| - 1]);
    }
  }

  /** The last timestamp of each run of a batch is at least `MinDowntime` before the first of the next. */
  lemma {:induction false} RunsAreSeparated(b: seq<int>)
    ensures Separated(Runs(b))
  {
    if |b| > 1 {
      var front := b[..|b| - 1];
      RunsAreSeparated(front);
      LastRunEndsBatch(front);
      var prev := Runs(front);
      var x := b[|b| - 1];
      if x - b[|b| - 2] < MinDowntime {
        SeparatedGrow(prev, x);
        assert Runs(b) == prev[..|prev| - 1] + [prev[|prev| - 1] + [x]];
      } else {
        SeparatedNew(prev, x);
        assert Runs(b) == prev + [[x]];
      }
    }
  }

  lemma SeparatedGrow(prev: seq<seq<int>>, x: int)
    requires prev != [] && forall k :: 0 <= k < |prev| ==> prev[k] != []
    requires Separated(prev)
    ensures Separated(prev[..|prev| - 1] + [prev[|prev| - 1] + [x]])
  {
    var runs := prev[..|prev| - 1] + [prev[|prev| - 1] + [x]];
    forall k | 0 < k < |runs|
      ensures runs[k][0] - runs[k - 1][|runs[k - 1]| - 1] >= MinDowntime
    {
      assert runs[k - 1] == prev[k - 1];
      assert runs[k][0] == prev[k][0];
    }
  }

  lemma SeparatedNew(prev: seq<seq<int>>, x: int)
    requires prev != [] && forall k :: 0 <= k < |prev| ==> prev[k] != []
    requires Separated(prev)
    requires x - prev[|prev| - 1][|prev[|prev| - 1]| - 1] >= MinDowntime
    ensures Separated(prev + [[x]])
  {
    var runs := prev + [[x]];
    forall k | 0 < k < |runs|
      ensures runs[k][0] - runs[k - 1][|runs[k - 1]| - 1] >= MinDowntime
    {
      assert runs[k - 1] == prev[k - 1];
    }
  }

  /** Appending a timestamp either grows the last run or opens a new one. */
  lemma RunsSnoc(b: seq<int>, x: int)
    requires b != []
    ensures var prev := Runs(b);
      Runs(b + [x]) == if x - b[|b| - 1] < MinDowntime then prev[..|prev| - 1] + [prev[|prev| - 1] + [x]]
                       else prev + [[x]]
  {
    assert (b + [x])[..|b|] == b;
  }

  // ----------------------------------------------------------------------
  // What the query size covers
  // ----------------------------------------------------------------------

  /** A step between consecutive rows counts as active time when it is shorter than `MinDowntime`. */
  function Gap(a: int, b: int): int
  {
    if b - a < MinDowntime then b - a else 0
  }

  /** Active time of a stretch of rows: the sum of its steps shorter than `MinDowntime`. */
  function Active(rows: seq<int>): int
    decreases |rows|
  {
    if |rows| < 2 then 0 else Gap(rows[0], rows[1]) + Active(rows[1..])
  }

  /**
   * Where the walk may stop: the suffix of the last `m` rows starts a run of
   * its batch. It is every row, it follows a gap of `MinDowntime` or more,
   * or it starts at the oldest row of a full batch (batches overlap by one
   * row, so those lie at `60`, `60 + 59`, `60 + 2 * 59`, … rows from the end).
   */
  predicate Cut(rows: seq<int>, m: int)
  {
    && 0 < m <= |rows|
    && (|| m == |rows|
        || rows[|rows| - m] - rows[|rows| - m - 1] >= MinDowntime
        || (m >= BatchSize && (m - 1) % (BatchSize - 1) == 0))
  }

  /** The suffix of the last `j` rows of a batch starts one of its runs. */
  predicate StartsRun(b: seq<int>, j: int)
  {
    0 < j <= |b| && (j == |b| || b[|b| - j] - b[|b| - j - 1] >= MinDowntime)
  }

  /** Active time of two stretches joined end to end. */
  lemma {:induction false} ActiveJoin(a: seq<int>, c: seq<int>)
    requires a != [] && c != []
    ensures Active(a + c) == Active(a) + Gap(a[|a| - 1], c[0]) + Active(c)
    decreases |a|
  {
    if |a| == 1 {
      assert (a + c)[1..] == c;
    } else {
      assert (a + c)[1..] == a[1..] + c;
      ActiveJoin(a[1..], c);
    }
  }

  /** Active time splits at a row shared by both halves. */
  lemma ActiveSplit(x: seq<int>, i: nat, k: nat)
    requires i <= k < |x|
    ensures Active(x[i..]) == Active(x[i..k + 1]) + Active(x[k..])
  {
    if k + 1 == |x| {
      assert x[i..] == x[i..k + 1];
    } else {
      assert x[i..] == x[i..k + 1] + x[k + 1..];
      ActiveJoin(x[i..k + 1], x[k + 1..]);
      assert x[k..][1..] == x[k + 1..];
    }
  }

  /** Inside a run every step is active, so the run's span is its active time. */
  lemma {:induction false} SpanIsActive(run: seq<int>)
    requires run != [] && Tight(run)
    ensures Span(run) == Active(run)
    decreases |run|
  {
    if |run| > 1 {
      var tail := run[1..];
      assert Tight(tail) by {
        forall i | 0 < i < |tail| ensures tail[i] - tail[i - 1] < MinDowntime {
          assert tail[i] == run[i + 1] && tail[i - 1] == run[i];
        }
      }
      SpanIsActive(tail);
    }
  }

  /** The last row of flattened runs is the last row of the last run. */
  lemma FlattenLast(runs: seq<seq<int>>)
    requires runs != [] && runs[|runs| - 1] != []
    ensures var f := Flatten(runs); var l := runs[|runs| - 1];
      |f| >= |l| && f[|f| - |l|..] == l
  {
  }

  /**
   * Taking the newest `j` rows of `f` from progress `p` gives `q`: the suffix
   * starts a run, the count grows by `j` and the covered time by the
   * suffix's active time, `q` reaches the target or every row is taken, and
   * every shorter suffix that starts a run falls short of the target.
   */
  ghost predicate Covers(f: seq<int>, j: int, p: Progress, q: Progress, target: int)
  {
    && StartsRun(f, j)
    && q == Progress(p.covered + Active(f[|f| - j..]), p.count + j)
    && (q.covered >= target || j == |f|)
    && forall j' {:trigger StartsRun(f, j')} :: StartsRun(f, j') && j' < j ==> p.covered + Active(f[|f| - j'..]) < target
  }

  /**
   * Consuming runs newest-first takes a suffix of their rows that starts a
   * run: the count grows by its length and the covered time by its active
   * time; it reaches the target or takes every row; and every shorter
   * suffix that starts a run falls short of the target.
   */
  lemma {:induction false} ConsumeCovers(runs: seq<seq<int>>, f: seq<int>, p: Progress, target: int) returns (j: nat)
    requires runs != [] && forall k :: 0 <= k < |runs| ==> runs[k] != []
    requires AllTight(runs) && Separated(runs) && f == Flatten(runs)
    ensures Covers(f, j, p, Consume(runs, p, target), target)
    decreases |runs|
  {
    var last := runs[|runs| - 1];
    var rest := runs[..|runs| - 1];
    var p' := Progress(p.covered + Span(last), p.count + |last|);
    if p'.covered >= target || rest == [] {
      j := ConsumeStop(runs, f, p, target);
    } else {
      RestSeparated(runs);
      var j0 := ConsumeCovers(rest, Flatten(rest), p', target);
      j := ConsumeOn(runs, f, p, target, j0);
    }
  }

  /** `ConsumeCovers` when the walk stops at the newest run. */
  lemma ConsumeStop(runs: seq<seq<int>>, f: seq<int>, p: Progress, target: int) returns (j: nat)
    requires runs != [] && forall k :: 0 <= k < |runs| ==> runs[k] != []
    requires AllTight(runs) && Separated(runs) && f == Flatten(runs)
    requires var last := runs[|runs| - 1]; p.covered + Span(last) >= target || |runs| == 1
    ensures Covers(f, j, p, Consume(runs, p, target), target)
  {
    var last := runs[|runs| - 1];
    var f0 := PeelRun(runs, f);
    var p' := Progress(p.covered + Active(last), p.count + |last|);
    j := |last|;
    ConsumeLast(f0, last, f, p, p', target);
    assert Consume(runs, p, target) == p';
  }

  /** `ConsumeCovers` when the walk goes on past the newest run, from what it gives on the older runs. */
  lemma ConsumeOn(runs: seq<seq<int>>, f: seq<int>, p: Progress, target: int, j0: nat) returns (j: nat)
    requires |runs| >= 2 && forall k :: 0 <= k < |runs| ==> runs[k] != []
    requires AllTight(runs) && Separated(runs) && f == Flatten(runs)
    requires var last := runs[|runs| - 1]; p.covered + Span(last) < target
    requires var last := runs[|runs| - 1]; var p' := Progress(p.covered + Span(last), p.count + |last|);
      var rest := runs[..|runs| - 1];
      Covers(Flatten(rest), j0, p', Consume(rest, p', target), target)
    ensures Covers(f, j, p, Consume(runs, p, target), target)
  {
    var last := runs[|runs| - 1];
    var rest := runs[..|runs| - 1];
    var f0 := PeelRun(runs, f);
    var p' := Progress(p.covered + Active(last), p.count + |last|);
    var q := Consume(rest, p', target);
    assert Consume(runs, p, target) == q;
    j := j0 + |last|;
    ConsumeJoin(f0, last, f, j0, p, p', q, target);
  }

  /**
   * Split flattened runs into the older runs' rows and the newest run: the
   * newest run is tight, its span is its active time, no suffix inside it
   * starts a run, and the older runs are tight, separated and end a long gap
   * before it.
   */
  lemma PeelRun(runs: seq<seq<int>>, f: seq<int>) returns (f0: seq<int>)
    requires runs != [] && forall k :: 0 <= k < |runs| ==> runs[k] != []
    requires AllTight(runs) && Separated(runs) && f == Flatten(runs)
    ensures var last := runs[|runs| - 1]; var rest := runs[..|runs| - 1];
      && f0 == Flatten(rest) && f == f0 + last
      && Tight(last) && Span(last) == Active(last)
      && (forall j' :: 0 < j' < |last| ==> !StartsRun(f, j'))
      && (rest != [] ==>
            && f0 != [] && AllTight(rest) && Separated(rest)
            && last[0] - f0[|f0| - 1] >= MinDowntime)
  {
    var last := runs[|runs| - 1];
    var rest := runs[..|runs| - 1];
    assert runs == rest + [last];
    FlattenAppend(rest, [last]);
    assert Flatten([last]) == Flatten([]) + last;
    f0 := Flatten(rest);
    assert Tight(last);
    SpanIsActive(last);
    NoStartInsideRun(f0, last);
    if rest != [] {
      RestSeparated(runs);
      FlattenLast(rest);
    }
  }

  /** The newest run alone, seen on `f0 + last`: its rows start a run and no shorter suffix does. */
  lemma ConsumeLast(f0: seq<int>, last: seq<int>, f: seq<int>, p: Progress, p': Progress, target: int)
    requires last != [] && f == f0 + last
    requires f0 != [] ==> last[0] - f0[|f0| - 1] >= MinDowntime
    requires forall j' :: 0 < j' < |last| ==> !StartsRun(f, j')
    requires p' == Progress(p.covered + Active(last), p.count + |last|)
    requires p'.covered >= target || f0 == []
    ensures Covers(f, |last|, p, p', target)
  {
    assert forall j' :: StartsRun(f, j') ==> |last| <= j';
    assert Active(f[|f| - |last|..]) == Active(last) by {
      assert f[|f| - |last|..] == last;
    }
    assert StartsRun(f, |last|) by {
      if f0 != [] {
        assert f[|f| - |last|] == last[0] && f[|f| - |last| - 1] == f0[|f0| - 1];
      }
    }
  }

  /** Cutting a run's rows short never starts a run: its steps are all short. */
  lemma NoStartInsideRun(f0: seq<int>, last: seq<int>)
    requires last != [] && Tight(last)
    ensures forall j' :: 0 < j' < |last| ==> !StartsRun(f0 + last, j')
  {
    var f := f0 + last;
    forall j' | 0 < j' < |last|
      ensures !StartsRun(f, j')
    {
      var k := |last| - j';
      assert f[|f| - j'] == last[k] && f[|f| - j' - 1] == last[k - 1];
    }
  }

  /** Dropping the newest run keeps the runs tight and separated, and the newest run follows a long gap. */
  lemma RestSeparated(runs: seq<seq<int>>)
    requires |runs| >= 2 && forall k :: 0 <= k < |runs| ==> runs[k] != []
    requires AllTight(runs) && Separated(runs)
    ensures var rest := runs[..|runs| - 1];
      && AllTight(rest) && Separated(rest)
      && runs[|runs| - 1][0] - rest[|rest| - 1][|rest[|rest| - 1]| - 1] >= MinDowntime
  {
    var rest := runs[..|runs| - 1];
    assert forall k :: 0 <= k < |rest| ==> rest[k] == runs[k];
  }

  /**
   * The step of `ConsumeCovers` past the newest run: what consuming the
   * older runs `f0` gives, seen on `f0 + last`.
   */
  lemma ConsumeJoin(f0: seq<int>, last: seq<int>, f: seq<int>, j0: nat, p: Progress, p': Progress, q: Progress, target: int)
    requires f0 != [] && last != [] && f == f0 + last && last[0] - f0[|f0| - 1] >= MinDowntime
    requires forall j' :: 0 < j' < |last| ==> !StartsRun(f, j')
    requires p' == Progress(p.covered + Active(last), p.count + |last|) && p'.covered < target
    requires Covers(f0, j0, p', q, target)
    ensures Covers(f, j0 + |last|, p, q, target)
  {
    StartsShift(f0, last, f, j0);
    JoinedSuffix(f0, last, f, j0);
    JoinMinimal(f0, last, f, j0, p, p', target);
  }

  /** Below the newest run, a suffix of `f0 + last` starts a run exactly when the matching suffix of `f0` does. */
  lemma StartsShift(f0: seq<int>, last: seq<int>, f: seq<int>, i: int)
    requires f0 != [] && last != [] && f == f0 + last && last[0] - f0[|f0| - 1] >= MinDowntime
    requires 0 < i <= |f0|
    ensures StartsRun(f, i + |last|) <==> StartsRun(f0, i)
  {
    if i < |f0| {
      assert f[|f| - (i + |last|)] == f0[|f0| - i] && f[|f| - (i + |last|) - 1] == f0[|f0| - i - 1];
    }
  }

  /** Minimality carries over from the older runs `f0` to `f0 + last`. */
  lemma JoinMinimal(f0: seq<int>, last: seq<int>, f: seq<int>, j0: int, p: Progress, p': Progress, target: int)
    requires f0 != [] && last != [] && f == f0 + last && last[0] - f0[|f0| - 1] >= MinDowntime
    requires forall j' :: 0 < j' < |last| ==> !StartsRun(f, j')
    requires p' == Progress(p.covered + Active(last), p.count + |last|) && p'.covered < target
    requires 0 < j0 <= |f0|
    requires forall j' {:trigger StartsRun(f0, j')} :: StartsRun(f0, j') && j' < j0 ==> p'.covered + Active(f0[|f0| - j'..]) < target
    ensures forall j' {:trigger StartsRun(f, j')} :: StartsRun(f, j') && j' < j0 + |last| ==> p.covered + Active(f[|f| - j'..]) < target
  {
    forall j' | StartsRun(f, j') && j' < j0 + |last|
      ensures p.covered + Active(f[|f| - j'..]) < target
    {
      if j' == |last| {
        assert f[|f| - j'..] == last;
      } else {
        var i := j' - |last|;
        StartsShift(f0, last, f, i);
        JoinedSuffix(f0, last, f, i);
      }
    }
  }

  /** A suffix of `f0 + last` reaching into `f0` is a suffix of `f0` followed by `last`, with no active time at the long gap between them. */
  lemma JoinedSuffix(f0: seq<int>, last: seq<int>, f: seq<int>, i: nat)
    requires f0 != [] && last != [] && f == f0 + last && last[0] - f0[|f0| - 1] >= MinDowntime
    requires 0 < i <= |f0|
    ensures Active(f[|f| - (i + |last|)..]) == Active(f0[|f0| - i..]) + Active(last)
  {
    assert f[|f| - (i + |last|)..] == f0[|f0| - i..] + last;
    ActiveJoin(f0[|f0| - i..], last);
  }

  /** `ConsumeCovers` for the runs of one batch, seen on the batch itself. */
  lemma ConsumeBatch(b: seq<int>, p: Progress, target: int) returns (j: nat)
    requires b != []
    ensures Covers(b, j, p, BatchStep(b, p, target), target)
  {
    RunsFlatten(b);
    RunsAreTight(b);
    RunsAreSeparated(b);
    j := ConsumeCovers(Runs(b), b, p, target);
  }

  /**
   * The state of the walk over `rows` when `rows[..r]` is still to be
   * fetched: the last `|rows| - r + 1` rows are counted (the newest row of
   * `rows[..r]` is counted already and fetched again), their active time is
   * covered and falls short of the target, whole batches lie behind, and no
   * stopping point passed so far reached the target.
   */
  ghost predicate WalkedTo(rows: seq<int>, r: nat, p: Progress, target: int)
  {
    && 1 <= r <= |rows|
    && p.count == |rows| - r + 1
    && p.covered == Active(rows[r - 1..])
    && p.covered < target
    && (|rows| - r) % (BatchSize - 1) == 0
    && forall m {:trigger Cut(rows, m)} :: Cut(rows, m) && m <= |rows| - r + 1 ==> Active(rows[|rows| - m..]) < target
  }

  /**
   * The last `m` rows are the least stopping point whose active time
   * reaches the target, or every row when none does.
   */
  ghost predicate LeastCover(rows: seq<int>, m: int, target: int)
  {
    && Cut(rows, m)
    && (Active(rows[|rows| - m..]) >= target || m == |rows|)
    && forall m' {:trigger Cut(rows, m')} :: Cut(rows, m') && m' < m ==> Active(rows[|rows| - m'..]) < target
  }

  /** Stepping from one batch boundary to the next keeps the boundary pattern. */
  lemma NextBoundary(a: int, d: int)
    requires a >= 0 && a % (BatchSize - 1) == 0
    ensures (a + BatchSize - 1) % (BatchSize - 1) == 0
    ensures 0 < d < BatchSize - 1 ==> (a + d) % (BatchSize - 1) != 0
  {
  }

  /**
   * One batch of the walk, seen on the whole of `rows`: after consuming the
   * newest `j` rows of the batch the count and covered time are those of the
   * last `|rows| - r + j` rows, that suffix is a stopping point, and every
   * earlier stopping point falls short of the target.
   */
  lemma BatchReach(rows: seq<int>, r: nat, p: Progress, target: int, j: nat, q: Progress)
    requires WalkedTo(rows, r, p, target)
    requires Covers(LastBatch(rows[..r]), j, p, q, target)
    ensures j <= r && q.covered == Active(rows[r - j..]) && q.count - 1 == |rows| - r + j
    ensures Cut(rows, |rows| - r + j)
    ensures forall m {:trigger Cut(rows, m)} :: Cut(rows, m) && m < |rows| - r + j ==> Active(rows[|rows| - m..]) < target
  {
    BatchSuffix(rows, r, j);
    BatchCut(rows, r, j);
    forall m | Cut(rows, m) && m < |rows| - r + j
      ensures Active(rows[|rows| - m..]) < target
    {
      if m > |rows| - r + 1 {
        BatchMinimalAt(rows, r, p, target, j, q, m);
      }
    }
  }

  /** The newest `i` rows of the batch fetched at `r` are `rows[r - i..r]`, and they start a run when a long gap precedes them. */
  lemma BatchSuffix(rows: seq<int>, r: int, i: int)
    requires 1 <= r <= |rows| && 0 < i <= |LastBatch(rows[..r])|
    ensures var b := LastBatch(rows[..r]);
      && i <= r
      && Active(rows[r - i..]) == Active(b[|b| - i..]) + Active(rows[r - 1..])
      && (StartsRun(b, i) <==> (i == |b| || rows[r - i] - rows[r - i - 1] >= MinDowntime))
  {
    var b := LastBatch(rows[..r]);
    BatchIsSlice(rows, r);
    SliceActive(rows, r, b, i);
    SliceStarts(rows, r, b, i);
  }

  /** The batch fetched at `r` is the slice of `rows` just before `r`. */
  lemma BatchIsSlice(rows: seq<int>, r: int)
    requires 1 <= r <= |rows|
    ensures var b := LastBatch(rows[..r]); |b| <= r && b == rows[r - |b|..r]
  {
  }

  /** Active time of the newest `i` rows of a slice ending at `r`, extended to the end of `rows`. */
  lemma SliceActive(rows: seq<int>, r: int, b: seq<int>, i: int)
    requires 1 <= r <= |rows| && |b| <= r && b == rows[r - |b|..r] && 0 < i <= |b|
    ensures Active(rows[r - i..]) == Active(b[|b| - i..]) + Active(rows[r - 1..])
  {
    assert b[|b| - i..] == rows[r - i..r];
    ActiveSplit(rows, r - i, r - 1);
  }

  /** The newest `i` rows of a slice ending at `r` start a run when a long gap precedes them in `rows`. */
  lemma SliceStarts(rows: seq<int>, r: int, b: seq<int>, i: int)
    requires 1 <= r <= |rows| && |b| <= r && b == rows[r - |b|..r] && 0 < i <= |b|
    ensures StartsRun(b, i) <==> (i == |b| || rows[r - i] - rows[r - i - 1] >= MinDowntime)
  {
    if i < |b| {
      assert b[|b| - i] == rows[r - i] && b[|b| - i - 1] == rows[r - i - 1];
    }
  }

  /** Where the walk stops inside a batch is a stopping point of the whole of `rows`. */
  lemma BatchCut(rows: seq<int>, r: int, j: int)
    requires 1 <= r <= |rows| && |rows| - r >= 0 && (|rows| - r) % (BatchSize - 1) == 0
    requires StartsRun(LastBatch(rows[..r]), j)
    ensures Cut(rows, |rows| - r + j)
  {
    BatchSuffix(rows, r, j);
    NextBoundary(|rows| - r, 0);
  }

  /** A stopping point the walk passes inside a batch falls short of the target. */
  lemma BatchMinimalAt(rows: seq<int>, r: nat, p: Progress, target: int, j: nat, q: Progress, m: int)
    requires 1 <= r <= |rows| && (|rows| - r) % (BatchSize - 1) == 0
    requires p.covered == Active(rows[r - 1..])
    requires Covers(LastBatch(rows[..r]), j, p, q, target)
    requires Cut(rows, m) && |rows| - r + 1 < m < |rows| - r + j
    ensures Active(rows[|rows| - m..]) < target
  {
    var n := |rows|;
    var b := LastBatch(rows[..r]);
    var i := m - (n - r);
    assert rows[r - i] - rows[r - i - 1] >= MinDowntime by {
      NextBoundary(n - r, i - 1);
    }
    BatchSuffix(rows, r, i);
  }

  /** The walk from `WalkedTo` ends at the least stopping point that covers the target, or at every row. */
  lemma {:induction false} WalkCovers(rows: seq<int>, r: nat, p: Progress, target: int) returns (m: int)
    requires WalkedTo(rows, r, p, target)
    ensures m == Walk(rows[..r], p, target) && LeastCover(rows, m, target)
    decreases r
  {
    var done, m0, r', p' := WalkStep(rows, r, p, target);
    if done {
      m := m0;
    } else {
      m := WalkCovers(rows, r', p', target);
    }
  }

  /**
   * One batch of the walk from `WalkedTo`: either the walk stops in it, at
   * the least stopping point that covers the target or at every row, or it
   * goes on from `WalkedTo` at the batch's oldest row.
   */
  lemma WalkStep(rows: seq<int>, r: nat, p: Progress, target: int) returns (done: bool, m: int, r': nat, p': Progress)
    requires WalkedTo(rows, r, p, target)
    ensures done ==> m == Walk(rows[..r], p, target) && LeastCover(rows, m, target)
    ensures !done ==> r' < r && WalkedTo(rows, r', p', target) && Walk(rows[..r], p, target) == Walk(rows[..r'], p', target)
  {
    var b := LastBatch(rows[..r]);
    var q := BatchStep(b, p, target);
    done := !(|b| == BatchSize && q.covered < target);
    if done {
      m := WalkStop(rows, r, p, target);
      r', p' := r, p;
    } else {
      m := 0;
      r', p' := WalkNext(rows, r, p, target);
    }
  }

  /** The walk stops in the batch fetched at `r`: where it stops is the least stopping point that covers the target, or every row. */
  lemma WalkStop(rows: seq<int>, r: nat, p: Progress, target: int) returns (m: int)
    requires WalkedTo(rows, r, p, target)
    requires var b := LastBatch(rows[..r]); |b| < BatchSize || BatchStep(b, p, target).covered >= target
    ensures m == Walk(rows[..r], p, target) && LeastCover(rows, m, target)
  {
    var b := LastBatch(rows[..r]);
    var j := ConsumeBatch(b, p, target);
    var q := BatchStep(b, p, target);
    BatchReach(rows, r, p, target, j, q);
    WalkLastBatch(rows[..r], p, target);
    m := |rows| - r + j;
  }

  /** Where the walk ends when it stops in the newest batch of `seen`. */
  lemma WalkLastBatch(seen: seq<int>, p: Progress, target: int)
    requires seen != [] && p.covered < target
    requires var b := LastBatch(seen); |b| < BatchSize || BatchStep(b, p, target).covered >= target
    ensures Walk(seen, p, target) == BatchStep(LastBatch(seen), p, target).count - 1
  {
    var q := BatchStep(LastBatch(seen), p, target);
    if |LastBatch(seen)| == BatchSize {
      WalkFullBatch(seen, p, target);
      assert Walk(seen[..|seen| - BatchSize + 1], Progress(q.covered, q.count - 1), target) == q.count - 1;
    } else {
      WalkShortBatch(seen, p, target);
    }
  }

  /** The walk goes on past the batch fetched at `r`: it continues from `WalkedTo` at the batch's oldest row. */
  lemma WalkNext(rows: seq<int>, r: nat, p: Progress, target: int) returns (r': nat, p': Progress)
    requires WalkedTo(rows, r, p, target)
    requires var b := LastBatch(rows[..r]); |b| == BatchSize && BatchStep(b, p, target).covered < target
    ensures r' < r
    ensures var q := BatchStep(LastBatch(rows[..r]), p, target); p' == Progress(q.covered, q.count - 1)
    ensures WalkedTo(rows, r', p', target) && Walk(rows[..r], p, target) == Walk(rows[..r'], p', target)
  {
    var seen := rows[..r];
    var b := LastBatch(seen);
    var j := ConsumeBatch(b, p, target);
    var q := BatchStep(b, p, target);
    BatchReach(rows, r, p, target, j, q);
    r' := r - BatchSize + 1;
    p' := Progress(q.covered, q.count - 1);
    NextWalkedTo(rows, r, target, j, q);
    WalkFullBatch(seen, p, target);
    assert seen[..|seen| - BatchSize + 1] == rows[..r'];
  }

  /** After a whole batch that falls short, the walk is at the batch's oldest row with every stopping point so far short of the target. */
  lemma NextWalkedTo(rows: seq<int>, r: int, target: int, j: int, q: Progress)
    requires BatchSize <= r <= |rows| && (|rows| - r) % (BatchSize - 1) == 0 && j == BatchSize
    requires q.covered < target && q.covered == Active(rows[r - j..]) && q.count - 1 == |rows| - r + j
    requires forall m :: Cut(rows, m) && m < |rows| - r + j ==> Active(rows[|rows| - m..]) < target
    ensures WalkedTo(rows, r - BatchSize + 1, Progress(q.covered, q.count - 1), target)
  {
    NextBoundary(|rows| - r, 0);
  }

  /**
   * `get_query_size` with a positive target over a nonempty table: the rows
   * it counts are the least stopping point of the walk whose active time
   * reaches the target, or every row at or before `now` when none does.
   * Stopping one run earlier would fall short.
   */
  lemma QuerySizeIsLeastCover(ts: seq<int>, now: int, target: int)
    requires Increasing(ts) && target > 0 && CountUpTo(ts, now) > 0
    ensures LeastCover(ts[..CountUpTo(ts, now)], QuerySize(ts, now, target), target)
  {
    var rows := ts[..CountUpTo(ts, now)];
    var n := |rows|;
    assert |rows[n - 1..]| == 1;
    assert rows[..n] == rows;
    var m := WalkCovers(rows, n, Progress(0, 1), target);
  }

  /**
   * What `get_query_size` promises: the newest `QuerySize` rows at or before
   * `now` hold at least `target` seconds of active time, or they are every
   * such row (and at least one row is always asked for).
   */
  lemma QuerySizeCoversTarget(ts: seq<int>, now: int, target: int)
    requires Increasing(ts)
    ensures var rows := ts[..CountUpTo(ts, now)]; var m := QuerySize(ts, now, target);
      || m == Max(1, |rows|)
      || (0 <= m <= |rows| && Active(rows[|rows| - m..]) >= target)
  {
    QuerySizeBounds(ts, now, target);
    var rows := ts[..CountUpTo(ts, now)];
    if target > 0 && rows != [] {
      QuerySizeIsLeastCover(ts, now, target);
    } else if rows != [] {
      assert |rows[|rows| - 1..]| == 1;
    }
  }

  /** A longer target never asks for fewer rows. */
  lemma QuerySizeMonotone(ts: seq<int>, now: int, target1: int, target2: int)
    requires Increasing(ts) && target1 <= target2
    ensures QuerySize(ts, now, target1) <= QuerySize(ts, now, target2)
  {
    QuerySizeBounds(ts, now, target1);
    QuerySizeBounds(ts, now, target2);
    if target1 > 0 && CountUpTo(ts, now) > 0 {
      QuerySizeIsLeastCover(ts, now, target1);
      QuerySizeIsLeastCover(ts, now, target2);
    }
  }

  /** The runs of the first rows of the example below, one row at a time. */
  lemma ExampleRuns2()
    ensures Runs([0, 60]) == [[0, 60]]
  {
    RunsSnoc([0], 60);
    assert [0] + [60] == [0, 60];
    var prev := [[0]];
    assert prev[..0] == [];
    assert prev[0] + [60] == [0, 60];
    assert prev[..0] + [prev[0] + [60]] == [[0, 60]];
  }

  lemma ExampleRuns3()
    ensures Runs([0, 60, 120]) == [[0, 60, 120]]
  {
    ExampleRuns2();
    RunsSnoc([0, 60], 120);
    assert [0, 60] + [120] == [0, 60, 120];
    var prev := [[0, 60]];
    assert prev[..0] == [];
    assert prev[0] + [120] == [0, 60, 120];
    assert prev[..0] + [prev[0] + [120]] == [[0, 60, 120]];
  }

  lemma ExampleRuns4()
    ensures Runs([0, 60, 120, 1380]) == [[0, 60, 120], [1380]]
  {
    ExampleRuns3();
    RunsSnoc([0, 60, 120], 1380);
    assert [0, 60, 120] + [1380] == [0, 60, 120, 1380];
    assert [[0, 60, 120]] + [[1380]] == [[0, 60, 120], [1380]];
  }

  lemma ExampleRuns5()
    ensures Runs([0, 60, 120, 1380, 1440]) == [[0, 60, 120], [1380, 1440]]
  {
    ExampleRuns4();
    RunsSnoc([0, 60, 120, 1380], 1440);
    assert [0, 60, 120, 1380] + [1440] == [0, 60, 120, 1380, 1440];
    var prev := [[0, 60, 120], [1380]];
    assert prev[..1] == [[0, 60, 120]];
    assert prev[1] + [1440] == [1380, 1440];
    assert prev[..1] + [prev[1] + [1440]] == [[0, 60, 120], [1380, 1440]];
  }

  lemma ExampleRuns6()
    ensures Runs([0, 60, 120, 1380, 1440, 1500]) == [[0, 60, 120], [1380, 1440, 1500]]
  {
    ExampleRuns5();
    RunsSnoc([0, 60, 120, 1380, 1440], 1500);
    assert [0, 60, 120, 1380, 1440] + [1500] == [0, 60, 120, 1380, 1440, 1500];
    var prev := [[0, 60, 120], [1380, 1440]];
    assert prev[..1] == [[0, 60, 120]];
    assert prev[1] + [1500] == [1380, 1440, 1500];
    assert prev[..1] + [prev[1] + [1500]] == [[0, 60, 120], [1380, 1440, 1500]];
  }

  lemma ExampleRuns7()
    ensures Runs([0, 60, 120, 1380, 1440, 1500, 1560]) == [[0, 60, 120], [1380, 1440, 1500, 1560]]
  {
    ExampleRuns6();
    RunsSnoc([0, 60, 120, 1380, 1440, 1500], 1560);
    assert [0, 60, 120, 1380, 1440, 1500] + [1560] == [0, 60, 120, 1380, 1440, 1500, 1560];
    var prev := [[0, 60, 120], [1380, 1440, 1500]];
    assert prev[..1] == [[0, 60, 120]];
    assert prev[1] + [1560] == [1380, 1440, 1500, 1560];
    assert prev[..1] + [prev[1] + [1560]] == [[0, 60, 120], [1380, 1440, 1500, 1560]];
  }

  /**
   * Rows at minutes 0, 1, 2 and 23, 24, 25, 26 with a 5-hour target: the two
   * runs cover 3 + 4 minutes of active time, which never reaches the target,
   * so the walk exhausts the table and counts all 7 rows (the initial count
   * of 1 is cancelled by the final decrement).
   */
  lemma SevenRowsExample(now: int)
    requires now >= 1560
    ensures Increasing([0, 60, 120, 1380, 1440, 1500, 1560])
    ensures QuerySize([0, 60, 120, 1380, 1440, 1500, 1560], now, 5 * 3600) == 7
  {
    var ts := [0, 60, 120, 1380, 1440, 1500, 1560];
    assert CountUpTo(ts, now) == 7;
    assert ts[..7] == ts;
    ExampleRuns7();
    var runs := [[0, 60, 120], [1380, 1440, 1500, 1560]];
    assert runs[..1] == [[0, 60, 120]];
    assert Consume(runs, Progress(0, 1), 18000) == Progress(300, 8);
  }

  /** The chunking loop of `get_query_size`: split an ascending batch into its runs. */
  method SplitIntoRuns(timestamps: seq<int>) returns (chunks: seq<seq<int>>)
    requires timestamps != []
    ensures chunks == Runs(timestamps)
  {
    chunks := [];
    var current := [timestamps[0]];
    var i := 1;
    assert timestamps[..1] == [timestamps[0]];
    while i < |timestamps|
      invariant 1 <= i <= |timestamps|
      invariant chunks + [current] == Runs(timestamps[..i])
    {
      assert timestamps[..i + 1][..i] == timestamps[..i];
      ghost var before := chunks + [current];
      assert before[..|before| - 1] == chunks;
      if timestamps[i] - timestamps[i - 1] < MinDowntime {
        current := current + [timestamps[i]];
      } else {
        chunks := chunks + [current];
        current := [timestamps[i]];
      }
      i := i + 1;
    }
    assert timestamps[..i] == timestamps;
    chunks := chunks + [current];
  }

  /** The inner loop of `get_query_size`: consume runs newest-first until the target is reached. */
  method ConsumeNewestFirst(chunks: seq<seq<int>>, cumulative0: int, querySize0: int, target: int)
    returns (cumulative: int, querySize: int)
    requires forall k :: 0 <= k < |chunks| ==> chunks[k] != []
    ensures Progress(cumulative, querySize) == Consume(chunks, Progress(cumulative0, querySize0), target)
  {
    cumulative, querySize := cumulative0, querySize0;
    var j := |chunks|;
    assert chunks[..j] == chunks;
    while j > 0
      invariant 0 <= j <= |chunks|
      invariant Consume(chunks[..j], Progress(cumulative, querySize), target)
             == Consume(chunks, Progress(cumulative0, querySize0), target)
    {
      var chunk := chunks[j - 1];
      assert chunks[..j][..j - 1] == chunks[..j - 1];
      cumulative := cumulative + (chunk[|chunk| - 1] - chunk[0]);
      querySize := querySize + |chunk|;
      if cumulative >= target {
        return;
      }
      j := j - 1;
    }
  }

  /** One fetched, nonempty batch: split it into runs and consume them newest-first. */
  method ConsumeFetched(timestamps: seq<int>, cumulative0: int, querySize0: int, target: int)
    returns (cumulative: int, querySize: int)
    requires timestamps != []
    ensures Progress(cumulative, querySize) == BatchStep(timestamps, Progress(cumulative0, querySize0), target)
  {
    var chunks := SplitIntoRuns(timestamps);
    cumulative, querySize := ConsumeNewestFirst(chunks, cumulative0, querySize0, target);
  }

  /**
   * One round of the outer loop of `get_query_size` from the cursor
   * `lastTimestamp`: the fetch raises (its number is in `fetchFails`), comes
   * back empty or short, and the loop ends; or a full batch is consumed and
   * the cursor moves to its oldest row.
   */
  method FetchRound(ts: seq<int>, target: int, fetchFails: set<nat>, batch: nat,
                    lastTimestamp: int, cumulative: int, querySize: int, ghost rows: seq<int>)
    returns (done: bool, lastTimestamp': int, cumulative': int, querySize': int, ghost rows': seq<int>)
    requires Increasing(ts) && rows == ts[..CountUpTo(ts, lastTimestamp)] && cumulative < target
    ensures done ==> querySize' == WalkFailing(rows, Progress(cumulative, querySize), target, batch, fetchFails)
    ensures !done ==> && rows' == ts[..CountUpTo(ts, lastTimestamp')] && |rows'| < |rows|
                      && WalkFailing(rows', Progress(cumulative', querySize'), target, batch + 1, fetchFails)
                         == WalkFailing(rows, Progress(cumulative, querySize), target, batch, fetchFails)
  {
    ghost var p := Progress(cumulative, querySize);
    done, lastTimestamp', cumulative', querySize', rows' := true, lastTimestamp, cumulative, querySize, rows;
    if batch in fetchFails {
      WalkFailingStops(rows, p, target, batch, fetchFails);
      return;
    }
    var timestamps := FetchBatch(ts, lastTimestamp);
    assert timestamps == LastBatch(rows);
    if timestamps == [] {
      WalkFailingStops(rows, p, target, batch, fetchFails);
      return;
    }
    cumulative', querySize' := ConsumeFetched(timestamps, cumulative, querySize, target);
    lastTimestamp' := timestamps[0];
    querySize' := querySize' - 1;
    if |timestamps| < BatchSize {
      WalkFailingShortBatch(rows, p, target, batch, fetchFails);
      return;
    }
    done := false;
    rows' := rows[..|rows| - BatchSize + 1];
    assert rows' == ts[..CountUpTo(ts, lastTimestamp')] by {
      CursorMovesRows(ts, lastTimestamp);
    }
    assert WalkFailing(rows', Progress(cumulative', querySize'), target, batch + 1, fetchFails)
        == WalkFailing(rows, p, target, batch, fetchFails) by {
      WalkFailingFullBatch(rows, p, target, batch, fetchFails);
    }
  }

  /**
   * `get_query_size` as the loop it is: batches of timestamps are fetched
   * newest-first from a moving cursor, split into runs, and consumed
   * newest-first until the covered active time reaches the target. A fetch
   * numbered in `fetchFails` raises; the `except` block catches it and the
   * count reached so far is returned.
   */
  method GetQuerySize(ts: seq<int>, now: int, target: int, fetchFails: set<nat>) returns (querySize: int)
    requires Increasing(ts)
    ensures querySize == QuerySizeFailing(ts, now, target, fetchFails)
    ensures 1 <= querySize <= QuerySize(ts, now, target) <= Max(1, CountUpTo(ts, now))
    ensures fetchFails == {} ==> querySize == QuerySize(ts, now, target)
  {
    QuerySizeBounds(ts, now, target);
    QuerySizeFailingBounds(ts, now, target, fetchFails);
    var lastTimestamp := now;
    var cumulative := 0;
    querySize := 1;
    var batch := 0;
    ghost var rows := ts[..CountUpTo(ts, now)];
    ghost var stopped := false;
    while cumulative < target
      invariant rows == ts[..CountUpTo(ts, lastTimestamp)]
      invariant WalkFailing(rows, Progress(cumulative, querySize), target, batch, fetchFails)
             == QuerySizeFailing(ts, now, target, fetchFails)
      invariant !stopped
      decreases |rows|
    {
      var done;
      done, lastTimestamp, cumulative, querySize, rows :=
        FetchRound(ts, target, fetchFails, batch, lastTimestamp, cumulative, querySize, rows);
      if done {
        stopped := true;
        break;
      }
      batch := batch + 1;
    }
    if !stopped {
      WalkFailingStops(rows, Progress(cumulative, querySize), target, batch, fetchFails);
    }
  }
}
