/**
 * The series behind the `chart_data` endpoints: the 250 most recent points of
 * a battery's table, newest first, filtered to one calendar date and cut at
 * the first gap wider than a limit, then put back in chronological order.
 * Timestamps are whole seconds since the epoch and a date is the day number
 * `t / 86400`.
 */
module ChartWindow {
  import opened Common

  /** One fetched row: its timestamp and the value of the requested column. */
  datatype Point = Point(timestamp: int, value: real)

  /** At most this many rows are fetched. */
  const ChartLimit: nat := 250

  const SecondsPerDay: int := 86400

  /** The calendar date of a timestamp. */
  function Day(t: int): int
  {
    t / SecondsPerDay
  }

  /** Timestamps strictly decreasing: newest first. */
  ghost predicate NewestFirst(rows: seq<Point>)
  {
    forall i, j :: 0 <= i < j < |rows| ==> rows[i].timestamp > rows[j].timestamp
  }

  /** Timestamps strictly increasing: a table read in primary-key order. */
  ghost predicate Chronological(rows: seq<Point>)
  {
    forall i, j :: 0 <= i < j < |rows| ==> rows[i].timestamp < rows[j].timestamp
  }

  /** The fetched rows: the most recent `ChartLimit` points of a table, newest first. */
  function MostRecent(table: seq<Point>): (rows: seq<Point>)
    ensures |rows| == if |table| <= ChartLimit then |table| else ChartLimit
    ensures forall k :: 0 <= k < |rows| ==> rows[k] == table[|table| - 1 - k]
  {
    Reverse(table)[..if |table| <= ChartLimit then |table| else ChartLimit]
  }

  /** Fetching from a chronological table gives rows newest first. */
  lemma MostRecentIsNewestFirst(table: seq<Point>)
    requires Chronological(table)
    ensures NewestFirst(MostRecent(table))
  {
  }

  /**
   * What the loop keeps from `rows`: rows of date `day` only, stopping at the
   * first kept row more than `maxGap` seconds older than the one kept before.
   */
  function Collect(rows: seq<Point>, day: int, maxGap: int, previous: Option<int>): seq<Point>
  {
    if rows == [] then []
    else if Day(rows[0].timestamp) != day then Collect(rows[1..], day, maxGap, previous)
    else if previous.Some? && previous.value - rows[0].timestamp > maxGap then []
    else [rows[0]] + Collect(rows[1..], day, maxGap, Some(rows[0].timestamp))
  }

  /**
   * Every kept row is a fetched row of the chosen date, consecutive kept rows
   * are at most `maxGap` apart, and the first one is within `maxGap` of
   * `previous`.
   */
  lemma {:induction false} CollectKeepsDayAndGap(rows: seq<Point>, day: int, maxGap: int, previous: Option<int>)
    ensures var data := Collect(rows, day, maxGap, previous);
      && |data| <= |rows|
      && (forall p :: p in data ==> p in rows && Day(p.timestamp) == day)
      && (forall k :: 0 <= k < |data| - 1 ==> data[k].timestamp - data[k + 1].timestamp <= maxGap)
      && (previous.Some? && data != [] ==> previous.value - data[0].timestamp <= maxGap)
  {
    if rows != [] {
      var row := rows[0];
      if Day(row.timestamp) != day {
        CollectKeepsDayAndGap(rows[1..], day, maxGap, previous);
      } else if !(previous.Some? && previous.value - row.timestamp > maxGap) {
        CollectKeepsDayAndGap(rows[1..], day, maxGap, Some(row.timestamp));
      }
    }
  }

  /** Kept rows keep the fetched order: newest first. */
  lemma {:induction false} CollectNewestFirst(rows: seq<Point>, day: int, maxGap: int, previous: Option<int>)
    requires NewestFirst(rows)
    ensures NewestFirst(Collect(rows, day, maxGap, previous))
  {
    if rows != [] {
      var row := rows[0];
      if Day(row.timestamp) != day {
        CollectNewestFirst(rows[1..], day, maxGap, previous);
      } else if !(previous.Some? && previous.value - row.timestamp > maxGap) {
        CollectNewestFirst(rows[1..], day, maxGap, Some(row.timestamp));
        CollectKeepsDayAndGap(rows[1..], day, maxGap, Some(row.timestamp));
        var tail := Collect(rows[1..], day, maxGap, Some(row.timestamp));
        var data := [row] + tail;
        forall p | p in tail
          ensures row.timestamp > p.timestamp
        {
          var m :| 0 <= m < |rows[1..]| && rows[1..][m] == p;
          assert rows[m + 1] == p;
        }
        forall i, j | 0 <= i < j < |data|
          ensures data[i].timestamp > data[j].timestamp
        {
          assert data[j] == tail[j - 1];
          if i > 0 {
            assert data[i] == tail[i - 1];
          }
        }
      }
    }
  }

  /**
   * The response's series for a chosen date: the kept rows put back in
   * chronological order.
   */
  function SeriesOn(rows: seq<Point>, day: int, maxGap: int): seq<Point>
  {
    Reverse(Collect(rows, day, maxGap, None))
  }

  /** From rows fetched newest first, the series is chronological. */
  lemma SeriesIsChronological(rows: seq<Point>, day: int, maxGap: int)
    requires NewestFirst(rows)
    ensures Chronological(SeriesOn(rows, day, maxGap))
  {
    CollectNewestFirst(rows, day, maxGap, None);
  }

  /** The loop of `chart_data` for a chosen date, with the final reversal. */
  method CollectSeries(rows: seq<Point>, day: int, maxGap: int) returns (data: seq<Point>)
    ensures data == SeriesOn(rows, day, maxGap)
  {
    var kept: seq<Point> := [];
    var previous: Option<int> := None;
    var i := 0;
    while i < |rows|
      invariant 0 <= i <= |rows|
      invariant kept + Collect(rows[i..], day, maxGap, previous) == Collect(rows, day, maxGap, None)
    {
      var row := rows[i];
      assert rows[i..][1..] == rows[i + 1..];
      if Day(row.timestamp) != day {
        i := i + 1;
        continue;
      }
      if previous.Some? && previous.value - row.timestamp > maxGap {
        break;
      }
      previous := Some(row.timestamp);
      kept := kept + [row];
      i := i + 1;
    }
    assert kept == Collect(rows, day, maxGap, None);
    data := Reverse(kept);
  }

  /**
   * The date filter as written: the date of the LAST fetched row, which for
   * rows fetched newest first is the oldest of them.
   */
  function SeriesAsWritten(rows: seq<Point>, maxGap: int): (s: seq<Point>)
    ensures |s| <= |rows|
    ensures rows != [] ==> forall p :: p in s ==> p in rows && Day(p.timestamp) == Day(rows[|rows| - 1].timestamp)
  {
    if rows == [] then []
    else
      CollectKeepsDayAndGap(rows, Day(rows[|rows| - 1].timestamp), maxGap, None);
      SeriesOn(rows, Day(rows[|rows| - 1].timestamp), maxGap)
  }

  /**
   * As written, a table with one point late on one day and one early the next
   * charts only the older point: the most recent date is not shown.
   */
  lemma AsWrittenShowsOldestDate(maxGap: int)
    ensures var table := [Point(86399, 1.0), Point(86401, 2.0)];
      SeriesAsWritten(MostRecent(table), maxGap) == [Point(86399, 1.0)]
  {
    var table := [Point(86399, 1.0), Point(86401, 2.0)];
    var rows := MostRecent(table);
    assert rows == [Point(86401, 2.0), Point(86399, 1.0)];
    assert Day(86401) == 1 && Day(86399) == 0;
    assert Collect(rows[1..][1..], 0, maxGap, Some(86399)) == [];
    assert Collect(rows[1..], 0, maxGap, None) == [Point(86399, 1.0)];
    assert Collect(rows, 0, maxGap, None) == [Point(86399, 1.0)];
  }

  /** The date filter as intended: the date of the newest fetched row. */
  function Series(rows: seq<Point>, maxGap: int): (s: seq<Point>)
    ensures |s| <= |rows|
    ensures rows != [] ==> forall p :: p in s ==> p in rows && Day(p.timestamp) == Day(rows[0].timestamp)
  {
    if rows == [] then []
    else
      CollectKeepsDayAndGap(rows, Day(rows[0].timestamp), maxGap, None);
      SeriesOn(rows, Day(rows[0].timestamp), maxGap)
  }

  /**
   * With the intended filter, a non-empty fetch charts its newest row last,
   * and every charted point is a fetched point of the newest date.
   */
  lemma SeriesEndsAtNewest(rows: seq<Point>, maxGap: int)
    requires rows != []
    ensures var s := Series(rows, maxGap);
      && s != []
      && s[|s| - 1] == rows[0]
      && (forall p :: p in s ==> p in rows && Day(p.timestamp) == Day(rows[0].timestamp))
  {
    var day := Day(rows[0].timestamp);
    var data := Collect(rows, day, maxGap, None);
    assert data == [rows[0]] + Collect(rows[1..], day, maxGap, Some(rows[0].timestamp));
    CollectKeepsDayAndGap(rows, day, maxGap, None);
  }

  /** In the series, consecutive points are at most `maxGap` apart. */
  lemma SeriesGapsBounded(rows: seq<Point>, day: int, maxGap: int)
    ensures var s := SeriesOn(rows, day, maxGap);
      forall k :: 0 <= k < |s| - 1 ==> s[k + 1].timestamp - s[k].timestamp <= maxGap
  {
    CollectKeepsDayAndGap(rows, day, maxGap, None);
    var data := Collect(rows, day, maxGap, None);
    var s := SeriesOn(rows, day, maxGap);
    forall k | 0 <= k < |s| - 1
      ensures s[k + 1].timestamp - s[k].timestamp <= maxGap
    {
      assert s[k] == data[|data| - 1 - k];
      assert s[k + 1] == data[|data| - 1 - k - 1];
    }
  }

  /**
   * The chart of a chronological table: empty exactly when the table is,
   * chronological, with consecutive points at most `maxGap` apart, and for a
   * non-empty table made of its points on the date of its newest point,
   * ending at that point.
   */
  lemma ChartOfChronological(table: seq<Point>, maxGap: int)
    requires Chronological(table)
    ensures var s := Series(MostRecent(table), maxGap);
      && (s == [] <==> table == [])
      && Chronological(s)
      && (forall k :: 0 <= k < |s| - 1 ==> s[k + 1].timestamp - s[k].timestamp <= maxGap)
      && (table != [] ==>
            && s[|s| - 1] == table[|table| - 1]
            && forall p :: p in s ==> p in table && Day(p.timestamp) == Day(table[|table| - 1].timestamp))
  {
    if table != [] {
      var rows := MostRecent(table);
      MostRecentIsNewestFirst(table);
      SeriesIsChronological(rows, Day(rows[0].timestamp), maxGap);
      SeriesEndsAtNewest(rows, maxGap);
      SeriesGapsBounded(rows, Day(rows[0].timestamp), maxGap);
      forall p | p in rows
        ensures p in table
      {
        var k :| 0 <= k < |rows| && rows[k] == p;
        assert p == table[|table| - 1 - k];
      }
    }
  }

  /** Rows of `day` among `rows`, in order. */
  function OnDay(rows: seq<Point>, day: int): (r: seq<Point>)
    ensures forall p :: p in r <==> p in rows && Day(p.timestamp) == day
  {
    if rows == [] then []
    else (if Day(rows[0].timestamp) == day then [rows[0]] else []) + OnDay(rows[1..], day)
  }

  /** Two timestamps of one date are less than a day apart. */
  lemma SameDayClose(a: int, b: int)
    requires Day(a) == Day(b)
    ensures a - b < SecondsPerDay
  {
  }

  /**
   * Two timestamps of one date are less than a day apart, so with a one-day
   * limit the gap check never stops the loop: the series is every fetched row
   * of the chosen date.
   */
  lemma {:induction false} DayLimitNeverBreaks(rows: seq<Point>, day: int, previous: Option<int>)
    requires NewestFirst(rows)
    requires previous.Some? ==> Day(previous.value) == day
    requires previous.Some? ==> forall p :: p in rows ==> p.timestamp < previous.value
    ensures Collect(rows, day, SecondsPerDay, previous) == OnDay(rows, day)
  {
    if rows != [] {
      var row := rows[0];
      assert forall p :: p in rows[1..] ==> p.timestamp < row.timestamp;
      if Day(row.timestamp) != day {
        DayLimitNeverBreaks(rows[1..], day, previous);
      } else {
        if previous.Some? {
          SameDayClose(previous.value, row.timestamp);
        }
        DayLimitNeverBreaks(rows[1..], day, Some(row.timestamp));
      }
    }
  }
}
