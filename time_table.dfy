/**
 * A battery_data table keyed by its timestamp column: its rows in
 * primary-key order, and the insert that puts a new row at its place.
 * Both web back ends keep one such table per device.
 */
module TimeTable {

  /** One row: its primary key (seconds) and the other columns. */
  datatype Stamped<V> = Stamped(timestamp: int, values: V)

  /** Timestamps strictly increasing: a table in primary-key order. */
  ghost predicate TimeOrdered<V>(table: seq<Stamped<V>>)
  {
    forall i, j :: 0 <= i < j < |table| ==> table[i].timestamp < table[j].timestamp
  }

  /** Whether a row with this primary key is already stored. */
  predicate HasTimestamp<V>(table: seq<Stamped<V>>, t: int)
  {
    exists i :: 0 <= i < |table| && table[i].timestamp == t
  }

  /** The table with `r` stored at its place in primary-key order. */
  function InsertByTime<V>(table: seq<Stamped<V>>, r: Stamped<V>): seq<Stamped<V>>
  {
    if table == [] then [r]
    else if r.timestamp < table[0].timestamp then [r] + table
    else [table[0]] + InsertByTime(table[1..], r)
  }

  /** Inserting adds exactly the new row. */
  lemma {:induction false} InsertByTimeContents<V>(table: seq<Stamped<V>>, r: Stamped<V>)
    ensures multiset(InsertByTime(table, r)) == multiset(table) + multiset{r}
  {
    if table != [] && r.timestamp >= table[0].timestamp {
      InsertByTimeContents(table[1..], r);
      assert table == [table[0]] + table[1..];
    }
  }

  /** A row older than every row of an ordered table can go in front of it. */
  lemma PrependOrdered<V>(h: Stamped<V>, table: seq<Stamped<V>>)
    requires TimeOrdered(table)
    requires forall k :: 0 <= k < |table| ==> h.timestamp < table[k].timestamp
    ensures TimeOrdered([h] + table)
  {
    var s := [h] + table;
    forall i, j | 0 <= i < j < |s|
      ensures s[i].timestamp < s[j].timestamp
    {
      if i == 0 {
        assert s[j] == table[j - 1];
      }
    }
  }

  /** Inserting a key not yet stored keeps the table in key order. */
  lemma {:induction false} InsertByTimeOrdered<V>(table: seq<Stamped<V>>, r: Stamped<V>)
    requires TimeOrdered(table) && !HasTimestamp(table, r.timestamp)
    ensures TimeOrdered(InsertByTime(table, r))
  {
    if table != [] {
      var head := table[0];
      var tail := table[1..];
      assert table == [head] + tail;
      if r.timestamp < head.timestamp {
        PrependOrdered(r, table);
      } else {
        assert r.timestamp != head.timestamp;
        assert !HasTimestamp(tail, r.timestamp) by {
          forall k | 0 <= k < |tail|
            ensures tail[k].timestamp != r.timestamp
          {
            assert tail[k] == table[k + 1];
          }
        }
        InsertByTimeOrdered(tail, r);
        InsertByTimeContents(tail, r);
        var rest := InsertByTime(tail, r);
        forall k | 0 <= k < |rest|
          ensures head.timestamp < rest[k].timestamp
        {
          var x := rest[k];
          assert x in multiset(rest);
          if x != r {
            assert x in multiset(tail);
            var m :| 0 <= m < |tail| && tail[m] == x;
            assert table[m + 1] == x;
          }
        }
        PrependOrdered(head, rest);
      }
    }
  }

  /** After the insert, a row with the new row's key is stored, and every old row still is. */
  lemma InsertByTimeStores<V>(table: seq<Stamped<V>>, r: Stamped<V>)
    ensures HasTimestamp(InsertByTime(table, r), r.timestamp)
    ensures forall x :: x in table ==> x in InsertByTime(table, r)
  {
    InsertByTimeContents(table, r);
    var s := InsertByTime(table, r);
    assert r in multiset(s);
    var i :| 0 <= i < |s| && s[i] == r;
    forall x | x in table
      ensures x in s
    {
      assert x in multiset(table);
    }
  }
}
