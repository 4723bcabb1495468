/**
 * The device table of `duid_summary`, ordered by `sort_values(by='AvgValue',
 * ascending=False)`, and the ten-row cut `head(10)` taken of it for the
 * ranking page and the printed summary.
 */
module Ranking {
  import opened Readings
  import opened Summaries

  /**
   * Row a is listed before row b: a higher AvgValue, or the same AvgValue and
   * a smaller key. The second half is a tie-break this model chooses.
   */
  predicate RanksBefore(a: SummaryRow, b: SummaryRow)
  {
    a.avgValue > b.avgValue || (a.avgValue == b.avgValue && KeyLess(a.key, b.key))
  }

  /** No row is listed after a row that ranks before it. */
  predicate Ranked(rows: seq<SummaryRow>)
  {
    forall i, j :: 0 <= i < j < |rows| ==> !RanksBefore(rows[j], rows[i])
  }

  predicate DistinctKeys(rows: seq<SummaryRow>)
  {
    forall i, j :: 0 <= i < j < |rows| ==> rows[i].key != rows[j].key
  }

  lemma NotBeforeTransitive(a: SummaryRow, b: SummaryRow, c: SummaryRow)
    requires !RanksBefore(b, a) && !RanksBefore(c, b)
    ensures !RanksBefore(c, a)
  {
    if RanksBefore(c, a) && b.key != a.key {
      KeyLessTotal(a.key, b.key);
      KeyLessTransitive(c.key, a.key, b.key);
    }
  }

  lemma RanksBeforeAsymmetric(a: SummaryRow, b: SummaryRow)
    requires RanksBefore(a, b)
    ensures !RanksBefore(b, a)
  {
    if KeyLess(a.key, b.key) {
      KeyLessAsymmetric(a.key, b.key);
    }
  }

  /** Inserts a row into a ranked table after every row that ranks before it. */
  function InsertRanked(x: SummaryRow, rows: seq<SummaryRow>): (res: seq<SummaryRow>)
    ensures multiset(res) == multiset(rows) + multiset{x}
    ensures TotalRecords(res) == x.recordCount + TotalRecords(rows)
  {
    if rows == [] || !RanksBefore(rows[0], x) then
      [x] + rows
    else
      var res := [rows[0]] + InsertRanked(x, rows[1..]);
      assert res[1..] == InsertRanked(x, rows[1..]);
      assert rows == [rows[0]] + rows[1..];
      res
  }

  lemma {:induction false} InsertRankedKeepsRanked(x: SummaryRow, rows: seq<SummaryRow>)
    requires Ranked(rows)
    ensures Ranked(InsertRanked(x, rows))
  {
    var res := InsertRanked(x, rows);
    if rows == [] || !RanksBefore(rows[0], x) {
      forall i, j | 0 <= i < j < |res| ensures !RanksBefore(res[j], res[i]) {
        if i == 0 && j > 1 {
          NotBeforeTransitive(x, rows[0], rows[j - 1]);
        }
      }
    } else {
      var tail := InsertRanked(x, rows[1..]);
      InsertRankedKeepsRanked(x, rows[1..]);
      RanksBeforeAsymmetric(rows[0], x);
      forall j | 0 <= j < |tail| ensures !RanksBefore(tail[j], rows[0]) {
        assert tail[j] in multiset(tail);
        if tail[j] != x {
          assert tail[j] in rows[1..];
        }
      }
      forall i, j | 0 <= i < j < |res| ensures !RanksBefore(res[j], res[i]) {
        assert res[j] == tail[j - 1];
        if i > 0 {
          assert res[i] == tail[i - 1];
        }
      }
    }
  }

  lemma {:induction false} InsertRankedKeepsDistinct(x: SummaryRow, rows: seq<SummaryRow>)
    requires DistinctKeys(rows)
    requires forall j :: 0 <= j < |rows| ==> rows[j].key != x.key
    ensures DistinctKeys(InsertRanked(x, rows))
  {
    var res := InsertRanked(x, rows);
    if rows != [] && RanksBefore(rows[0], x) {
      var tail := InsertRanked(x, rows[1..]);
      InsertRankedKeepsDistinct(x, rows[1..]);
      forall j | 0 <= j < |tail| ensures tail[j].key != rows[0].key {
        assert tail[j] in multiset(tail);
        if tail[j] != x {
          assert tail[j] in rows[1..];
        }
      }
      forall i, j | 0 <= i < j < |res| ensures res[i].key != res[j].key {
        assert res[j] == tail[j - 1];
        if i > 0 {
          assert res[i] == tail[i - 1];
        }
      }
    }
  }

  /** `sort_values(by='AvgValue', ascending=False)`, as an insertion sort. */
  function RankByAverage(rows: seq<SummaryRow>): (res: seq<SummaryRow>)
    ensures multiset(res) == multiset(rows)
    ensures TotalRecords(res) == TotalRecords(rows)
  {
    if rows == [] then []
    else
      assert rows == [rows[0]] + rows[1..];
      InsertRanked(rows[0], RankByAverage(rows[1..]))
  }

  /** The sorted table is ranked, and keeps distinct keys distinct. */
  lemma {:induction false} RankByAverageIsRanked(rows: seq<SummaryRow>)
    requires DistinctKeys(rows)
    ensures Ranked(RankByAverage(rows)) && DistinctKeys(RankByAverage(rows))
  {
    if rows != [] {
      var sorted := RankByAverage(rows[1..]);
      RankByAverageIsRanked(rows[1..]);
      InsertRankedKeepsRanked(rows[0], sorted);
      forall j | 0 <= j < |sorted| ensures sorted[j].key != rows[0].key {
        assert sorted[j] in multiset(sorted);
        assert sorted[j] in rows[1..];
        var k :| 0 <= k < |rows[1..]| && rows[1..][k] == sorted[j];
        assert rows[k + 1] == sorted[j];
      }
      InsertRankedKeepsDistinct(rows[0], sorted);
    }
  }

  /**
   * Sorting a table of device rows with distinct keys gives non-increasing
   * AvgValues, equal AvgValues in ascending DUID order.
   */
  lemma RankByAverageOrder(rows: seq<SummaryRow>)
    requires DistinctKeys(rows)
    requires forall p :: 0 <= p < |rows| ==> rows[p].key.DeviceKey?
    ensures DeviceRanking(RankByAverage(rows))
  {
    var sorted := RankByAverage(rows);
    RankByAverageIsRanked(rows);
    forall p | 0 <= p < |sorted| ensures sorted[p].key.DeviceKey? {
      assert sorted[p] in multiset(rows);
    }
    forall i, j | 0 <= i < j < |sorted| && sorted[i].avgValue == sorted[j].avgValue
      ensures StringLess(sorted[i].key.duid, sorted[j].key.duid)
    {
      KeyLessTotal(sorted[i].key, sorted[j].key);
    }
  }

  /** Device rows in non-increasing AvgValue order, equal AvgValues in ascending DUID order. */
  predicate DeviceRanking(rows: seq<SummaryRow>)
  {
    && (forall p :: 0 <= p < |rows| ==> rows[p].key.DeviceKey?)
    && (forall i, j :: 0 <= i < j < |rows| ==> rows[i].avgValue >= rows[j].avgValue)
    && (forall i, j :: 0 <= i < j < |rows| && rows[i].avgValue == rows[j].avgValue ==>
          rows[i].key.DeviceKey? && rows[j].key.DeviceKey? && StringLess(rows[i].key.duid, rows[j].key.duid))
  }

  /**
   * `duid_summary`: the rows of the device group-by, the same rows as a
   * multiset, ordered by non-increasing AvgValue, ties by ascending DUID.
   */
  function DuidSummary(rs: seq<Reading>): (rows: seq<SummaryRow>)
    ensures multiset(rows) == multiset(Summary(ByDevice, rs))
    ensures forall p :: 0 <= p < |rows| ==> rows[p].key.DeviceKey?
    ensures forall i, j :: 0 <= i < j < |rows| ==> rows[i].avgValue >= rows[j].avgValue
    ensures forall i, j :: 0 <= i < j < |rows| && rows[i].avgValue == rows[j].avgValue ==>
              StringLess(rows[i].key.duid, rows[j].key.duid)
  {
    var grouped := Summary(ByDevice, rs);
    DeviceTableKeys(rs);
    RankByAverageOrder(grouped);
    RankByAverage(grouped)
  }

  /** The device group-by has one row per DUID. */
  lemma DeviceTableKeys(rs: seq<Reading>)
    ensures DistinctKeys(Summary(ByDevice, rs))
    ensures forall p :: 0 <= p < |Summary(ByDevice, rs)| ==> Summary(ByDevice, rs)[p].key.DeviceKey?
  {
    var rows := Summary(ByDevice, rs);
    forall i, j | 0 <= i < j < |rows| ensures rows[i].key != rows[j].key {
      KeyLessIrreflexive(rows[i].key);
    }
  }

  /** Sorting loses no reading: the device table still counts every reading once. */
  lemma DuidSummaryRecordCount(rs: seq<Reading>)
    ensures TotalRecords(DuidSummary(rs)) == |rs|
  {
    SummaryRecordCount(ByDevice, rs);
  }

  /** The number of rows `head` keeps in the ranking page and the printed summary. */
  const TopDeviceCount: nat := 10

  /** `head(n)`: the first n rows, or all of them when there are fewer, unchanged and in order. */
  function Head<T>(s: seq<T>, n: nat): (top: seq<T>)
    ensures |top| == if n < |s| then n else |s|
    ensures top == s[..|top|]
  {
    if n < |s| then s[..n] else s
  }

  /** `duid_stats.head(10)`. */
  function TopDevices(rs: seq<Reading>): (top: seq<SummaryRow>)
    ensures |top| <= TopDeviceCount
  {
    Head(DuidSummary(rs), TopDeviceCount)
  }

  /**
   * The top-ten table is the first min(10, n) rows of the device table, and
   * no device left out of it has a higher AvgValue than a device in it.
   */
  lemma TopDevicesHaveHighestAverages(rs: seq<Reading>)
    ensures var all, top := DuidSummary(rs), TopDevices(rs);
            && |top| == (if TopDeviceCount < |all| then TopDeviceCount else |all|)
            && top == all[..|top|]
            && forall i, j :: 0 <= i < |top| <= j < |all| ==> top[i].avgValue >= all[j].avgValue
  {
    var all, top := DuidSummary(rs), TopDevices(rs);
    assert forall i :: 0 <= i < |top| ==> top[i] == all[i];
  }
}
