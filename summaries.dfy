/**
 * The apply-and-combine step of `daily_summary`, `duid_summary` and
 * `hourly_summary`: every group becomes one row of RecordCount, AvgValue,
 * MinValue, MaxValue and TotalValue, the rows in ascending key order.
 */
module Summaries {
  import opened Readings
  import opened Stats
  import opened Grouping

  /** One row of a summary table: the key column (Date, DUID or Hour) and five statistics. */
  datatype SummaryRow = SummaryRow(key: Key, recordCount: nat, avgValue: real, minValue: real, maxValue: real, totalValue: real)

  /** The `agg` of one group: `count` of ID, then `mean`, `min`, `max` and `sum` of SCADAVALUE. */
  function Aggregate(g: Group): (row: SummaryRow)
    requires g.values != []
    ensures row.key == g.key && row.recordCount == |g.values| > 0
    ensures row.avgValue * (row.recordCount as real) == row.totalValue
    ensures row.minValue <= row.avgValue <= row.maxValue
    ensures row.minValue in g.values && row.maxValue in g.values
    ensures forall i :: 0 <= i < |g.values| ==> row.minValue <= g.values[i] <= row.maxValue
  {
    SummaryRow(g.key, |g.values|, Mean(g.values), Min(g.values), Max(g.values), Sum(g.values))
  }

  function AggregateAll(gs: seq<Group>): (rows: seq<SummaryRow>)
    requires NoEmptyGroup(gs)
    ensures |rows| == |gs|
    ensures forall p :: 0 <= p < |gs| ==> rows[p] == Aggregate(gs[p])
  {
    if gs == [] then [] else [Aggregate(gs[0])] + AggregateAll(gs[1..])
  }

  /**
   * `df.groupby(key).agg(...).reset_index()` for the key of `kind`: one row
   * per key that occurs, strictly ascending by key, none of them empty.
   */
  function Summary(kind: Kind, rs: seq<Reading>): (rows: seq<SummaryRow>)
    ensures forall i, j :: 0 <= i < j < |rows| ==> KeyLess(rows[i].key, rows[j].key)
    ensures forall p :: 0 <= p < |rows| ==> KindOf(rows[p].key) == kind && rows[p].recordCount > 0
    ensures rows == [] <==> rs == []
  {
    GroupByProperties(kind, rs);
    var gs := GroupBy(kind, rs);
    assert forall p :: 0 <= p < |gs| ==> gs[p].key in ReadingKeys(kind, rs);
    assert gs == [] ==> Size(gs) == 0;
    AggregateAll(gs)
  }

  /** The RecordCount column added up. */
  function TotalRecords(rows: seq<SummaryRow>): nat
  {
    if rows == [] then 0 else rows[0].recordCount + TotalRecords(rows[1..])
  }

  /** The key column of a table, as a set. */
  ghost function RowKeys(rows: seq<SummaryRow>): set<Key>
  {
    set p | 0 <= p < |rows| :: rows[p].key
  }

  lemma {:induction false} TotalRecordsOfAggregates(gs: seq<Group>)
    requires NoEmptyGroup(gs)
    ensures TotalRecords(AggregateAll(gs)) == Size(gs)
  {
    if gs != [] {
      assert NoEmptyGroup(gs[1..]);
      assert AggregateAll(gs)[1..] == AggregateAll(gs[1..]);
      TotalRecordsOfAggregates(gs[1..]);
    }
  }

  /** Every reading is counted once: the RecordCounts of a summary add up to the number of readings. */
  lemma SummaryRecordCount(kind: Kind, rs: seq<Reading>)
    ensures TotalRecords(Summary(kind, rs)) == |rs|
  {
    GroupByProperties(kind, rs);
    TotalRecordsOfAggregates(GroupBy(kind, rs));
  }

  /**
   * A summary has a row for a key exactly when some reading has that key,
   * and no key has two rows.
   */
  lemma SummaryKeys(kind: Kind, rs: seq<Reading>)
    ensures RowKeys(Summary(kind, rs)) == ReadingKeys(kind, rs)
    ensures forall p, q :: 0 <= p < |Summary(kind, rs)| && 0 <= q < |Summary(kind, rs)| && p != q ==>
              Summary(kind, rs)[p].key != Summary(kind, rs)[q].key
  {
    var rows := Summary(kind, rs);
    GroupByProperties(kind, rs);
    var gs := GroupBy(kind, rs);
    assert forall p :: 0 <= p < |rows| ==> rows[p].key == gs[p].key;
    assert RowKeys(rows) == GroupKeys(gs);
    forall p, q | 0 <= p < |rows| && 0 <= q < |rows| && p != q ensures rows[p].key != rows[q].key {
      KeyLessIrreflexive(rows[p].key);
    }
  }

  /** Row p of a summary is the aggregate of the bucket of its key. */
  lemma SummaryRowIsBucketAggregate(kind: Kind, rs: seq<Reading>, p: int)
    requires 0 <= p < |Summary(kind, rs)|
    ensures Bucket(kind, rs, Summary(kind, rs)[p].key) != []
    ensures Summary(kind, rs)[p] == Aggregate(Group(Summary(kind, rs)[p].key, Bucket(kind, rs, Summary(kind, rs)[p].key)))
  {
    GroupByProperties(kind, rs);
    LookupAt(GroupBy(kind, rs), p);
  }

  /**
   * The statistics of a row are those of its bucket, the SCADAVALUEs of the
   * readings with its key: RecordCount is the number of those readings,
   * TotalValue their sum, MinValue and MaxValue their least and greatest,
   * AvgValue = TotalValue / RecordCount, so MinValue <= AvgValue <= MaxValue.
   */
  lemma SummaryRowStatistics(kind: Kind, rs: seq<Reading>, p: int)
    requires 0 <= p < |Summary(kind, rs)|
    ensures var row := Summary(kind, rs)[p];
            var vs := Bucket(kind, rs, row.key);
            && vs != []
            && row.recordCount == |vs| == |Positions(kind, rs, row.key)|
            && row.totalValue == Sum(vs)
            && row.minValue == Min(vs)
            && row.maxValue == Max(vs)
            && row.avgValue == row.totalValue / (row.recordCount as real)
            && row.minValue <= row.avgValue <= row.maxValue
            && (forall i :: 0 <= i < |rs| && KeyOf(kind, rs[i]) == row.key ==>
                  row.minValue <= rs[i].scadaValue <= row.maxValue)
  {
    SummaryRowIsBucketAggregate(kind, rs, p);
    var row := Summary(kind, rs)[p];
    var vs := Bucket(kind, rs, row.key);
    assert row.avgValue == Mean(vs);
    BucketSize(kind, rs, row.key);
    forall i | 0 <= i < |rs| && KeyOf(kind, rs[i]) == row.key
      ensures row.minValue <= rs[i].scadaValue <= row.maxValue
    {
      BucketMembers(kind, rs, row.key, rs[i].scadaValue);
    }
  }

  /** Each reading falls into exactly one row of each summary, the row of its key. */
  lemma ReadingInExactlyOneRow(kind: Kind, rs: seq<Reading>, i: int)
    requires 0 <= i < |rs|
    ensures exists p :: 0 <= p < |Summary(kind, rs)| && Summary(kind, rs)[p].key == KeyOf(kind, rs[i])
    ensures forall p, q ::
              (0 <= p < |Summary(kind, rs)| && 0 <= q < |Summary(kind, rs)| &&
               Summary(kind, rs)[p].key == KeyOf(kind, rs[i]) && Summary(kind, rs)[q].key == KeyOf(kind, rs[i])) ==> p == q
  {
    SummaryKeys(kind, rs);
    var rows := Summary(kind, rs);
    assert KeyOf(kind, rs[i]) in RowKeys(rows);
  }

  /** Two readings with the same key are counted together, in one row. */
  lemma SharedKeySharesRow(kind: Kind, rs: seq<Reading>, i: int, j: int)
    requires 0 <= i < |rs| && 0 <= j < |rs| && i != j
    requires KeyOf(kind, rs[i]) == KeyOf(kind, rs[j])
    ensures exists p :: 0 <= p < |Summary(kind, rs)| && Summary(kind, rs)[p].key == KeyOf(kind, rs[i]) &&
              Summary(kind, rs)[p].recordCount >= 2
  {
    var rows, k := Summary(kind, rs), KeyOf(kind, rs[i]);
    ReadingInExactlyOneRow(kind, rs, i);
    var p :| 0 <= p < |rows| && rows[p].key == k;
    RecordCountIsPositions(kind, rs, p);
    TwoPositions(kind, rs, k, i, j);
  }

  lemma RecordCountIsPositions(kind: Kind, rs: seq<Reading>, p: int)
    requires 0 <= p < |Summary(kind, rs)|
    ensures Summary(kind, rs)[p].recordCount == |Positions(kind, rs, Summary(kind, rs)[p].key)|
  {
    SummaryRowIsBucketAggregate(kind, rs, p);
    BucketSize(kind, rs, Summary(kind, rs)[p].key);
  }

  lemma TwoPositions(kind: Kind, rs: seq<Reading>, k: Key, i: int, j: int)
    requires 0 <= i < |rs| && 0 <= j < |rs| && i != j
    requires KeyOf(kind, rs[i]) == k && KeyOf(kind, rs[j]) == k
    ensures |Positions(kind, rs, k)| >= 2
  {
    var ps := Positions(kind, rs, k);
    assert {i, j} <= ps;
    assert ps == {i, j} + (ps - {i, j});
  }

  /** `daily_summary`: one row per calendar date, strictly ascending by date. */
  function DailySummary(rs: seq<Reading>): (rows: seq<SummaryRow>)
    ensures forall p :: 0 <= p < |rows| ==> rows[p].key.DayKey?
    ensures forall i, j :: 0 <= i < j < |rows| ==> DateLess(rows[i].key.date, rows[j].key.date)
  {
    Summary(Daily, rs)
  }

  /** Readings of one date share a daily row whatever their time of day. */
  lemma SameDateSharesDailyRow(rs: seq<Reading>, i: int, j: int)
    requires 0 <= i < |rs| && 0 <= j < |rs| && i != j
    requires DateOf(rs[i]) == DateOf(rs[j])
    ensures exists p :: 0 <= p < |DailySummary(rs)| && DailySummary(rs)[p].key == DayKey(DateOf(rs[i])) &&
              DailySummary(rs)[p].recordCount >= 2
  {
    SharedKeySharesRow(Daily, rs, i, j);
    var rows := Summary(Daily, rs);
    var p :| 0 <= p < |rows| && rows[p].key == KeyOf(Daily, rs[i]) && rows[p].recordCount >= 2;
    assert DailySummary(rs)[p] == rows[p];
  }

  /** `hourly_summary`: one row per hour of day 0..23, strictly ascending by hour, so at most 24 rows. */
  function HourlySummary(rs: seq<Reading>): (rows: seq<SummaryRow>)
    ensures forall p :: 0 <= p < |rows| ==> rows[p].key.HourKey?
    ensures forall i, j :: 0 <= i < j < |rows| ==> rows[i].key.hour < rows[j].key.hour
    ensures |rows| <= 24
  {
    var rows := Summary(Hourly, rs);
    if |rows| > 24 then
      // a 25th row would have to carry hour 24 or more
      HourAtLeastIndex(rows, 24);
      assert false;
      rows
    else
      rows
  }

  /** In a table of strictly ascending hours, the hour at position p is at least p. */
  lemma {:induction false} HourAtLeastIndex(rows: seq<SummaryRow>, p: int)
    requires forall q :: 0 <= q < |rows| ==> rows[q].key.HourKey?
    requires forall i, j :: 0 <= i < j < |rows| ==> rows[i].key.hour < rows[j].key.hour
    requires 0 <= p < |rows|
    ensures rows[p].key.hour >= p
  {
    if p > 0 {
      HourAtLeastIndex(rows, p - 1);
    }
  }

  /** Readings of one hour of day share an hourly row, even when their dates differ. */
  lemma SameHourSharesHourlyRow(rs: seq<Reading>, i: int, j: int)
    requires 0 <= i < |rs| && 0 <= j < |rs| && i != j
    requires HourOf(rs[i]) == HourOf(rs[j])
    ensures exists p :: 0 <= p < |HourlySummary(rs)| && HourlySummary(rs)[p].key == HourKey(HourOf(rs[i])) &&
              HourlySummary(rs)[p].recordCount >= 2
  {
    SharedKeySharesRow(Hourly, rs, i, j);
    var rows := Summary(Hourly, rs);
    var p :| 0 <= p < |rows| && rows[p].key == KeyOf(Hourly, rs[i]) && rows[p].recordCount >= 2;
    assert HourlySummary(rs)[p] == rows[p];
  }
}
