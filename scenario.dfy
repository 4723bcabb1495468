/**
 * A worked example: three readings of two devices over two days, and the
 * three summary tables and the top-ten table they give.
 */
module Scenario {
  import opened Readings
  import opened Stats
  import opened Grouping
  import opened Summaries
  import opened Ranking

  const Jan1 := Date(2024, 1, 1)
  const Jan2 := Date(2024, 1, 2)

  /** G1 at 2024-01-01 00:00 (10), G1 at 2024-01-01 13:00 (30), G2 at 2024-01-02 05:00 (20). */
  function Example(): seq<Reading>
  {
    [ Reading(1, Timestamp(Jan1, 0, 0, 0), "G1", 10.0),
      Reading(2, Timestamp(Jan1, 13, 0, 0), "G1", 30.0),
      Reading(3, Timestamp(Jan2, 5, 0, 0), "G2", 20.0) ]
  }

  /** GroupBy takes the readings one at a time. */
  lemma GroupByStep(kind: Kind, rs: seq<Reading>, n: nat)
    requires 0 < n <= |rs|
    ensures GroupBy(kind, rs[..n]) == AddTo(GroupBy(kind, rs[..n - 1]), KeyOf(kind, rs[n - 1]), rs[n - 1].scadaValue)
  {
    assert rs[..n][..n - 1] == rs[..n - 1];
  }

  lemma ExampleDaily()
    ensures DailySummary(Example()) ==
      [ SummaryRow(DayKey(Jan1), 2, 20.0, 10.0, 30.0, 40.0),
        SummaryRow(DayKey(Jan2), 1, 20.0, 20.0, 20.0, 20.0) ]
  {
    var rs := Example();
    assert rs[..2][..1] == rs[..1] && rs[..1][..0] == [] && rs[..3][..2] == rs[..2] && rs[..3] == rs;
    GroupByStep(Daily, rs, 1);
    GroupByStep(Daily, rs, 2);
    GroupByStep(Daily, rs, 3);
    assert rs[..0] == [];
    assert GroupBy(Daily, rs[..1]) == [Group(DayKey(Jan1), [10.0])];
    assert [10.0] + [30.0] == [10.0, 30.0] && [Group(DayKey(Jan1), [10.0])][1..] == [];
    assert GroupBy(Daily, rs[..2]) == [Group(DayKey(Jan1), [10.0, 30.0])];
    assert GroupBy(Daily, rs) == [Group(DayKey(Jan1), [10.0, 30.0]), Group(DayKey(Jan2), [20.0])];
    assert Sum([10.0, 30.0]) == 40.0 by {
      assert [10.0, 30.0][..1] == [10.0];
    }
    assert Min([10.0, 30.0]) == 10.0 && Max([10.0, 30.0]) == 30.0 by {
      assert [10.0, 30.0][..1] == [10.0];
    }
  }

  lemma ExampleHourly()
    ensures HourlySummary(Example()) ==
      [ SummaryRow(HourKey(0), 1, 10.0, 10.0, 10.0, 10.0),
        SummaryRow(HourKey(5), 1, 20.0, 20.0, 20.0, 20.0),
        SummaryRow(HourKey(13), 1, 30.0, 30.0, 30.0, 30.0) ]
  {
    var rs := Example();
    assert rs[..2][..1] == rs[..1] && rs[..1][..0] == [] && rs[..3][..2] == rs[..2] && rs[..3] == rs;
    GroupByStep(Hourly, rs, 1);
    GroupByStep(Hourly, rs, 2);
    GroupByStep(Hourly, rs, 3);
    assert rs[..0] == [];
    assert GroupBy(Hourly, rs[..1]) == [Group(HourKey(0), [10.0])];
    assert GroupBy(Hourly, rs[..2]) == [Group(HourKey(0), [10.0]), Group(HourKey(13), [30.0])];
    assert GroupBy(Hourly, rs) == [Group(HourKey(0), [10.0]), Group(HourKey(5), [20.0]), Group(HourKey(13), [30.0])];
  }

  const G1Row := SummaryRow(DeviceKey("G1"), 2, 20.0, 10.0, 30.0, 40.0)
  const G2Row := SummaryRow(DeviceKey("G2"), 1, 20.0, 20.0, 20.0, 20.0)

  lemma ExampleDeviceGroups()
    ensures Summary(ByDevice, Example()) == [G1Row, G2Row]
  {
    var rs := Example();
    GroupByStep(ByDevice, rs, 1);
    GroupByStep(ByDevice, rs, 2);
    GroupByStep(ByDevice, rs, 3);
    assert rs[..0] == [] && rs[..3] == rs;
    assert StringLess("G1", "G2") by {
      assert "G1"[1..] == "1" && "G2"[1..] == "2";
    }
    assert [10.0] + [30.0] == [10.0, 30.0] && [Group(DeviceKey("G1"), [10.0])][1..] == [];
    assert GroupBy(ByDevice, rs) == [Group(DeviceKey("G1"), [10.0, 30.0]), Group(DeviceKey("G2"), [20.0])];
    assert Sum([10.0, 30.0]) == 40.0 by {
      assert [10.0, 30.0][..1] == [10.0];
    }
    assert Min([10.0, 30.0]) == 10.0 && Max([10.0, 30.0]) == 30.0 by {
      assert [10.0, 30.0][..1] == [10.0];
    }
  }

  /** The two devices tie on AvgValue 20, so G1 comes first by its DUID; both make the top ten. */
  lemma ExampleDevices()
    ensures DuidSummary(Example()) == [G1Row, G2Row]
    ensures TopDevices(Example()) == [G1Row, G2Row]
  {
    ExampleDeviceGroups();
    assert !StringLess("G2", "G1") by {
      assert "G1"[1..] == "1" && "G2"[1..] == "2";
    }
    assert [G1Row, G2Row][1..] == [G2Row] && [G2Row][1..] == [];
    assert RankByAverage([G2Row]) == [G2Row];
  }
}
