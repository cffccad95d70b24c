/**
 * The transform end to end (process_options.py, lines 44-72): convert the
 * raw rows, group and aggregate them, then keep the groups that pass the
 * thresholds. Fetching the CSV and delivering the result are not part of
 * this model.
 */
module Pipeline {
  import opened Wrappers
  import opened OptionsData
  import opened Normalizer
  import opened KeyOrder
  import opened Aggregator
  import opened ThresholdFilter

  /**
   * The filtered group table, or the first malformed strict column.
   * On success the output is exactly the aggregated groups that pass the
   * thresholds, in ascending key order, each holding its group's sums.
   */
  function Process(raw: seq<RawRow>, p: Parsers): (res: Result<seq<Summary>, StrictColumn>)
    ensures res.Failure? <==> exists i, c | 0 <= i < |raw| :: CellFails(raw[i], c, p.number)
    ensures res.Failure? ==> ColumnFails(raw, res.error, p.number)
    ensures res.Failure? ==> forall c :: Rank(c) < Rank(res.error) ==> !ColumnFails(raw, c, p.number)
    ensures res.Success? ==> Normalize(raw, p).Success?
    ensures res.Success? ==>
      (forall s :: s in res.value <==> s in Aggregate(Normalize(raw, p).value) && Keep(s))
    ensures res.Success? ==> KeysAscending(res.value)
    ensures res.Success? ==> forall s | s in res.value :: Describes(Normalize(raw, p).value, s)
  {
    match Normalize(raw, p)
    case Failure(c) => Failure(c)
    case Success(rows) =>
      var groups := Aggregate(rows);
      FilterKeepsKeyOrder(groups);
      Success(FilterGroups(groups))
  }

  /** The contract of the worked example. */
  const ExampleKey: Key := Key("SPY", 450.0, "Call", 455.0, Date(20000))

  /** Two quotes of that contract: volumes 600 and 500, deltas 0.5 and -0.5. */
  const ExampleRows: seq<Row> := [
    Row(Some("SPY"), Some(450.0), Some("Call"), Some(455.0), Some(Date(20000)),
        None, None, None, Some(600.0), Some(10.0), None, Some(0.5)),
    Row(Some("SPY"), Some(450.0), Some("Call"), Some(455.0), Some(Date(20000)),
        None, None, None, Some(500.0), Some(15.0), None, Some(-0.5))]

  /**
   * The example's group sums: the clipped parts are 300 and 250 while
   * clipping the group's net product instead would give 50.
   */
  lemma ExampleGroupSums()
    ensures GroupRows(ExampleRows, ExampleKey) == ExampleRows
    ensures SumOf(ExampleRows, TotalVolume) == 1100.0
    ensures SumOf(ExampleRows, TotalOpenInt) == 25.0
    ensures SumOf(ExampleRows, PositiveDelta) == 300.0
    ensures SumOf(ExampleRows, NegativeDelta) == 250.0
    ensures ClipAtZero(SignedDeltaVolume(ExampleRows)) == 50.0
  {
    var r1, r2 := ExampleRows[0], ExampleRows[1];
    assert ExampleRows == [r1] + [r2];
    assert ExampleRows[..1] == [r1];
    assert [r1][..0] == [];
    assert KeyOf(r1) == Some(ExampleKey) && KeyOf(r2) == Some(ExampleKey);
    assert GroupRows([r1], ExampleKey) == [r1];
    forall m: Measure
      ensures SumOf(ExampleRows, m) == Contribution(r1, m) + Contribution(r2, m)
    {
      SumOfAppend([], r1, m);
      SumOfAppend([r1], r2, m);
      assert [] + [r1] == [r1];
    }
    assert VolumeDelta(r1) == Some(300.0) && VolumeDelta(r2) == Some(-250.0);
    assert SignedDeltaVolume([r1]) == 300.0;
  }

  /**
   * The example contract becomes one group with total volume 1100,
   * clipped sums 300 and 250 and difference 50, and the filter keeps it.
   */
  lemma MixedDeltaGroupExample()
    ensures Aggregate(ExampleRows) == [Summary(ExampleKey, 1100.0, 25.0, 300.0, 250.0, 50.0)]
    ensures FilterGroups(Aggregate(ExampleRows)) == Aggregate(ExampleRows)
  {
    var rows, k := ExampleRows, ExampleKey;
    var out := Aggregate(rows);
    ExampleGroupSums();
    assert KeyOf(rows[0]) == Some(k) && KeyOf(rows[1]) == Some(k);
    assert HasGroup(rows, k);
    forall j | 0 <= j < |out|
      ensures out[j].key == k
    {
      assert HasGroup(rows, out[j].key);
      var i :| 0 <= i < |rows| && KeyOf(rows[i]) == Some(out[j].key);
    }
    if |out| > 1 {
      KeyLessIrreflexive(k);
    }
    assert |out| == 1;
    assert Describes(rows, out[0]);
    assert FilterGroups(out[1..]) == [];
  }

  /**
   * A row whose Strike does not parse keeps its volume but loses its key:
   * the grouping drops it, so the run succeeds with no groups at all.
   */
  lemma UnparseableStrikeDropsRow(p: Parsers)
    requires p.number("ABC").None?
    requires p.number("450") == Some(450.0) && p.number("1500") == Some(1500.0)
    requires p.date("2025-01-17").Some?
    ensures var raw := [RawRow(Some("SPY"), Some("450"), Some("Put"), Some("ABC"), Some("2025-01-17"),
                               None, None, None, Some("1500"), None, None, Some(0.6))];
      && Normalize(raw, p).Success?
      && Normalize(raw, p).value[0].volume == Some(1500.0)
      && Normalize(raw, p).value[0].strike.None?
      && Process(raw, p) == Success([])
  {
    var raw := [RawRow(Some("SPY"), Some("450"), Some("Put"), Some("ABC"), Some("2025-01-17"),
                       None, None, None, Some("1500"), None, None, Some(0.6))];
    var rows := Normalize(raw, p).value;
    assert KeyOf(rows[0]).None?;
    assert Aggregate(rows) == [];
  }
}
