/**
 * The grouping and aggregation (process_options.py, lines 56-61) and the
 * derived difference (line 64). Rows are grouped by their key; a row with
 * a null key field is in no group (`groupby` drops null keys by default).
 * Per group: the sums of Volume and Open Int, and the sums of the per-row
 * products Volume*Delta clipped at zero, once for Volume*Delta and once
 * for -Volume*Delta. A null operand makes a product NaN, and the sums skip
 * NaN, so such a row adds nothing to that sum.
 *
 * The specification is `GroupRows` and `SumOf`; the model of the
 * computation is a single pass (`Accumulate`) into a map from key to
 * running totals, emitted in key order (`SortedKeys`).
 */
module Aggregator {
  import opened Wrappers
  import opened OptionsData
  import opened KeyOrder

  /** The four per-group sums of lines 57-60. */
  datatype Measure = TotalVolume | TotalOpenInt | PositiveDelta | NegativeDelta

  /** A number, with NaN counted as zero as the sums do. */
  function OrZero(x: Option<real>): real
  {
    if x.Some? then x.value else 0.0
  }

  function ClipAtZero(x: real): real
  {
    if x < 0.0 then 0.0 else x
  }

  /** Volume*Delta of a row; NaN when either is null. */
  function VolumeDelta(r: Row): Option<real>
  {
    if r.volume.Some? && r.delta.Some? then Some(r.volume.value * r.delta.value) else None
  }

  /** (-Volume)*Delta of a row; NaN when either is null. */
  function NegVolumeDelta(r: Row): Option<real>
  {
    if r.volume.Some? && r.delta.Some? then Some((-r.volume.value) * r.delta.value) else None
  }

  /** What one row adds to a group's sum of `m`; clipping is per row. */
  function Contribution(r: Row, m: Measure): real
  {
    match m
    case TotalVolume => OrZero(r.volume)
    case TotalOpenInt => OrZero(r.openInt)
    case PositiveDelta => if VolumeDelta(r).Some? then ClipAtZero(VolumeDelta(r).value) else 0.0
    case NegativeDelta => if NegVolumeDelta(r).Some? then ClipAtZero(NegVolumeDelta(r).value) else 0.0
  }

  /** The sum of `m` over the rows `g`, taken in row order. */
  function SumOf(g: seq<Row>, m: Measure): (total: real)
    ensures m == PositiveDelta || m == NegativeDelta ==> total >= 0.0
  {
    if g == [] then 0.0 else SumOf(g[..|g| - 1], m) + Contribution(g[|g| - 1], m)
  }

  /** The unclipped sum of Volume*Delta over `g`. */
  function SignedDeltaVolume(g: seq<Row>): real
  {
    if g == [] then 0.0 else SignedDeltaVolume(g[..|g| - 1]) + OrZero(VolumeDelta(g[|g| - 1]))
  }

  /** The rows of group `k`, in their original order. */
  function GroupRows(rows: seq<Row>, k: Key): (g: seq<Row>)
    ensures forall r | r in g :: KeyOf(r) == Some(k)
    ensures forall i | 0 <= i < |rows| && KeyOf(rows[i]) == Some(k) :: rows[i] in g
    ensures |g| <= |rows|
  {
    if rows == [] then []
    else
      var g := GroupRows(rows[..|rows| - 1], k);
      if KeyOf(rows[|rows| - 1]) == Some(k) then g + [rows[|rows| - 1]] else g
  }

  /** A group holds each row of its key as often as the input does, and no other row. */
  lemma {:induction false} GroupRowsCounts(rows: seq<Row>, k: Key)
    ensures forall r :: multiset(GroupRows(rows, k))[r] == if KeyOf(r) == Some(k) then multiset(rows)[r] else 0
  {
    if rows != [] {
      var init, last := rows[..|rows| - 1], rows[|rows| - 1];
      assert rows == init + [last];
      GroupRowsCounts(init, k);
    }
  }

  /** The running totals of one group. */
  datatype Totals = Totals(volume: real, openInt: real, positive: real, negative: real)

  function Zero(): Totals
  {
    Totals(0.0, 0.0, 0.0, 0.0)
  }

  function AddRow(t: Totals, r: Row): Totals
  {
    Totals(
      t.volume + Contribution(r, TotalVolume),
      t.openInt + Contribution(r, TotalOpenInt),
      t.positive + Contribution(r, PositiveDelta),
      t.negative + Contribution(r, NegativeDelta))
  }

  function Lookup(acc: map<Key, Totals>, k: Key): Totals
  {
    if k in acc then acc[k] else Zero()
  }

  /** The totals the specification gives a group with rows `g`. */
  function TotalsOf(g: seq<Row>): Totals
  {
    Totals(SumOf(g, TotalVolume), SumOf(g, TotalOpenInt), SumOf(g, PositiveDelta), SumOf(g, NegativeDelta))
  }

  /** One pass over the rows, adding each keyed row to its group's running totals. */
  function Accumulate(rows: seq<Row>): map<Key, Totals>
  {
    if rows == [] then map[]
    else
      var acc := Accumulate(rows[..|rows| - 1]);
      var r := rows[|rows| - 1];
      match KeyOf(r)
      case None => acc
      case Some(k) => acc[k := AddRow(Lookup(acc, k), r)]
  }

  /** The distinct keys of the rows, in ascending order. */
  function SortedKeys(rows: seq<Row>): (ks: seq<Key>)
    ensures StrictlySorted(ks)
    ensures forall k :: k in ks <==> HasGroup(rows, k)
  {
    if rows == [] then []
    else
      var init := rows[..|rows| - 1];
      var ks := SortedKeys(init);
      assert forall i | 0 <= i < |init| :: init[i] == rows[i];
      match KeyOf(rows[|rows| - 1])
      case None => ks
      case Some(k) => InsertKey(k, ks)
  }

  /** One output row of the aggregation. */
  datatype Summary = Summary(
    key: Key,
    totalVolume: real,
    totalOpenInt: real,
    positiveDeltaVolume: real,
    negativeDeltaVolume: real,
    deltaVolumeDiff: real)

  /** The keys of a table of summaries, in table order. */
  function KeysOf(out: seq<Summary>): (ks: seq<Key>)
    ensures |ks| == |out| && forall j | 0 <= j < |out| :: ks[j] == out[j].key
  {
    if out == [] then [] else [out[0].key] + KeysOf(out[1..])
  }

  /** The summaries' keys ascend strictly (so no key occurs twice). */
  predicate KeysAscending(out: seq<Summary>)
  {
    StrictlySorted(KeysOf(out))
  }

  /** The group row with the difference of line 64 taken from the two accumulated sums. */
  function Summarize(k: Key, t: Totals): Summary
  {
    Summary(k, t.volume, t.openInt, t.positive, t.negative, t.positive - t.negative)
  }

  function Emit(ks: seq<Key>, acc: map<Key, Totals>): (out: seq<Summary>)
    ensures |out| == |ks|
    ensures forall j | 0 <= j < |ks| :: out[j] == Summarize(ks[j], Lookup(acc, ks[j]))
  {
    if ks == [] then [] else [Summarize(ks[0], Lookup(acc, ks[0]))] + Emit(ks[1..], acc)
  }

  /** `s` is the summary the specification gives its group within `rows`. */
  predicate Describes(rows: seq<Row>, s: Summary)
  {
    var g := GroupRows(rows, s.key);
    && s.totalVolume == SumOf(g, TotalVolume)
    && s.totalOpenInt == SumOf(g, TotalOpenInt)
    && s.positiveDeltaVolume == SumOf(g, PositiveDelta)
    && s.negativeDeltaVolume == SumOf(g, NegativeDelta)
    && s.deltaVolumeDiff == s.positiveDeltaVolume - s.negativeDeltaVolume
  }

  lemma SumOfAppend(g: seq<Row>, r: Row, m: Measure)
    ensures SumOf(g + [r], m) == SumOf(g, m) + Contribution(r, m)
  {
    assert (g + [r])[..|g|] == g;
  }

  /** The one-pass totals hold an entry for exactly the keys some row has. */
  lemma {:induction false} AccumulateKeys(rows: seq<Row>)
    ensures forall k :: k in Accumulate(rows) <==> HasGroup(rows, k)
  {
    if rows != [] {
      var init := rows[..|rows| - 1];
      AccumulateKeys(init);
      assert forall i | 0 <= i < |init| :: init[i] == rows[i];
    }
  }

  /** The one-pass totals of every key are the specification's sums over its group. */
  lemma {:induction false} AccumulateMatchesGroups(rows: seq<Row>)
    ensures forall k :: Lookup(Accumulate(rows), k) == TotalsOf(GroupRows(rows, k))
  {
    if rows != [] {
      var init, r := rows[..|rows| - 1], rows[|rows| - 1];
      AccumulateMatchesGroups(init);
      forall k
        ensures Lookup(Accumulate(rows), k) == TotalsOf(GroupRows(rows, k))
      {
        if KeyOf(r) == Some(k) {
          var g := GroupRows(init, k);
          SumOfAppend(g, r, TotalVolume);
          SumOfAppend(g, r, TotalOpenInt);
          SumOfAppend(g, r, PositiveDelta);
          SumOfAppend(g, r, NegativeDelta);
        }
      }
    }
  }

  /**
   * The grouped table: one summary per key present in the rows, in
   * ascending key order, each holding its group's sums as specified.
   */
  function Aggregate(rows: seq<Row>): (out: seq<Summary>)
    ensures KeysAscending(out)
    ensures forall k :: (exists j | 0 <= j < |out| :: out[j].key == k) <==> HasGroup(rows, k)
    ensures forall j | 0 <= j < |out| :: Describes(rows, out[j])
    ensures out == [] <==> forall i | 0 <= i < |rows| :: KeyOf(rows[i]).None?
  {
    var ks := SortedKeys(rows);
    var acc := Accumulate(rows);
    AccumulateMatchesGroups(rows);
    var out := Emit(ks, acc);
    assert KeysOf(out) == ks;
    assert forall k :: (exists j | 0 <= j < |out| :: out[j].key == k) <==> k in ks by {
      forall k | k in ks
        ensures exists j | 0 <= j < |out| :: out[j].key == k
      {
        var j :| 0 <= j < |ks| && ks[j] == k;
        assert out[j].key == k;
      }
    }
    assert out == [] <==> forall i | 0 <= i < |rows| :: KeyOf(rows[i]).None? by {
      if out != [] {
        assert HasGroup(rows, out[0].key);
      }
      assert forall i | 0 <= i < |rows| && KeyOf(rows[i]).Some? :: KeyOf(rows[i]).value in ks;
    }
    out
  }

  /** Per row, the clipped positive part minus the clipped negative part is the product itself. */
  lemma {:induction false} SignedSplitIsExact(g: seq<Row>)
    ensures SumOf(g, PositiveDelta) - SumOf(g, NegativeDelta) == SignedDeltaVolume(g)
  {
    if g != [] {
      var r := g[|g| - 1];
      SignedSplitIsExact(g[..|g| - 1]);
      if VolumeDelta(r).Some? {
        assert NegVolumeDelta(r).value == -VolumeDelta(r).value;
      }
    }
  }

  /**
   * Each group's two clipped sums are non-negative, and its difference
   * is the unclipped sum of Volume*Delta over exactly its rows.
   */
  lemma AggregateDeltaSplit(rows: seq<Row>, j: nat)
    requires j < |Aggregate(rows)|
    ensures var s := Aggregate(rows)[j];
      && s.positiveDeltaVolume >= 0.0
      && s.negativeDeltaVolume >= 0.0
      && s.deltaVolumeDiff == SignedDeltaVolume(GroupRows(rows, s.key))
  {
    SignedSplitIsExact(GroupRows(rows, Aggregate(rows)[j].key));
  }

  /**
   * A row with every key field present lies in exactly one output group;
   * a row with a null key field lies in none.
   */
  lemma GroupMembership(rows: seq<Row>, i: nat)
    requires i < |rows|
    ensures var out := Aggregate(rows);
      forall j | 0 <= j < |out| :: rows[i] in GroupRows(rows, out[j].key) <==> KeyOf(rows[i]) == Some(out[j].key)
    ensures var out := Aggregate(rows);
      KeyOf(rows[i]).Some? ==>
        (exists j | 0 <= j < |out| ::
          && rows[i] in GroupRows(rows, out[j].key)
          && forall j' | 0 <= j' < |out| && j' != j :: rows[i] !in GroupRows(rows, out[j'].key))
  {
    var out := Aggregate(rows);
    if KeyOf(rows[i]).Some? {
      var k := KeyOf(rows[i]).value;
      assert HasGroup(rows, k);
      var j :| 0 <= j < |out| && out[j].key == k;
      forall j' | 0 <= j' < |out| && j' != j
        ensures out[j'].key != k
      {
        KeyLessIrreflexive(k);
      }
    }
  }

  /** No key occurs twice. */
  predicate Distinct(ks: seq<Key>)
  {
    forall i, j | 0 <= i < j < |ks| :: ks[i] != ks[j]
  }

  /** The sum of `m` over the groups of the keys `ks`, group by group. */
  function GroupsTotal(rows: seq<Row>, ks: seq<Key>, m: Measure): real
  {
    if ks == [] then 0.0 else SumOf(GroupRows(rows, ks[0]), m) + GroupsTotal(rows, ks[1..], m)
  }

  /** The sum of `m` over the rows whose key fields are all present. */
  function KeyedTotal(rows: seq<Row>, m: Measure): real
  {
    if rows == [] then 0.0
    else
      var r := rows[|rows| - 1];
      KeyedTotal(rows[..|rows| - 1], m) + (if KeyOf(r).Some? then Contribution(r, m) else 0.0)
  }

  lemma {:induction false} GroupsTotalAppend(rows: seq<Row>, r: Row, ks: seq<Key>, m: Measure)
    requires Distinct(ks)
    ensures GroupsTotal(rows + [r], ks, m)
      == GroupsTotal(rows, ks, m) + (if KeyOf(r).Some? && KeyOf(r).value in ks then Contribution(r, m) else 0.0)
  {
    if ks != [] {
      assert (rows + [r])[..|rows|] == rows;
      if KeyOf(r) == Some(ks[0]) {
        SumOfAppend(GroupRows(rows, ks[0]), r, m);
      }
      assert ks == [ks[0]] + ks[1..];
      GroupsTotalAppend(rows, r, ks[1..], m);
    }
  }

  /** Summed group by group over distinct keys covering every keyed row, each keyed row counts once. */
  lemma {:induction false} GroupsTotalConserves(rows: seq<Row>, ks: seq<Key>, m: Measure)
    requires Distinct(ks)
    requires forall k :: HasGroup(rows, k) ==> k in ks
    ensures GroupsTotal(rows, ks, m) == KeyedTotal(rows, m)
  {
    if rows == [] {
      GroupsTotalOfNoRows(ks, m);
    } else {
      var init, r := rows[..|rows| - 1], rows[|rows| - 1];
      forall k | HasGroup(init, k)
        ensures k in ks
      {
        var i :| 0 <= i < |init| && KeyOf(init[i]) == Some(k);
        assert rows[i] == init[i];
      }
      GroupsTotalConserves(init, ks, m);
      assert rows == init + [r];
      GroupsTotalAppend(init, r, ks, m);
      if KeyOf(r).Some? {
        assert HasGroup(rows, KeyOf(r).value);
      }
    }
  }

  lemma {:induction false} GroupsTotalOfNoRows(ks: seq<Key>, m: Measure)
    ensures GroupsTotal([], ks, m) == 0.0
  {
    if ks != [] {
      GroupsTotalOfNoRows(ks[1..], m);
    }
  }

  /** The column of a summary that holds the sum of `m`. */
  function Field(s: Summary, m: Measure): real
  {
    match m
    case TotalVolume => s.totalVolume
    case TotalOpenInt => s.totalOpenInt
    case PositiveDelta => s.positiveDeltaVolume
    case NegativeDelta => s.negativeDeltaVolume
  }

  /** The column total of `m` over an output table. */
  function ColumnTotal(out: seq<Summary>, m: Measure): real
  {
    if out == [] then 0.0 else Field(out[0], m) + ColumnTotal(out[1..], m)
  }

  lemma {:induction false} ColumnTotalIsGroupsTotal(rows: seq<Row>, out: seq<Summary>, m: Measure)
    requires forall j | 0 <= j < |out| :: Describes(rows, out[j])
    ensures ColumnTotal(out, m) == GroupsTotal(rows, KeysOf(out), m)
  {
    if out != [] {
      ColumnTotalIsGroupsTotal(rows, out[1..], m);
      assert KeysOf(out)[1..] == KeysOf(out[1..]);
    }
  }

  /**
   * Nothing is lost or counted twice: each column total of the grouped
   * table equals the sum over the input rows whose key fields are all
   * present; rows with a null key field count nowhere.
   */
  lemma AggregateConservesTotals(rows: seq<Row>, m: Measure)
    ensures ColumnTotal(Aggregate(rows), m) == KeyedTotal(rows, m)
  {
    var out := Aggregate(rows);
    var ks := KeysOf(out);
    ColumnTotalIsGroupsTotal(rows, out, m);
    forall i, j | 0 <= i < j < |ks|
      ensures ks[i] != ks[j]
    {
      KeyLessIrreflexive(ks[i]);
    }
    forall k | HasGroup(rows, k)
      ensures k in ks
    {
      var j :| 0 <= j < |out| && out[j].key == k;
      assert ks[j] == k;
    }
    GroupsTotalConserves(rows, ks, m);
  }
}
