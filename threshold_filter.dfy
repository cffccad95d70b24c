/**
 * The activity/exposure filter (process_options.py, lines 70-72): a group
 * is kept when its total volume is at least 1000 and its delta-volume
 * difference is strictly positive. The boolean mask keeps the surviving
 * rows in their order.
 */
module ThresholdFilter {
  import opened OptionsData
  import opened Aggregator
  import opened KeyOrder

  const MinTotalVolume: real := 1000.0

  predicate Keep(s: Summary)
  {
    s.totalVolume >= MinTotalVolume && s.deltaVolumeDiff > 0.0
  }

  /** The groups that pass, in their original order. */
  function FilterGroups(groups: seq<Summary>): (kept: seq<Summary>)
    ensures forall s :: s in kept <==> s in groups && Keep(s)
    ensures forall s :: multiset(kept)[s] == if Keep(s) then multiset(groups)[s] else 0
    ensures |kept| <= |groups|
  {
    if groups == [] then []
    else
      assert groups == [groups[0]] + groups[1..]; (if Keep(groups[0]) then [groups[0]] else []) + FilterGroups(groups[1..])
  }

  /** `a` can be obtained from `b` by deleting elements. */
  predicate IsSubsequence(a: seq<Summary>, b: seq<Summary>)
    decreases |b|
  {
    if a == [] then true
    else if b == [] then false
    else if a[0] == b[0] then IsSubsequence(a[1..], b[1..])
    else IsSubsequence(a, b[1..])
  }

  /** The filter output is an order-preserving subsequence of its input. */
  lemma {:induction false} FilterIsSubsequence(groups: seq<Summary>)
    ensures IsSubsequence(FilterGroups(groups), groups)
  {
    if groups != [] {
      var rest := FilterGroups(groups[1..]);
      FilterIsSubsequence(groups[1..]);
      if Keep(groups[0]) {
        assert FilterGroups(groups) == [groups[0]] + rest;
        assert ([groups[0]] + rest)[1..] == rest;
      } else {
        assert FilterGroups(groups) == rest;
        if rest != [] {
          assert rest[0] in rest;
        }
      }
    }
  }

  /** Filtering an already filtered table changes nothing. */
  lemma {:induction false} FilterIdempotent(groups: seq<Summary>)
    ensures FilterGroups(FilterGroups(groups)) == FilterGroups(groups)
  {
    if groups != [] {
      var rest := FilterGroups(groups[1..]);
      FilterIdempotent(groups[1..]);
      if Keep(groups[0]) {
        assert FilterGroups(groups) == [groups[0]] + rest;
        assert ([groups[0]] + rest)[1..] == rest;
      } else {
        assert FilterGroups(groups) == rest;
      }
    }
  }

  /** Filtering keeps the groups in ascending key order. */
  lemma {:induction false} FilterKeepsKeyOrder(groups: seq<Summary>)
    requires KeysAscending(groups)
    ensures KeysAscending(FilterGroups(groups))
  {
    if groups != [] {
      var ks := KeysOf(groups);
      assert KeysAscending(groups[1..]) by {
        var ts := KeysOf(groups[1..]);
        forall i, j | 0 <= i < j < |ts|
          ensures KeyLess(ts[i], ts[j])
        {
          assert ts[i] == ks[i + 1] && ts[j] == ks[j + 1];
        }
      }
      FilterKeepsKeyOrder(groups[1..]);
      var rest := FilterGroups(groups[1..]);
      forall s | s in rest
        ensures KeyLess(groups[0].key, s.key)
      {
        var j :| 0 <= j < |groups[1..]| && groups[1..][j] == s;
        assert ks[0] == groups[0].key && ks[j + 1] == s.key;
      }
      var kept := FilterGroups(groups);
      if Keep(groups[0]) {
        assert kept == [groups[0]] + rest;
        var rs, ps := KeysOf(rest), KeysOf(kept);
        forall i, j | 0 <= i < j < |ps|
          ensures KeyLess(ps[i], ps[j])
        {
          assert ps[j] == rs[j - 1] == rest[j - 1].key;
          if i > 0 {
            assert ps[i] == rs[i - 1];
          } else {
            assert ps[i] == groups[0].key;
            assert rest[j - 1] in rest;
          }
        }
      } else {
        assert kept == rest;
      }
    }
  }

  /** The thresholds at their edges: volume 1000 passes, a zero difference does not. */
  lemma KeepBoundaries(k: Key, openInt: real, positive: real, negative: real)
    ensures Keep(Summary(k, 1000.0, openInt, positive, negative, 0.5))
    ensures !Keep(Summary(k, 1000.0, openInt, positive, negative, 0.0))
    ensures !Keep(Summary(k, 999.0, openInt, positive, negative, 5.0))
    ensures !Keep(Summary(k, 1500.0, openInt, positive, negative, -10.0))
  {
  }
}
