/**
 * The order in which the grouping emits its groups. `groupby` sorts the
 * group keys (its default `sort=True`): lexicographically on
 * (Symbol, Price~, Type, Strike, Exp Date), with strings compared
 * character by character on code points and a proper prefix first.
 */
module KeyOrder {
  import opened OptionsData

  /** Code-point lexicographic order on strings. */
  predicate StrLess(a: string, b: string)
  {
    if a == [] then b != []
    else if b == [] then false
    else if a[0] != b[0] then a[0] < b[0]
    else StrLess(a[1..], b[1..])
  }

  lemma {:induction false} StrLessIrreflexive(a: string)
    ensures !StrLess(a, a)
  {
    if a != [] {
      StrLessIrreflexive(a[1..]);
    }
  }

  lemma {:induction false} StrLessTransitive(a: string, b: string, c: string)
    requires StrLess(a, b) && StrLess(b, c)
    ensures StrLess(a, c)
  {
    if a != [] && a[0] == b[0] && b[0] == c[0] {
      StrLessTransitive(a[1..], b[1..], c[1..]);
    }
  }

  lemma {:induction false} StrLessTotal(a: string, b: string)
    requires a != b
    ensures StrLess(a, b) || StrLess(b, a)
  {
    if a != [] && b != [] && a[0] == b[0] {
      assert a == [a[0]] + a[1..] && b == [b[0]] + b[1..];
      StrLessTotal(a[1..], b[1..]);
    }
  }

  /** Lexicographic order on group keys, field by field. */
  predicate KeyLess(x: Key, y: Key)
  {
    if x.symbol != y.symbol then StrLess(x.symbol, y.symbol)
    else if x.price != y.price then x.price < y.price
    else if x.optionType != y.optionType then StrLess(x.optionType, y.optionType)
    else if x.strike != y.strike then x.strike < y.strike
    else x.expDate.day < y.expDate.day
  }

  lemma KeyLessIrreflexive(x: Key)
    ensures !KeyLess(x, x)
  {
    StrLessIrreflexive(x.symbol);
    StrLessIrreflexive(x.optionType);
  }

  lemma KeyLessTransitive(x: Key, y: Key, z: Key)
    requires KeyLess(x, y) && KeyLess(y, z)
    ensures KeyLess(x, z)
  {
    if x.symbol != y.symbol && y.symbol != z.symbol {
      StrLessTransitive(x.symbol, y.symbol, z.symbol);
      StrLessIrreflexive(x.symbol);
    } else if x.symbol == y.symbol == z.symbol && x.price == y.price == z.price
      && x.optionType != y.optionType && y.optionType != z.optionType {
      StrLessTransitive(x.optionType, y.optionType, z.optionType);
      StrLessIrreflexive(x.optionType);
    }
  }

  lemma KeyLessTotal(x: Key, y: Key)
    requires x != y
    ensures KeyLess(x, y) || KeyLess(y, x)
  {
    if x.symbol != y.symbol {
      StrLessTotal(x.symbol, y.symbol);
    } else if x.price == y.price && x.optionType != y.optionType {
      StrLessTotal(x.optionType, y.optionType);
    }
  }

  /** Every key is below every later one: sorted and pairwise distinct. */
  predicate StrictlySorted(ks: seq<Key>)
  {
    forall i, j | 0 <= i < j < |ks| :: KeyLess(ks[i], ks[j])
  }

  /** A key below the head of a sorted sequence is below all of it. */
  lemma BelowSorted(k: Key, ks: seq<Key>)
    requires StrictlySorted(ks) && ks != [] && KeyLess(k, ks[0])
    ensures forall j | 0 <= j < |ks| :: KeyLess(k, ks[j])
  {
    forall j | 0 < j < |ks|
      ensures KeyLess(k, ks[j])
    {
      KeyLessTransitive(k, ks[0], ks[j]);
    }
  }

  /** Inserts `k` in its place in a sorted sequence of keys, unless it is already there. */
  function InsertKey(k: Key, ks: seq<Key>): (r: seq<Key>)
    requires StrictlySorted(ks)
    ensures StrictlySorted(r)
    ensures forall x :: x in r <==> x == k || x in ks
  {
    if ks == [] then [k]
    else if k == ks[0] then ks
    else if KeyLess(k, ks[0]) then
      BelowSorted(k, ks);
      [k] + ks
    else
      KeyLessTotal(k, ks[0]);
      var tail := InsertKey(k, ks[1..]);
      assert forall x | x in tail :: KeyLess(ks[0], x);
      [ks[0]] + tail
  }
}
