/**
 * Cleaning of the implied-volatility text (process_options.py, line 44):
 * every '%' and then every ',' is removed before the text is converted
 * to a number.
 */
module IvText {

  /** `s` with every occurrence of `c` removed and all other characters kept in order. */
  function RemoveChar(s: string, c: char): (r: string)
    ensures c !in r
    ensures forall x :: x in r <==> x in s && x != c
    ensures |r| <= |s|
  {
    if s == [] then []
    else (if s[0] == c then [] else [s[0]]) + RemoveChar(s[1..], c)
  }

  /** Every character other than `c` keeps its number of occurrences. */
  lemma {:induction false} RemoveCharCounts(s: string, c: char)
    ensures forall x :: x != c ==> multiset(RemoveChar(s, c))[x] == multiset(s)[x]
  {
    if s != [] {
      assert s == [s[0]] + s[1..];
      RemoveCharCounts(s[1..], c);
    }
  }

  /** The IV cell text after `.str.replace('%', '').str.replace(',', '')`. */
  function CleanIV(s: string): string
  {
    RemoveChar(RemoveChar(s, '%'), ',')
  }

  /** The two characters the cleaning step removes. */
  predicate IsSeparator(x: char)
  {
    x == '%' || x == ','
  }

  /** Reference definition: one left-to-right pass keeping every non-separator. */
  function KeepNonSeparators(s: string): string
  {
    if s == [] then []
    else if IsSeparator(s[0]) then KeepNonSeparators(s[1..])
    else [s[0]] + KeepNonSeparators(s[1..])
  }

  /** Removing a character distributes over concatenation: the order of what is kept is preserved. */
  lemma {:induction false} RemoveCharAppend(a: string, b: string, c: char)
    ensures RemoveChar(a + b, c) == RemoveChar(a, c) + RemoveChar(b, c)
  {
    if a == [] {
      assert a + b == b;
    } else {
      assert (a + b)[0] == a[0];
      assert (a + b)[1..] == a[1..] + b;
      RemoveCharAppend(a[1..], b, c);
    }
  }

  /** Removing `c` leaves the text unchanged exactly when `c` does not occur in it. */
  lemma {:induction false} RemoveCharUnchanged(s: string, c: char)
    ensures RemoveChar(s, c) == s <==> c !in s
  {
    if s != [] && c !in s {
      RemoveCharUnchanged(s[1..], c);
    }
  }

  /** The cleaned text holds no separator, and its other characters are those of `s`, with multiplicity. */
  lemma CleanIVContents(s: string)
    ensures '%' !in CleanIV(s) && ',' !in CleanIV(s)
    ensures forall x :: x in CleanIV(s) <==> x in s && !IsSeparator(x)
    ensures forall x :: !IsSeparator(x) ==> multiset(CleanIV(s))[x] == multiset(s)[x]
  {
    RemoveCharCounts(s, '%');
    RemoveCharCounts(RemoveChar(s, '%'), ',');
  }

  /** The two passes of line 44 remove exactly the separators and keep every other character in order. */
  lemma {:induction false} CleanIVKeepsOthersInOrder(s: string)
    ensures CleanIV(s) == KeepNonSeparators(s)
  {
    if s != [] {
      CleanIVKeepsOthersInOrder(s[1..]);
      var head := if s[0] == '%' then [] else [s[0]];
      assert RemoveChar(s, '%') == head + RemoveChar(s[1..], '%');
      RemoveCharAppend(head, RemoveChar(s[1..], '%'), ',');
    }
  }

  /** Cleaning twice is the same as cleaning once. */
  lemma CleanIVIdempotent(s: string)
    ensures CleanIV(CleanIV(s)) == CleanIV(s)
  {
    var t := CleanIV(s);
    RemoveCharUnchanged(t, '%');
    RemoveCharUnchanged(t, ',');
  }

  /** "45.2%" cleans to "45.2". */
  lemma CleanIVPercentExample()
    ensures CleanIV("45.2%") == "45.2"
  {
    var cell := "45.2%";
    CleanIVKeepsOthersInOrder(cell);
    assert KeepNonSeparators(cell) == "45.2";
  }

  /** "1,234%" cleans to "1234". */
  lemma CleanIVThousandsExample()
    ensures CleanIV("1,234%") == "1234"
  {
    var cell := "1,234%";
    CleanIVKeepsOthersInOrder(cell);
    assert KeepNonSeparators(cell) == "1234";
  }
}
