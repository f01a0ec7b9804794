/** The comparators `dynamicSort` and `dynamicSortMultiple` build.  A
    comparator is modelled by applying it: `DynamicSort(property, a, b)` is
    `dynamicSort(property)(a, b)`. */
module Comparators {
  import opened Values

  /** A property name with a leading "-" sorts in descending order. */
  predicate IsDescending(property: string) {
    |property| > 0 && property[0] == '-'
  }

  /** The key a property names: the property without its "-" prefix. */
  function SortKey(property: string): (key: string)
    ensures IsDescending(property) ==> "-" + key == property
    ensures !IsDescending(property) ==> key == property
  {
    if IsDescending(property) then property[1..] else property
  }

  /** -1, 0 or 1 as `x < y`, `x > y` or neither. */
  function CompareValues(x: Value, y: Value): (r: int)
    ensures r == -1 || r == 0 || r == 1
    ensures r == 0 <==> x == y
    ensures r == -1 <==> Less(x, y)
    ensures r == 1 <==> Less(y, x)
  {
    LessIsStrictTotalOrder(x, y, x);
    LessIsStrictTotalOrder(y, x, y);
    if Less(x, y) then -1 else if Less(y, x) then 1 else 0
  }

  /** `dynamicSort(property)(a, b)`: compare the two rows' cells under the
      property's key, negated when the property starts with "-". */
  function DynamicSort(property: string, a: Row, b: Row): (r: int)
    ensures r == -1 || r == 0 || r == 1
    ensures r == 0 <==> Cell(a, SortKey(property)) == Cell(b, SortKey(property))
  {
    var sortOrder := if IsDescending(property) then -1 else 1;
    CompareValues(Cell(a, SortKey(property)), Cell(b, SortKey(property))) * sortOrder
  }

  /** A "-" prefix strips to the key and negates the ascending comparison; a
      key without one compares ascending. */
  lemma DynamicSortPrefixNegates(key: string, a: Row, b: Row)
    ensures DynamicSort("-" + key, a, b) == -CompareValues(Cell(a, key), Cell(b, key))
    ensures !IsDescending(key) ==> DynamicSort(key, a, b) == CompareValues(Cell(a, key), Cell(b, key))
    ensures !IsDescending(key) ==> DynamicSort("-" + key, a, b) == -DynamicSort(key, a, b)
  {
    assert ("-" + key)[1..] == key;
  }

  /** Swapping the two rows negates the result. */
  lemma DynamicSortAntisymmetric(property: string, a: Row, b: Row)
    ensures DynamicSort(property, a, b) == -DynamicSort(property, b, a)
  {
  }

  /** `DynamicSort(property, a, b) <= 0` says that `a` may come before `b`:
      in ascending order `a`'s cell is at most `b`'s, in descending order at least. */
  lemma DynamicSortOrderMeaning(property: string, a: Row, b: Row)
    ensures var x, y := Cell(a, SortKey(property)), Cell(b, SortKey(property));
            DynamicSort(property, a, b) <= 0 <==>
              if IsDescending(property) then LessOrEqual(y, x) else LessOrEqual(x, y)
  {
  }

  /** "May come before" is transitive, so sorting by the comparator is well defined. */
  lemma DynamicSortTransitive(property: string, a: Row, b: Row, c: Row)
    requires DynamicSort(property, a, b) <= 0 && DynamicSort(property, b, c) <= 0
    ensures DynamicSort(property, a, c) <= 0
  {
    var k := SortKey(property);
    LessIsStrictTotalOrder(Cell(a, k), Cell(b, k), Cell(c, k));
    LessIsStrictTotalOrder(Cell(c, k), Cell(b, k), Cell(a, k));
  }

  /** The result of the comparator `dynamicSortMultiple(props...)` builds:
      the first non-zero single-key result, taking the keys in order, or 0. */
  function MultiCompare(props: seq<string>, a: Row, b: Row): (r: int)
    ensures r == -1 || r == 0 || r == 1
  {
    if props == [] then 0
    else
      var r := DynamicSort(props[0], a, b);
      if r != 0 then r else MultiCompare(props[1..], a, b)
  }

  /** MultiCompare is 0 exactly when every key ties (so also for no keys);
      otherwise it is the result of the first key that does not tie. */
  lemma {:induction false} MultiCompareFirstNonZero(props: seq<string>, a: Row, b: Row)
    ensures MultiCompare(props, a, b) == 0 <==>
            forall i :: 0 <= i < |props| ==> DynamicSort(props[i], a, b) == 0
    ensures forall i :: 0 <= i < |props| && DynamicSort(props[i], a, b) != 0 &&
                        (forall j :: 0 <= j < i ==> DynamicSort(props[j], a, b) == 0) ==>
                        MultiCompare(props, a, b) == DynamicSort(props[i], a, b)
  {
    if props != [] {
      MultiCompareFirstNonZero(props[1..], a, b);
      assert forall i :: 1 <= i < |props| ==> props[1..][i - 1] == props[i];
    }
  }

  /** Keys after the first non-tying one are never consulted: appending keys
      does not change a non-zero result. */
  lemma {:induction false} MultiCompareIgnoresLaterKeys(props: seq<string>, more: seq<string>, a: Row, b: Row)
    requires MultiCompare(props, a, b) != 0
    ensures MultiCompare(props + more, a, b) == MultiCompare(props, a, b)
  {
    assert props != [];
    assert (props + more)[0] == props[0];
    if DynamicSort(props[0], a, b) == 0 {
      assert (props + more)[1..] == props[1..] + more;
      MultiCompareIgnoresLaterKeys(props[1..], more, a, b);
    }
  }

  /** The comparator returned by `dynamicSortMultiple(props...)`, applied to
      `a` and `b`: try the keys in order while the result is still 0. */
  method DynamicSortMultiple(props: seq<string>, a: Row, b: Row) returns (result: int)
    ensures result == MultiCompare(props, a, b)
    ensures result == -1 || result == 0 || result == 1
  {
    var i := 0;
    result := 0;
    var numberOfProperties := |props|;
    assert props[i..] == props;
    while result == 0 && i < numberOfProperties
      invariant 0 <= i <= numberOfProperties
      invariant MultiCompare(props, a, b) == if result != 0 then result else MultiCompare(props[i..], a, b)
    {
      assert props[i..][1..] == props[i + 1..];
      result := DynamicSort(props[i], a, b);
      i := i + 1;
    }
  }
}
