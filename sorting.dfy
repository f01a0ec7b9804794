/** `this._rows.sort(dynamicSort(property))`: the rows array is sorted in
    place by the comparator, stably (rows the comparator ties keep their
    relative order, as `Array.prototype.sort` guarantees). */
module Sorting {
  import opened Values
  import opened Comparators

  /** No row is placed after one the comparator puts behind it. */
  ghost predicate SortedBy(property: string, s: seq<Row>) {
    forall i, j :: 0 <= i < j < |s| ==> DynamicSort(property, s[i], s[j]) <= 0
  }

  /** `perm` lists the positions 0 to n-1, each once. */
  ghost predicate IsPermutation(perm: seq<int>, n: nat) {
    |perm| == n &&
    (forall k :: 0 <= k < n ==> 0 <= perm[k] < n) &&
    (forall p, q :: 0 <= p < q < n ==> perm[p] != perm[q])
  }

  /** Row `k` of `now` is row `perm[k]` of `before`, for a permutation `perm`. */
  ghost predicate Rearranges(perm: seq<int>, before: seq<Row>, now: seq<Row>) {
    |now| == |before| && IsPermutation(perm, |before|) &&
    forall k :: 0 <= k < |now| ==> now[k] == before[perm[k]]
  }

  /** `after` is `before` rearranged by `perm`, sorted by the comparator, and
      two rows the comparator ties are in their original relative order. */
  ghost predicate IsStableSortOf(perm: seq<int>, before: seq<Row>, after: seq<Row>, property: string) {
    Rearranges(perm, before, after) &&
    SortedBy(property, after) &&
    forall p, q :: 0 <= p < q < |after| && DynamicSort(property, after[p], after[q]) == 0 ==> perm[p] < perm[q]
  }

  /** Exchanging two neighbours of a rearrangement, and the same two entries of
      the permutation, gives a rearrangement again. */
  lemma SwapRearranges(perm: seq<int>, before: seq<Row>, now: seq<Row>, j: int)
    requires Rearranges(perm, before, now) && 0 < j < |now|
    ensures Rearranges(perm[j - 1 := perm[j]][j := perm[j - 1]], before,
                       now[j - 1 := now[j]][j := now[j - 1]])
  {
    var perm' := perm[j - 1 := perm[j]][j := perm[j - 1]];
    forall p, q | 0 <= p < q < |now| ensures perm'[p] != perm'[q] {
      var sp := if p == j - 1 then j else if p == j then j - 1 else p;
      var sq := if q == j - 1 then j else if q == j then j - 1 else q;
      assert perm'[p] == perm[sp] && perm'[q] == perm[sq] && sp != sq;
    }
  }

  /** The two sequences hold the same rows, each as often. */
  ghost predicate SameRows(s: seq<Row>, t: seq<Row>) {
    multiset(s) == multiset(t)
  }

  /** Exchanging two neighbours keeps the same rows. */
  lemma SwapKeepsRows(s: seq<Row>, j: int, before: seq<Row>)
    requires 0 < j < |s| && SameRows(s, before)
    ensures SameRows(s[j - 1 := s[j]][j := s[j - 1]], before)
  {
    var pre, post := s[..j - 1], s[j + 1..];
    var t := s[j - 1 := s[j]][j := s[j - 1]];
    assert s == pre + [s[j - 1], s[j]] + post;
    assert t == pre + [s[j], s[j - 1]] + post;
    assert multiset([s[j - 1], s[j]]) == multiset([s[j], s[j - 1]]);
    assert multiset(t) == multiset(pre) + multiset([s[j], s[j - 1]]) + multiset(post);
  }

  /** The outer loop's progress: the first `i` rows are sorted and stable,
      they came from the first `i` positions, and the rest are untouched. */
  ghost predicate SortedPrefix(property: string, s: seq<Row>, perm: seq<int>, i: int) {
    0 <= i <= |s| == |perm| &&
    (forall k :: i <= k < |s| ==> perm[k] == k) &&
    (forall k :: 0 <= k < i ==> perm[k] < i) &&
    (forall p, q :: 0 <= p < q < i ==> DynamicSort(property, s[p], s[q]) <= 0) &&
    (forall p, q :: 0 <= p < q < i && DynamicSort(property, s[p], s[q]) == 0 ==> perm[p] < perm[q])
  }

  /** The inner loop's progress: row `i` of the input, now at `j`, is moving
      down; apart from it the first `i + 1` rows are sorted and stable, and
      every row it has passed belongs strictly behind it. */
  ghost predicate Inserting(property: string, s: seq<Row>, perm: seq<int>, i: int, j: int) {
    0 <= j <= i < |s| == |perm| &&
    (forall k :: i < k < |s| ==> perm[k] == k) &&
    perm[j] == i && (forall k :: 0 <= k <= i && k != j ==> perm[k] < i) &&
    (forall p, q :: 0 <= p < q <= i && p != j && q != j ==> DynamicSort(property, s[p], s[q]) <= 0) &&
    (forall q :: j < q <= i ==> DynamicSort(property, s[j], s[q]) < 0) &&
    (forall p, q :: 0 <= p < q <= i && p != j && q != j && DynamicSort(property, s[p], s[q]) == 0 ==> perm[p] < perm[q])
  }

  lemma InsertStart(property: string, s: seq<Row>, perm: seq<int>, i: int)
    requires SortedPrefix(property, s, perm, i) && i < |s|
    ensures Inserting(property, s, perm, i, i)
  {
  }

  /** Moving the row down past a neighbour that belongs behind it keeps the
      inner loop's progress. */
  lemma InsertStep(property: string, s: seq<Row>, perm: seq<int>, i: int, j: int)
    requires Inserting(property, s, perm, i, j) && j > 0
    requires DynamicSort(property, s[j - 1], s[j]) > 0
    ensures Inserting(property, s[j - 1 := s[j]][j := s[j - 1]], perm[j - 1 := perm[j]][j := perm[j - 1]], i, j - 1)
  {
    var s' := s[j - 1 := s[j]][j := s[j - 1]];
    var perm' := perm[j - 1 := perm[j]][j := perm[j - 1]];
    DynamicSortAntisymmetric(property, s[j - 1], s[j]);
    forall p, q | 0 <= p < q <= i && p != j - 1 && q != j - 1
      ensures DynamicSort(property, s'[p], s'[q]) <= 0
      ensures DynamicSort(property, s'[p], s'[q]) == 0 ==> perm'[p] < perm'[q]
    {
      var sp := if p == j then j - 1 else p;
      var sq := if q == j then j - 1 else q;
      assert s'[p] == s[sp] && s'[q] == s[sq] && perm'[p] == perm[sp] && perm'[q] == perm[sq];
    }
    assert s'[j - 1] == s[j] && perm'[j - 1] == i;
    forall q | j - 1 < q <= i ensures DynamicSort(property, s'[j - 1], s'[q]) < 0 {
      if q == j {
        assert s'[q] == s[j - 1];
      } else {
        assert s'[q] == s[q];
      }
    }
  }

  /** Once the row has stopped, the first `i + 1` rows are sorted and stable. */
  lemma InsertDone(property: string, s: seq<Row>, perm: seq<int>, i: int, j: int)
    requires Inserting(property, s, perm, i, j)
    requires j > 0 ==> DynamicSort(property, s[j - 1], s[j]) <= 0
    ensures SortedPrefix(property, s, perm, i + 1)
  {
    forall p | 0 <= p < j ensures DynamicSort(property, s[p], s[j]) <= 0 {
      if p < j - 1 {
        DynamicSortTransitive(property, s[p], s[j - 1], s[j]);
      }
    }
  }

  /** Exchanges `a[j - 1]` and `a[j]`. */
  method SwapNeighbours(a: array<Row>, j: int)
    requires 0 < j < a.Length
    modifies a
    ensures a[..] == old(a[..])[j - 1 := old(a[j])][j := old(a[j - 1])]
  {
    a[j - 1], a[j] := a[j], a[j - 1];
  }

  /** Sorts `a` in place by the comparator, by insertion; `perm` (ghost) says
      where each row came from. */
  method InsertionSort(a: array<Row>, property: string) returns (ghost perm: seq<int>)
    modifies a
    ensures IsStableSortOf(perm, old(a[..]), a[..], property)
    ensures multiset(a[..]) == multiset(old(a[..]))
  {
    ghost var before := a[..];
    var n := a.Length;
    perm := seq(n, k => k);
    var i := 0;
    while i < n
      invariant 0 <= i <= n
      invariant Rearranges(perm, before, a[..])
      invariant SortedPrefix(property, a[..], perm, i)
      invariant SameRows(a[..], before)
    {
      perm := InsertRow(a, property, i, before, perm);
      i := i + 1;
    }
  }

  /** One pass of the outer loop: move row `i` down past every row of the
      sorted prefix that belongs strictly behind it. */
  method InsertRow(a: array<Row>, property: string, i: int, ghost before: seq<Row>, ghost perm0: seq<int>)
    returns (ghost perm: seq<int>)
    requires 0 <= i < a.Length
    requires Rearranges(perm0, before, a[..]) && SortedPrefix(property, a[..], perm0, i)
    requires SameRows(a[..], before)
    modifies a
    ensures Rearranges(perm, before, a[..]) && SortedPrefix(property, a[..], perm, i + 1)
    ensures SameRows(a[..], before)
  {
    perm := perm0;
    var j := i;
    InsertStart(property, a[..], perm, i);
    while j > 0 && DynamicSort(property, a[j - 1], a[j]) > 0
      invariant Rearranges(perm, before, a[..])
      invariant Inserting(property, a[..], perm, i, j)
      invariant SameRows(a[..], before)
    {
      ghost var s := a[..];
      InsertStep(property, s, perm, i, j);
      SwapRearranges(perm, before, s, j);
      SwapKeepsRows(s, j, before);
      SwapNeighbours(a, j);
      perm := perm[j - 1 := perm[j]][j := perm[j - 1]];
      j := j - 1;
    }
    InsertDone(property, a[..], perm, i, j);
  }

  /** The property `handleSort` sorts by: "-" before the column's key when the
      button's `data-order` is "-1", the bare key otherwise. */
  function SortProperty(key: string, order: string): (property: string)
    ensures order == "-1" ==> IsDescending(property) && SortKey(property) == key
    ensures order != "-1" && !IsDescending(key) ==> !IsDescending(property) && SortKey(property) == key
  {
    if order == "-1" then "-" + key else key
  }

  /** Rows sorted for a column with order "-1" are in descending order of
      that column's cells, whatever its name; with any other order, a column
      whose name does not start with "-" is in ascending order.  Null cells
      come first in ascending order and last in descending. */
  lemma SortedByColumn(key: string, order: string, s: seq<Row>)
    requires (order == "-1" || !IsDescending(key)) && SortedBy(SortProperty(key, order), s)
    ensures forall i, j :: 0 <= i < j < |s| ==>
              if order == "-1" then LessOrEqual(Cell(s[j], key), Cell(s[i], key))
              else LessOrEqual(Cell(s[i], key), Cell(s[j], key))
    ensures forall i, j :: 0 <= i < j < |s| ==>
              if order == "-1" then Cell(s[i], key) == Null ==> Cell(s[j], key) == Null
              else Cell(s[j], key) == Null ==> Cell(s[i], key) == Null
  {
    var property := SortProperty(key, order);
    forall i, j | 0 <= i < j < |s|
      ensures if order == "-1" then LessOrEqual(Cell(s[j], key), Cell(s[i], key))
              else LessOrEqual(Cell(s[i], key), Cell(s[j], key))
    {
      DynamicSortOrderMeaning(property, s[i], s[j]);
    }
    forall i, j | 0 <= i < j < |s|
      ensures if order == "-1" then Cell(s[i], key) == Null ==> Cell(s[j], key) == Null
              else Cell(s[j], key) == Null ==> Cell(s[i], key) == Null
    {
      DynamicSortOrderMeaning(property, s[i], s[j]);
      NullLeast(Cell(s[i], key));
      NullLeast(Cell(s[j], key));
    }
  }

  /** A column whose name starts with "-", sorted with any order other than
      "-1", is sorted by the key without the "-" and in descending order,
      because `dynamicSort` reads the column name's own "-" as the direction. */
  lemma DashColumnSortsDescending(key: string, order: string, s: seq<Row>)
    requires IsDescending(key) && order != "-1" && SortedBy(SortProperty(key, order), s)
    ensures forall i, j :: 0 <= i < j < |s| ==> LessOrEqual(Cell(s[j], key[1..]), Cell(s[i], key[1..]))
  {
    forall i, j | 0 <= i < j < |s|
      ensures LessOrEqual(Cell(s[j], key[1..]), Cell(s[i], key[1..]))
    {
      DynamicSortOrderMeaning(key, s[i], s[j]);
    }
  }

  /** A permutation that never decreases is the identity. */
  lemma {:induction false} IncreasingPermutationIsIdentity(perm: seq<int>, n: nat)
    requires IsPermutation(perm, n)
    requires forall p, q :: 0 <= p < q < n ==> perm[p] < perm[q]
    ensures forall k :: 0 <= k < n ==> perm[k] == k
  {
    forall k | 0 <= k < n ensures perm[k] == k {
      AtLeastIndex(perm, n, k);
      AtMostIndex(perm, n, k);
    }
  }

  lemma {:induction false} AtLeastIndex(perm: seq<int>, n: nat, k: nat)
    requires IsPermutation(perm, n) && k < n
    requires forall p, q :: 0 <= p < q < n ==> perm[p] < perm[q]
    ensures perm[k] >= k
  {
    if k > 0 {
      AtLeastIndex(perm, n, k - 1);
    }
  }

  lemma {:induction false} AtMostIndex(perm: seq<int>, n: nat, k: nat)
    requires IsPermutation(perm, n) && k < n
    requires forall p, q :: 0 <= p < q < n ==> perm[p] < perm[q]
    ensures perm[k] <= k
    decreases n - k
  {
    if k < n - 1 {
      AtMostIndex(perm, n, k + 1);
      assert perm[k] < perm[k + 1];
    } else {
      assert perm[k] < n;
    }
  }

  /** In a rearrangement of sorted rows, two rows whose original order is
      reversed compare as "may come before" in their original order. */
  lemma SortedKeepsPairOrder(perm: seq<int>, before: seq<Row>, after: seq<Row>, property: string, p: int, q: int)
    requires SortedBy(property, before) && Rearranges(perm, before, after)
    requires 0 <= p < q < |after|
    ensures perm[q] < perm[p] ==> DynamicSort(property, after[q], after[p]) <= 0
  {
    if perm[q] < perm[p] {
      assert after[q] == before[perm[q]] && after[p] == before[perm[p]];
    }
  }

  /** Sorting rows that are already sorted leaves them as they were: the
      stable sort of a sorted sequence is that sequence. */
  lemma StableSortOfSortedIsIdentity(perm: seq<int>, before: seq<Row>, after: seq<Row>, property: string)
    requires SortedBy(property, before) && IsStableSortOf(perm, before, after, property)
    ensures after == before
  {
    var n := |before|;
    forall p, q | 0 <= p < q < n ensures perm[p] < perm[q] {
      DynamicSortAntisymmetric(property, after[p], after[q]);
      SortedKeepsPairOrder(perm, before, after, property, p, q);
    }
    IncreasingPermutationIsIdentity(perm, n);
  }
}
