/**
  The decision of a sanitize step: which rows of a node were found in a report, and the
  binary search that asks whether a row is among them.
 */
module FoundIndexes {

  // ---- Binary search -------------------------------------------------------------------------

  /** `sort.Search` on `a[lo..hi]` for the predicate `a[i] >= item`. */
  function Search(a: seq<int>, item: int, lo: nat, hi: nat): (i: nat)
    requires lo <= hi <= |a|
    ensures lo <= i <= hi
    decreases hi - lo
  {
    if lo == hi then lo
    else
      var h := (lo + hi) / 2;
      if a[h] >= item then Search(a, item, lo, h) else Search(a, item, h + 1, hi)
  }

  /** The answer of the search on any list, sorted or not. */
  predicate Found(a: seq<int>, item: int) {
    var i := Search(a, item, 0, |a|);
    i < |a| && a[i] == item
  }

  /** `binarySearchSanitizeDB`, with the loop of `sort.Search` written out. */
  method BinarySearch(indexes: seq<int>, item: int) returns (found: bool)
    ensures found == Found(indexes, item)
  {
    var i, j := 0, |indexes|;
    while i < j
      invariant 0 <= i <= j <= |indexes|
      invariant Search(indexes, item, i, j) == Search(indexes, item, 0, |indexes|)
    {
      var h := (i + j) / 2;
      if indexes[h] >= item {
        j := h;
      } else {
        i := h + 1;
      }
    }
    found := i < |indexes| && indexes[i] == item;
  }

  predicate Ascending(a: seq<int>) {
    forall i, j | 0 <= i < j < |a| :: a[i] <= a[j]
  }

  predicate Distinct<T(==)>(a: seq<T>) {
    forall i, j | 0 <= i < j < |a| :: a[i] != a[j]
  }

  lemma {:induction false} SearchSplits(a: seq<int>, item: int, lo: nat, hi: nat)
    requires lo <= hi <= |a| && forall i, j | lo <= i < j < hi :: a[i] <= a[j]
    ensures forall i | lo <= i < hi :: a[i] < item <==> i < Search(a, item, lo, hi)
    decreases hi - lo
  {
    if lo == hi {
    } else {
      var h := (lo + hi) / 2;
      if a[h] >= item {
        SearchSplits(a, item, lo, h);
      } else {
        SearchSplits(a, item, h + 1, hi);
      }
    }
  }

  /** On any list a hit is a member; on an ascending list every member is a hit. */
  lemma FoundIsMember(a: seq<int>, item: int)
    ensures Found(a, item) ==> item in a
    ensures Ascending(a) ==> (Found(a, item) <==> item in a)
  {
    if Ascending(a) {
      SearchSplits(a, item, 0, |a|);
    }
  }

  /** An element found at its own place lies on its side of the middle element. */
  lemma FoundOnItsSide(a: seq<int>, lo: nat, hi: nat, j: nat)
    requires lo <= j < hi <= |a| && Search(a, a[j], lo, hi) == j
    ensures var h := (lo + hi) / 2;
            (j < h ==> a[j] <= a[h] && Search(a, a[j], lo, h) == j)
            && (h < j ==> a[h] < a[j] && Search(a, a[j], h + 1, hi) == j)
  {}

  /** If every element of a stretch is found at its own place, the stretch is ascending. */
  lemma {:induction false} FoundEverywhere(a: seq<int>, lo: nat, hi: nat)
    requires lo <= hi <= |a|
    requires forall j | lo <= j < hi :: Search(a, a[j], lo, hi) == j
    ensures forall i, j | lo <= i < j < hi :: a[i] <= a[j]
    decreases hi - lo
  {
    hide Search;
    if lo == hi {
    } else {
      var h := (lo + hi) / 2;
      forall j | lo <= j < hi
        ensures j < h ==> a[j] <= a[h] && Search(a, a[j], lo, h) == j
        ensures h < j ==> a[h] < a[j] && Search(a, a[j], h + 1, hi) == j
      {
        FoundOnItsSide(a, lo, hi, j);
      }
      FoundEverywhere(a, lo, h);
      FoundEverywhere(a, h + 1, hi);
    }
  }

  /** The search finds every member of a list. */
  predicate FindsAll(a: seq<int>) {
    forall i | 0 <= i < |a| :: Found(a, a[i])
  }

  /** On a list without repetitions the search finds every member exactly when the list is
      ascending. */
  lemma CompleteIffAscending(a: seq<int>)
    requires Distinct(a)
    ensures FindsAll(a) <==> Ascending(a)
  {
    if Ascending(a) {
      forall i | 0 <= i < |a| ensures Found(a, a[i]) {
        FoundIsMember(a, a[i]);
      }
    }
    if FindsAll(a) {
      forall j | 0 <= j < |a| ensures Search(a, a[j], 0, |a|) == j {
        assert Found(a, a[j]);
      }
      FoundEverywhere(a, 0, |a|);
    }
  }

  // ---- The list of found indexes ---------------------------------------------------------------

  /** The indexes at which `order` holds `key`, from index `from` on. */
  function Matches<K(==)>(order: seq<K>, key: K, from: nat): (r: seq<int>)
    requires from <= |order|
    ensures forall x | x in r :: from <= x < |order| && order[x] == key
    ensures forall i | from <= i < |order| && order[i] == key :: i in r
    decreases |order| - from
  {
    if from == |order| then []
    else (if order[from] == key then [from] else []) + Matches(order, key, from + 1)
  }

  /** `foundIndex` after the nested loops: the matches of each reported key, in report order. */
  function FoundList<K(==)>(order: seq<K>, reported: seq<K>): (r: seq<int>)
    ensures forall x | x in r :: 0 <= x < |order| && order[x] in reported
    ensures forall i | 0 <= i < |order| && order[i] in reported :: i in r
  {
    if reported == [] then []
    else
      var last := |reported| - 1;
      assert reported == reported[..last] + [reported[last]];
      FoundList(order, reported[..last]) + Matches(order, reported[last], 0)
  }

  /** The nested loops themselves. */
  method CollectFound<K(==)>(order: seq<K>, reported: seq<K>) returns (found: seq<int>)
    ensures found == FoundList(order, reported)
  {
    found := [];
    var n := 0;
    while n < |reported|
      invariant 0 <= n <= |reported| && found == FoundList(order, reported[..n])
    {
      ghost var before := found;
      var idx := 0;
      while idx < |order|
        invariant 0 <= idx <= |order|
        invariant found + Matches(order, reported[n], idx) == before + Matches(order, reported[n], 0)
      {
        if order[idx] == reported[n] {
          found := found + [idx];
        }
        idx := idx + 1;
      }
      assert reported[..n + 1][..n] == reported[..n];
      n := n + 1;
    }
    assert reported[..n] == reported;
  }

  lemma {:induction false} NoMatch<K>(order: seq<K>, key: K, from: nat)
    requires from <= |order| && forall i | from <= i < |order| :: order[i] != key
    ensures Matches(order, key, from) == []
    decreases |order| - from
  {
    if from == |order| {
    } else {
      NoMatch(order, key, from + 1);
    }
  }

  lemma {:induction false} MatchesOnce<K>(order: seq<K>, key: K, from: nat)
    requires Distinct(order) && from <= |order|
    ensures |Matches(order, key, from)| <= 1
    decreases |order| - from
  {
    if from == |order| {
    } else {
      if order[from] == key {
        NoMatch(order, key, from + 1);
      } else {
        MatchesOnce(order, key, from + 1);
      }
    }
  }

  /** Distinct rows and distinct reported keys give a list without repetitions. */
  lemma {:induction false} FoundListDistinct<K>(order: seq<K>, reported: seq<K>)
    requires Distinct(order) && Distinct(reported)
    ensures Distinct(FoundList(order, reported))
    decreases |reported|
  {
    if reported == [] {
    } else {
      var last := |reported| - 1;
      var a, b := FoundList(order, reported[..last]), Matches(order, reported[last], 0);
      FoundListDistinct(order, reported[..last]);
      MatchesOnce(order, reported[last], 0);
      forall i, j | 0 <= i < j < |a + b| ensures (a + b)[i] != (a + b)[j] {
        if i < |a| <= j {
          assert a[i] in a && b[j - |a|] in b;
        }
      }
    }
  }

  /** Rows fetched in key order and a report ascending in the key, as for IP SLA, give an
      ascending list. */
  lemma {:induction false} OrderedReportAscends(order: seq<int>, reported: seq<int>)
    requires Ascending(order) && Distinct(order) && Ascending(reported)
    ensures Ascending(FoundList(order, reported))
    decreases |reported|
  {
    if reported == [] {
    } else {
      var last := |reported| - 1;
      var a, b := FoundList(order, reported[..last]), Matches(order, reported[last], 0);
      OrderedReportAscends(order, reported[..last]);
      MatchesOnce(order, reported[last], 0);
      forall i, j | 0 <= i < j < |a + b| ensures (a + b)[i] <= (a + b)[j] {
        if i < |a| <= j {
          assert a[i] in a && b[j - |a|] in b;
          assert order[a[i]] <= order[b[j - |a|]];
        }
      }
    }
  }

  // ---- What is deleted -----------------------------------------------------------------------------

  /** The keys the deleting loop removes. */
  function Deleted<K(==)>(order: seq<K>, reported: seq<K>): set<K> {
    set i | 0 <= i < |order| && !Found(FoundList(order, reported), i) :: order[i]
  }

  function Unreported<K(==)>(order: seq<K>, reported: seq<K>): set<K> {
    set i | 0 <= i < |order| && order[i] !in reported :: order[i]
  }

  /** Whatever the order, every unreported row is deleted; when the found indexes ascend,
      nothing else is. */
  lemma DeletesUnreported<K>(order: seq<K>, reported: seq<K>)
    requires Distinct(order)
    ensures Unreported(order, reported) <= Deleted(order, reported)
    ensures Ascending(FoundList(order, reported)) ==> Deleted(order, reported) == Unreported(order, reported)
  {
    var found := FoundList(order, reported);
    forall i | 0 <= i < |order|
      ensures order[i] !in reported ==> !Found(found, i)
      ensures Ascending(found) && order[i] in reported ==> Found(found, i)
    {
      FoundIsMember(found, i);
    }
  }

  /** For every report, the deleting loop removes exactly the unreported rows if and only if
      the search finds every index that was collected. */
  lemma DeletesExactlyIffAllFound<K>(order: seq<K>, reported: seq<K>)
    requires Distinct(order)
    ensures Deleted(order, reported) == Unreported(order, reported) <==> FindsAll(FoundList(order, reported))
  {
    hide FoundList, Search, Found;
    var found := FoundList(order, reported);
    DeletesUnreported(order, reported);
    if FindsAll(found) {
      forall k | k in Deleted(order, reported) ensures k in Unreported(order, reported) {
        var x := IndexOf(order, reported, k);
        assert x !in found;
      }
    } else {
      var i :| 0 <= i < |found| && !Found(found, found[i]);
      assert found[i] in found;
      assert order[found[i]] in Deleted(order, reported) && order[found[i]] !in Unreported(order, reported);
    }
  }

  lemma IndexOf<K>(order: seq<K>, reported: seq<K>, k: K) returns (x: nat)
    requires k in Deleted(order, reported)
    ensures x < |order| && order[x] == k && !Found(FoundList(order, reported), x)
  {
    hide FoundList, Found;
    x :| 0 <= x < |order| && order[x] == k && !Found(FoundList(order, reported), x);
  }

  /** For a report without repeated keys, that is so if and only if the found indexes ascend,
      that is, if the report lists the rows in the order in which they were fetched. */
  lemma DeletesExactlyIffAscending<K>(order: seq<K>, reported: seq<K>)
    requires Distinct(order) && Distinct(reported)
    ensures Deleted(order, reported) == Unreported(order, reported) <==> Ascending(FoundList(order, reported))
  {
    DeletesExactlyIffAllFound(order, reported);
    FoundListDistinct(order, reported);
    CompleteIffAscending(FoundList(order, reported));
  }

  /** Without that hypothesis it is not: a report that repeats a key gives an index list that
      does not ascend, and still every index is found. */
  lemma RepeatedKeyStillFound()
    ensures FoundList(["Gi1", "Gi2"], ["Gi1", "Gi2", "Gi1"]) == [0, 1, 0]
    ensures !Ascending([0, 1, 0]) && FindsAll([0, 1, 0])
  {
    MatchesOfTwo("Gi1", "Gi2");
    ListOfThree(["Gi1", "Gi2"], "Gi1", "Gi2", "Gi1");
    ZeroOneZero();
  }

  lemma ZeroOneZero()
    ensures !Ascending([0, 1, 0]) && FindsAll([0, 1, 0])
  {
    var found := [0, 1, 0];
    assert found[1] > found[2];
    assert Search(found, 0, 0, 1) == 0 && Search(found, 0, 0, 3) == 0;
    assert Search(found, 1, 0, 1) == 1 && Search(found, 1, 0, 3) == 1;
  }

  lemma ListOfThree<K>(order: seq<K>, a: K, b: K, c: K)
    ensures FoundList(order, [a, b, c]) == Matches(order, a, 0) + Matches(order, b, 0) + Matches(order, c, 0)
  {
    hide Matches;
    assert [a, b, c][..2] == [a, b] && [a, b][..1] == [a] && [a][..0] == [];
    assert FoundList(order, [a]) == [] + Matches(order, a, 0);
    assert FoundList(order, [a, b]) == FoundList(order, [a]) + Matches(order, b, 0);
  }

  lemma MatchesOfTwo<K>(a: K, b: K)
    requires a != b
    ensures Matches([a, b], a, 0) == [0] && Matches([a, b], b, 0) == [1]
  {
    NoMatch([a, b], a, 1);
    NoMatch([a, b], b, 2);
    assert Matches([a, b], b, 1) == [1] + Matches([a, b], b, 2);
  }

  /** Two rows reported in the opposite order: one of them is deleted although reported. */
  lemma UnsortedDeletesReported()
    ensures FoundList(["Gi1", "Gi2"], ["Gi2", "Gi1"]) == [1, 0]
    ensures "Gi1" in Deleted(["Gi1", "Gi2"], ["Gi2", "Gi1"])
  {
    var order, reported := ["Gi1", "Gi2"], ["Gi2", "Gi1"];
    assert reported[..1] == ["Gi2"] && reported[..1][..0] == [];
    MatchesOfTwo("Gi1", "Gi2");
    assert FoundList(order, reported[..1]) == [1];
    assert FoundList(order, reported) == [1, 0];
    assert Search([1, 0], 0, 0, 2) == 0;
    assert order[0] in Deleted(order, reported);
  }
}
