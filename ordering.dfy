/**
 * The order of the list view (`renderList`): newest date first, and among
 * records of the same date the later `createdAt` first. `localeCompare` is
 * modelled as lexicographic comparison by character code, which agrees with it
 * on ASCII `YYYY-MM-DD` dates.
 */
module Ordering {
  import opened Records
  import opened Text

  /** The comparator passed to `Array.prototype.sort`: positive when `b` must
      come before `a`. */
  function SortCompare(a: Record, b: Record): (r: int)
    ensures r == 0 <==> a.date == b.date && a.createdAt == b.createdAt
  {
    CompareZeroIff(b.date, a.date);
    var c := Compare(b.date, a.date);
    if c != 0 then c else b.createdAt - a.createdAt
  }

  /** `a` may stand before `b` in the list view. */
  predicate InListOrder(a: Record, b: Record) {
    SortCompare(a, b) <= 0
  }

  /** Standing first means a later date, or the same date and a creation time at
      least as late. */
  lemma InListOrderIff(a: Record, b: Record)
    ensures InListOrder(a, b) <==>
      Compare(a.date, b.date) > 0 || (a.date == b.date && a.createdAt >= b.createdAt)
  {
    CompareAntisymmetric(a.date, b.date);
    CompareZeroIff(a.date, b.date);
    CompareZeroIff(b.date, a.date);
  }

  lemma SortCompareAntisymmetric(a: Record, b: Record)
    ensures SortCompare(a, b) == -SortCompare(b, a)
  {
    CompareAntisymmetric(a.date, b.date);
  }

  /** Of any two records, one may stand before the other. */
  lemma InListOrderTotal(a: Record, b: Record)
    ensures InListOrder(a, b) || InListOrder(b, a)
  {
    SortCompareAntisymmetric(a, b);
  }

  lemma InListOrderTransitive(a: Record, b: Record, c: Record)
    requires InListOrder(a, b) && InListOrder(b, c)
    ensures InListOrder(a, c)
  {
    InListOrderIff(a, b);
    InListOrderIff(b, c);
    InListOrderIff(a, c);
    CompareAntisymmetric(a.date, b.date);
    CompareAntisymmetric(b.date, c.date);
    CompareAntisymmetric(a.date, c.date);
    CompareZeroIff(c.date, a.date);
    if Compare(a.date, b.date) > 0 && Compare(b.date, c.date) > 0 {
      CompareTransitive(c.date, b.date, a.date);
    }
  }

  /** Every adjacent pair is in list order. */
  ghost predicate Sorted(s: seq<Record>) {
    forall k :: 0 <= k < |s| - 1 ==> InListOrder(s[k], s[k + 1])
  }

  /** A sorted list is in list order pair by pair, not only between neighbours. */
  lemma {:induction false} SortedPairwise(s: seq<Record>, i: int, j: int)
    requires Sorted(s) && 0 <= i < j < |s|
    ensures InListOrder(s[i], s[j])
    decreases j - i
  {
    if j > i + 1 {
      SortedPairwise(s, i + 1, j);
      InListOrderTransitive(s[i], s[i + 1], s[j]);
    }
  }

  /** Inserting `x` into a sorted list from the right: it moves left past every
      element that must come after it, which is what the stable sort does to the
      next element. */
  function Insert(sorted: seq<Record>, x: Record): seq<Record> {
    if sorted == [] then [x]
    else if SortCompare(sorted[|sorted| - 1], x) > 0 then
      Insert(sorted[..|sorted| - 1], x) + [sorted[|sorted| - 1]]
    else sorted + [x]
  }

  /** The order the list view shows: `s` sorted by `SortCompare`, records that
      compare equal keeping their relative order. */
  function ListOrder(s: seq<Record>): seq<Record> {
    if s == [] then [] else Insert(ListOrder(s[..|s| - 1]), s[|s| - 1])
  }

  lemma {:induction false} InsertPermutes(sorted: seq<Record>, x: Record)
    ensures multiset(Insert(sorted, x)) == multiset(sorted) + multiset{x}
    decreases |sorted|
  {
    if sorted != [] && SortCompare(sorted[|sorted| - 1], x) > 0 {
      var init := sorted[..|sorted| - 1];
      InsertPermutes(init, x);
      assert sorted == init + [sorted[|sorted| - 1]];
    }
  }

  lemma {:induction false} InsertSorted(sorted: seq<Record>, x: Record)
    requires Sorted(sorted)
    ensures Sorted(Insert(sorted, x))
    ensures Insert(sorted, x) != []
    ensures sorted != [] ==> Insert(sorted, x)[|Insert(sorted, x)| - 1] in {sorted[|sorted| - 1], x}
    decreases |sorted|
  {
    if sorted != [] {
      var last := sorted[|sorted| - 1];
      var init := sorted[..|sorted| - 1];
      if SortCompare(last, x) > 0 {
        InsertSorted(init, x);
        var r := Insert(init, x);
        assert init != [] ==> InListOrder(init[|init| - 1], last);
        SortCompareAntisymmetric(last, x);
        assert InListOrder(r[|r| - 1], last);
      } else {
        assert InListOrder(last, x);
      }
    }
  }

  /** The list view's order is a permutation of its input. */
  lemma {:induction false} ListOrderPermutes(s: seq<Record>)
    ensures multiset(ListOrder(s)) == multiset(s)
    decreases |s|
  {
    if s != [] {
      var init, last := s[..|s| - 1], s[|s| - 1];
      ListOrderPermutes(init);
      InsertPermutes(ListOrder(init), last);
      MultisetDropLast(s);
    }
  }

  lemma MultisetDropLast(s: seq<Record>)
    requires s != []
    ensures multiset(s) == multiset(s[..|s| - 1]) + multiset{s[|s| - 1]}
  {
    assert s == s[..|s| - 1] + [s[|s| - 1]];
  }

  /** The list view's order keeps every adjacent pair in list order. */
  lemma {:induction false} ListOrderSorted(s: seq<Record>)
    ensures Sorted(ListOrder(s))
    decreases |s|
  {
    if s != [] {
      ListOrderSorted(s[..|s| - 1]);
      InsertSorted(ListOrder(s[..|s| - 1]), s[|s| - 1]);
    }
  }

  /** `Insert` puts `x` right after the last element that may precede it, past
      the elements that must follow it. */
  lemma {:induction false} InsertAt(sorted: seq<Record>, x: Record, j: int)
    requires 0 <= j <= |sorted|
    requires j == 0 || SortCompare(sorted[j - 1], x) <= 0
    requires forall k :: j <= k < |sorted| ==> SortCompare(sorted[k], x) > 0
    ensures Insert(sorted, x) == sorted[..j] + [x] + sorted[j..]
    decreases |sorted|
  {
    if j < |sorted| {
      var init := sorted[..|sorted| - 1];
      InsertAt(init, x, j);
      assert init[..j] == sorted[..j];
      assert init[j..] + [sorted[|sorted| - 1]] == sorted[j..];
    } else {
      assert sorted[..j] == sorted;
    }
  }

  lemma Assemble(s: seq<Record>, sorted: seq<Record>, x: Record, j: int)
    requires |s| == |sorted| + 1 && 0 <= j <= |sorted|
    requires forall k :: 0 <= k < j ==> s[k] == sorted[k]
    requires s[j] == x
    requires forall k :: j < k < |s| ==> s[k] == sorted[k - 1]
    ensures s == sorted[..j] + [x] + sorted[j..]
  {
  }

  /** Inserts `a[i]` into the sorted prefix `a[..i]` by shifting larger elements
      one place to the right. */
  method InsertInto(a: array<Record>, i: int)
    requires 0 <= i < a.Length
    modifies a
    ensures a[..i + 1] == Insert(old(a[..i]), old(a[i]))
    ensures forall k :: i < k < a.Length ==> a[k] == old(a[k])
  {
    ghost var sorted := a[..i];
    var x := a[i];
    var j := ShiftFollowers(a, i, x);
    a[j] := x;
    InsertAt(sorted, x, j);
    Assemble(a[..i + 1], sorted, x, j);
  }

  /** The shifting loop of `InsertInto`: moves each element of `a[..i]` that
      must come after `x` one place to the right, from the end, and returns the
      hole left where `x` belongs. */
  method ShiftFollowers(a: array<Record>, i: int, x: Record) returns (j: int)
    requires 0 <= i < a.Length
    modifies a
    ensures 0 <= j <= i
    ensures forall k :: 0 <= k < j ==> a[k] == old(a[k])
    ensures forall k :: j < k <= i ==> a[k] == old(a[k - 1])
    ensures forall k :: i < k < a.Length ==> a[k] == old(a[k])
    ensures j == 0 || SortCompare(old(a[j - 1]), x) <= 0
    ensures forall k :: j <= k < i ==> SortCompare(old(a[k]), x) > 0
  {
    ghost var before := a[..];
    j := i;
    while j > 0 && SortCompare(a[j - 1], x) > 0
      invariant 0 <= j <= i
      invariant forall k :: 0 <= k < j ==> a[k] == before[k]
      invariant forall k :: j < k <= i ==> a[k] == before[k - 1]
      invariant forall k :: i < k < a.Length ==> a[k] == before[k]
      invariant forall k :: j <= k < i ==> SortCompare(before[k], x) > 0
    {
      a[j] := a[j - 1];
      j := j - 1;
    }
  }

  /** `list.sort(...)` in `renderList`: sorts the array in place, one insertion
      per element; stable, as the built-in sort is. */
  method SortForList(a: array<Record>)
    modifies a
    ensures a[..] == ListOrder(old(a[..]))
  {
    ghost var input := a[..];
    var i := 0;
    while i < a.Length
      invariant 0 <= i <= a.Length
      invariant a[..i] == ListOrder(input[..i])
      invariant forall k :: i <= k < a.Length ==> a[k] == input[k]
    {
      InsertInto(a, i);
      assert input[..i + 1][..i] == input[..i];
      i := i + 1;
    }
    assert a[..] == a[..a.Length];
    assert input == input[..a.Length];
  }

  /** `renderList`: an empty list shows the empty-state message and is left as it
      is; otherwise it is sorted in place into list order. */
  method RenderList(a: array<Record>) returns (empty: bool)
    modifies a
    ensures empty <==> a.Length == 0
    ensures a[..] == ListOrder(old(a[..]))
    ensures Sorted(a[..]) && multiset(a[..]) == multiset(old(a[..]))
  {
    empty := a.Length == 0;
    if empty {
      return;
    }
    SortForList(a);
    ListOrderSorted(old(a[..]));
    ListOrderPermutes(old(a[..]));
  }

  /** Two records of the same day: the one created later is listed first, and
      a record of a later day comes before both. */
  lemma ListOrderExample(a: Record, b: Record, c: Record)
    requires a.date == b.date && a.createdAt < b.createdAt
    requires Compare(c.date, a.date) > 0
    ensures ListOrder([a, b]) == [b, a]
    ensures ListOrder([a, b, c]) == [c, b, a]
  {
    CompareAntisymmetric(c.date, a.date);
    CompareZeroIff(a.date, a.date);
    assert [a, b][..1] == [a];
    assert [a, b, c][..2] == [a, b];
    assert [a][..0] == [];
    assert ListOrder([a]) == [a];
    assert SortCompare(a, b) > 0;
    assert Insert([a], b) == [b, a];
    assert ListOrder([a, b]) == Insert([a], b);
    assert SortCompare(a, c) > 0 && SortCompare(b, c) > 0;
    assert [b, a][..1] == [b] && [b][..0] == [];
    assert Insert([b, a], c) == Insert([b], c) + [a];
    assert Insert([b], c) == Insert([], c) + [b];
  }
}
