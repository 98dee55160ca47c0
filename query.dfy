/**
 * The search box of `render`: with a query that is not blank after trimming,
 * only the records whose name or date contains it are shown.
 */
module Query {
  import opened Records
  import opened Text

  /** The test applied to each record: the query is a substring of the name or
      of the date (case-sensitive). */
  predicate Matches(r: Record, q: string) {
    Includes(r.name, q) || Includes(r.date, q)
  }

  /** `a` is `b` with some elements removed, the rest in their original order. */
  predicate IsSubsequence(a: seq<Record>, b: seq<Record>)
    decreases |b|
  {
    if a == [] then true
    else if b == [] then false
    else (a[0] == b[0] && IsSubsequence(a[1..], b[1..])) || IsSubsequence(a, b[1..])
  }

  /** `Array.prototype.filter` with `Matches`: exactly the matching records of
      `list`, each as often as it occurs there, in their original order. */
  function KeepMatching(list: seq<Record>, q: string): (kept: seq<Record>)
    ensures IsSubsequence(kept, list)
    ensures forall x :: multiset(kept)[x] == if Matches(x, q) then multiset(list)[x] else 0
  {
    if list == [] then []
    else
      var rest := KeepMatching(list[1..], q);
      assert list == [list[0]] + list[1..];
      if Matches(list[0], q) then
        assert ([list[0]] + rest)[1..] == rest;
        [list[0]] + rest
      else
        rest
  }

  /** The records `render` passes on to the list or month view. A blank query
      keeps the list as it is. */
  function Filter(list: seq<Record>, query: string): (shown: seq<Record>)
    ensures Trim(query) == [] ==> shown == list
    ensures Trim(query) != [] ==> IsSubsequence(shown, list)
    ensures Trim(query) != [] ==> forall x ::
      multiset(shown)[x] == if Matches(x, Trim(query)) then multiset(list)[x] else 0
  {
    var q := Trim(query);
    if q == [] then list else KeepMatching(list, q)
  }

  /** A kept record contains the trimmed query in its name or its date. */
  lemma FilterKeepsOnlyMatches(list: seq<Record>, query: string, r: Record)
    requires Trim(query) != []
    ensures r in Filter(list, query) <==> r in list && Matches(r, Trim(query))
  {
    var shown := Filter(list, query);
    assert r in shown <==> multiset(shown)[r] > 0;
    assert r in list <==> multiset(list)[r] > 0;
  }

  /** A search for " 鸡 " (with spaces) keeps a dish whose name has 鸡 in it and
      drops one whose name and date do not. */
  lemma FilterExample(a: Record, b: Record, q: string)
    requires a.name == "口水鸡" && b.name == "番茄炒蛋" && b.date == "2025-01-01"
    requires q == " 鸡 "
    ensures Filter([a, b], q) == [a]
  {
    TrimmedQuery(q);
    var t := Trim(q);
    ChickenIn(a.name, t);
    NoChickenIn(b.name, t);
    NoChickenIn(b.date, t);
    KeepFirstOfTwo(a, b, t);
  }

  lemma TrimmedQuery(q: string)
    requires q == " 鸡 "
    ensures Trim(q) == "鸡"
  {
    assert TrimStart(q) == q[1..];
    assert TrimEnd(q[1..]) == q[1..2];
  }

  lemma ChickenIn(s: string, t: string)
    requires s == "口水鸡" && t == "鸡"
    ensures Includes(s, t)
  {
    IncludesChar(s, '鸡');
    assert s[2] == '鸡';
  }

  lemma NoChickenIn(s: string, t: string)
    requires (s == "番茄炒蛋" || s == "2025-01-01") && t == "鸡"
    ensures !Includes(s, t)
  {
    IncludesChar(s, '鸡');
  }

  lemma KeepFirstOfTwo(a: Record, b: Record, t: string)
    requires Matches(a, t) && !Matches(b, t)
    ensures KeepMatching([a, b], t) == [a]
  {
    assert [a, b][1..] == [b];
    assert [b][1..] == [];
  }
}
