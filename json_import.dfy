/**
 * `importJSON`, after `JSON.parse`: a value that is not an array is rejected
 * (the app shows an alert and changes nothing); otherwise every element whose
 * `id` is falsy is given a new id, and the elements are put into the store one
 * after the other. The id generator is a supply `ids` of new ids, consumed in
 * order.
 */
module JsonImport {
  import opened Wrappers
  import opened Records
  import opened Store

  /** The parsed backup file: an array of records, or any other JSON value. */
  datatype ImportInput = JsonArray(items: seq<Record>) | NotArray

  /** How many of the items have a falsy id and so need a new one. */
  function Missing(items: seq<Record>): (n: nat)
    ensures n <= |items|
  {
    if items == [] then 0
    else Missing(items[..|items| - 1]) + (if items[|items| - 1].id == "" then 1 else 0)
  }

  /** `if (!r.id) r.id = uuid()` for every element in turn: the `n`-th element
      without an id takes the `n`-th new id. */
  function AssignIds(items: seq<Record>, ids: seq<string>): (out: seq<Record>)
    requires Missing(items) <= |ids|
    ensures |out| == |items|
  {
    if items == [] then []
    else
      var init := items[..|items| - 1];
      var last := items[|items| - 1];
      AssignIds(init, ids) + [if last.id == "" then last.(id := ids[Missing(init)]) else last]
  }

  /** The store after `put` of each record in order. */
  function PutAll(m: map<string, Record>, recs: seq<Record>): (r: map<string, Record>)
    ensures forall id :: id in m ==> id in r
    ensures forall i :: 0 <= i < |recs| ==> recs[i].id in r
  {
    if recs == [] then m
    else PutAll(m, recs[..|recs| - 1])[recs[|recs| - 1].id := recs[|recs| - 1]]
  }

  /** The first `i` items of the assignment are the assignment of the first `i`
      items. */
  lemma {:induction false} AssignIdsPrefix(items: seq<Record>, ids: seq<string>, i: int)
    requires 0 <= i <= |items| && Missing(items) <= |ids|
    ensures Missing(items[..i]) <= Missing(items)
    ensures AssignIds(items[..i], ids) == AssignIds(items, ids)[..i]
    decreases |items|
  {
    if i < |items| {
      var init := items[..|items| - 1];
      assert init[..i] == items[..i];
      AssignIdsPrefix(init, ids, i);
    } else {
      assert items[..i] == items;
    }
  }

  /** Each element keeps every field but its id; a truthy id is kept, a falsy
      one replaced by the new id whose turn it is. */
  lemma {:induction false} AssignIdsElement(items: seq<Record>, ids: seq<string>, k: int)
    requires Missing(items) <= |ids| && 0 <= k < |items|
    ensures Missing(items[..k]) < |ids| || items[k].id != ""
    ensures var r := AssignIds(items, ids)[k];
      r == if items[k].id == "" then items[k].(id := ids[Missing(items[..k])]) else items[k]
    decreases |items|
  {
    var init := items[..|items| - 1];
    if k < |items| - 1 {
      assert init[..k] == items[..k];
      AssignIdsElement(init, ids, k);
    } else {
      assert init == items[..k];
    }
  }

  /** With a supply of non-empty ids, every imported record has a non-empty id. */
  lemma EveryElementGetsAnId(items: seq<Record>, ids: seq<string>)
    requires Missing(items) <= |ids|
    requires forall j :: 0 <= j < |ids| ==> ids[j] != ""
    ensures forall k :: 0 <= k < |items| ==> AssignIds(items, ids)[k].id != ""
    ensures forall k :: 0 <= k < |items| && items[k].id != "" ==> AssignIds(items, ids)[k] == items[k]
  {
    forall k | 0 <= k < |items|
      ensures AssignIds(items, ids)[k].id != ""
      ensures items[k].id != "" ==> AssignIds(items, ids)[k] == items[k]
    {
      AssignIdsElement(items, ids, k);
    }
  }

  /** Later items have at least as many id-less items before them, and one
      more once an id-less item has been passed. */
  lemma {:induction false} MissingMono(items: seq<Record>, i: int, j: int)
    requires 0 <= i <= j <= |items|
    ensures Missing(items[..i]) <= Missing(items[..j])
    ensures i < j && items[i].id == "" ==> Missing(items[..i]) < Missing(items[..j])
    decreases j - i
  {
    if i < j {
      assert items[..j][..j - 1] == items[..j - 1];
      if i < j - 1 {
        MissingMono(items, i, j - 1);
      }
    }
  }

  /** With a supply of pairwise different ids, two elements that had no id end
      up with different ids. */
  lemma AssignedIdsDistinct(items: seq<Record>, ids: seq<string>, k: int, k': int)
    requires Missing(items) <= |ids|
    requires forall a, b :: 0 <= a < b < |ids| ==> ids[a] != ids[b]
    requires 0 <= k < k' < |items| && items[k].id == "" && items[k'].id == ""
    ensures AssignIds(items, ids)[k].id != AssignIds(items, ids)[k'].id
  {
    AssignIdsElement(items, ids, k);
    AssignIdsElement(items, ids, k');
    MissingMono(items, k, k');
  }

  /** With a supply whose ids are neither stored nor carried by any element, an
      element that had no id gets an id that is not in the store and that no
      element with an id of its own carries. */
  lemma AssignedIdsAvoidExisting(m: map<string, Record>, items: seq<Record>, ids: seq<string>, k: int)
    requires Missing(items) <= |ids|
    requires forall j :: 0 <= j < |ids| ==> ids[j] !in m
    requires forall j, i :: 0 <= j < |ids| && 0 <= i < |items| ==> ids[j] != items[i].id
    requires 0 <= k < |items| && items[k].id == ""
    ensures AssignIds(items, ids)[k].id !in m
    ensures forall i :: 0 <= i < |items| && items[i].id != "" ==>
      AssignIds(items, ids)[k].id != AssignIds(items, ids)[i].id
  {
    AssignIdsElement(items, ids, k);
    forall i | 0 <= i < |items| && items[i].id != ""
      ensures AssignIds(items, ids)[k].id != AssignIds(items, ids)[i].id
    {
      AssignIdsElement(items, ids, i);
    }
  }

  /** Items that already have ids are imported as they are. */
  lemma {:induction false} NothingMissing(items: seq<Record>, ids: seq<string>)
    requires forall k :: 0 <= k < |items| ==> items[k].id != ""
    ensures Missing(items) == 0
    ensures AssignIds(items, ids) == items
    decreases |items|
  {
    if items != [] {
      NothingMissing(items[..|items| - 1], ids);
      assert items[..|items| - 1] + [items[|items| - 1]] == items;
    }
  }

  /** The record the store ends up with for `id` after putting `recs`: the last
      one carrying that id, if any. */
  function LastWithId(recs: seq<Record>, id: string): (r: Option<Record>)
    ensures r.Some? ==> r.value.id == id
  {
    if recs == [] then None
    else if recs[|recs| - 1].id == id then Some(recs[|recs| - 1])
    else LastWithId(recs[..|recs| - 1], id)
  }

  /** `LastWithId` finds exactly the last record with that id. */
  lemma {:induction false} LastWithIdIsLast(recs: seq<Record>, id: string)
    ensures LastWithId(recs, id).None? <==> forall k :: 0 <= k < |recs| ==> recs[k].id != id
    ensures LastWithId(recs, id).Some? ==> exists k :: (0 <= k < |recs| && recs[k] == LastWithId(recs, id).value
      && forall k' :: k < k' < |recs| ==> recs[k'].id != id)
    decreases |recs|
  {
    if recs != [] && recs[|recs| - 1].id != id {
      var init := recs[..|recs| - 1];
      LastWithIdIsLast(init, id);
      if LastWithId(init, id).Some? {
        var k :| 0 <= k < |init| && init[k] == LastWithId(init, id).value
          && forall k' :: k < k' < |init| ==> init[k'].id != id;
        assert recs[k] == init[k];
      }
    } else if recs != [] {
      assert recs[|recs| - 1] == LastWithId(recs, id).value;
    }
  }

  /** After a sequence of puts, a key holds the last record put under it, or
      what it held before if none was; no other key appears. */
  lemma {:induction false} PutAllLookup(m: map<string, Record>, recs: seq<Record>, id: string)
    ensures id in PutAll(m, recs) <==> id in m || LastWithId(recs, id).Some?
    ensures LastWithId(recs, id).Some? ==> PutAll(m, recs)[id] == LastWithId(recs, id).value
    ensures LastWithId(recs, id).None? && id in m ==> PutAll(m, recs)[id] == m[id]
    decreases |recs|
  {
    if recs != [] {
      PutAllLookup(m, recs[..|recs| - 1], id);
    }
  }

  lemma {:induction false} PutAllKeyedById(m: map<string, Record>, recs: seq<Record>)
    requires KeyedById(m)
    ensures KeyedById(PutAll(m, recs))
    decreases |recs|
  {
    if recs != [] {
      PutAllKeyedById(m, recs[..|recs| - 1]);
    }
  }

  /** One more item: the assignment of the first `i + 1` items extends that of
      the first `i` by item `i`, with a new id when it has none. */
  lemma AssignIdsStep(items: seq<Record>, ids: seq<string>, i: int)
    requires 0 <= i < |items| && Missing(items) <= |ids|
    ensures Missing(items[..i + 1]) == Missing(items[..i]) + (if items[i].id == "" then 1 else 0)
    ensures Missing(items[..i + 1]) <= Missing(items)
    ensures AssignIds(items[..i + 1], ids) == AssignIds(items[..i], ids) +
      [if items[i].id == "" then items[i].(id := ids[Missing(items[..i])]) else items[i]]
  {
    AssignIdsPrefix(items, ids, i + 1);
    var p := items[..i + 1];
    assert p[..i] == items[..i];
  }

  lemma PutAllSnoc(m: map<string, Record>, recs: seq<Record>, r: Record)
    ensures PutAll(m, recs + [r]) == PutAll(m, recs)[r.id := r]
  {
    assert (recs + [r])[..|recs|] == recs;
  }

  /** The import loop: rejects a value that is not an array; otherwise assigns
      missing ids from `ids`, in order, and puts each element into the store. */
  method Import(store: RecordStore, input: ImportInput, ids: seq<string>) returns (rejected: bool)
    requires store.Valid()
    requires input.JsonArray? ==> Missing(input.items) <= |ids|
    modifies store
    ensures store.Valid()
    ensures rejected <==> input.NotArray?
    ensures input.NotArray? ==> store.records == old(store.records)
    ensures input.JsonArray? ==> store.records == PutAll(old(store.records), AssignIds(input.items, ids))
  {
    if !input.JsonArray? {
      return true;
    }
    var items := input.items;
    ghost var start := store.records;
    var next := 0;
    var i := 0;
    while i < |items|
      invariant 0 <= i <= |items| && store.Valid()
      invariant next == Missing(items[..i]) && next <= Missing(items)
      invariant store.records == PutAll(start, AssignIds(items[..i], ids))
    {
      AssignIdsStep(items, ids, i);
      var r := items[i];
      if r.id == "" {
        r := r.(id := ids[next]);
        next := next + 1;
      }
      PutAllSnoc(start, AssignIds(items[..i], ids), r);
      store.Put(r);
      i := i + 1;
    }
    assert items[..i] == items;
    return false;
  }

  /** Importing a backup made by `getAll` restores every record: the store then
      holds its old contents overlaid with the backed-up ones. Into an empty
      store, the import gives back exactly the backed-up store. */
  lemma {:induction false} BackupRestores(base: map<string, Record>, m: map<string, Record>, list: seq<Record>)
    requires IsSnapshot(list, m)
    ensures PutAll(base, list) == base + m
    decreases |list|
  {
    if list == [] {
      assert forall id :: id !in m;
      assert m == map[];
    } else {
      var last := list[|list| - 1];
      SnapshotDropLast(list, m);
      BackupRestores(base, m - {last.id}, list[..|list| - 1]);
      OverlayStep(base, m, last);
    }
  }

  lemma OverlayStep(base: map<string, Record>, m: map<string, Record>, r: Record)
    requires r.id in m && m[r.id] == r
    ensures (base + (m - {r.id}))[r.id := r] == base + m
  {
  }

  lemma BackupNeedsNoIds(m: map<string, Record>, list: seq<Record>, ids: seq<string>)
    requires "" !in m
    requires IsSnapshot(list, m)
    ensures Missing(list) == 0 && AssignIds(list, ids) == list
  {
    forall k | 0 <= k < |list|
      ensures list[k].id != ""
    {
      assert list[k].id in m;
    }
    NothingMissing(list, ids);
  }
}
