/**
 * The local record store: an object store whose key path is `id`, so that it
 * behaves as a finite map from id to record. Opening the database, its
 * transactions and their asynchrony are abstracted away: each operation is one
 * atomic update of the map.
 */
module Store {
  import opened Records

  /** Every record is filed under its own id. */
  ghost predicate KeyedById(m: map<string, Record>) {
    forall id :: id in m ==> m[id].id == id
  }

  /** `list` is one full read of `m`: each stored record exactly once, in some order. */
  ghost predicate IsSnapshot(list: seq<Record>, m: map<string, Record>) {
    && (forall i :: 0 <= i < |list| ==> list[i].id in m && m[list[i].id] == list[i])
    && (forall i, j :: 0 <= i < j < |list| ==> list[i].id != list[j].id)
    && (forall id :: id in m ==> exists i :: 0 <= i < |list| && list[i].id == id)
  }

  /** How many records of `list` carry the id `id`. */
  function CountId(list: seq<Record>, id: string): nat {
    if list == [] then 0
    else CountId(list[..|list| - 1], id) + (if list[|list| - 1].id == id then 1 else 0)
  }

  class RecordStore {
    /** The contents of the object store, by key. */
    var records: map<string, Record>

    ghost predicate Valid()
      reads this
    {
      KeyedById(records)
    }

    constructor ()
      ensures Valid() && records == map[]
    {
      records := map[];
    }

    /** `putRecord`: insert, or replace the record that has the same id. */
    method Put(r: Record)
      requires Valid()
      modifies this
      ensures Valid()
      ensures records == old(records)[r.id := r]
    {
      records := records[r.id := r];
    }

    /** `deleteRecord`: remove the record with this id; no change when there is none. */
    method Delete(id: string)
      requires Valid()
      modifies this
      ensures Valid()
      ensures records == old(records) - {id}
    {
      records := records - {id};
    }

    /** `clearAll`: remove every record. */
    method Clear()
      requires Valid()
      modifies this
      ensures Valid() && records == map[]
    {
      records := map[];
    }

    /** `getAll`: every stored record, each exactly once. */
    method GetAll() returns (list: seq<Record>)
      requires Valid()
      ensures IsSnapshot(list, records)
    {
      list := [];
      var pending := records.Keys;
      while pending != {}
        invariant pending <= records.Keys
        invariant forall i :: 0 <= i < |list| ==> list[i].id in records && records[list[i].id] == list[i]
        invariant forall i :: 0 <= i < |list| ==> list[i].id !in pending
        invariant forall i, j :: 0 <= i < j < |list| ==> list[i].id != list[j].id
        invariant forall id :: id in records && id !in pending ==> exists i :: 0 <= i < |list| && list[i].id == id
        decreases pending
      {
        var id :| id in pending;
        ghost var before := list;
        list := list + [records[id]];
        pending := pending - {id};
        assert forall i :: 0 <= i < |before| ==> list[i] == before[i];
        assert list[|before|].id == id;
      }
    }
  }

  /** A snapshot has as many records as the store has keys. */
  lemma {:induction false} SnapshotSize(list: seq<Record>, m: map<string, Record>)
    requires IsSnapshot(list, m)
    ensures |list| == |m|
    decreases |list|
  {
    if list == [] {
      assert forall id :: id !in m;
      assert m == map[];
    } else {
      var last := list[|list| - 1];
      SnapshotDropLast(list, m);
      SnapshotSize(list[..|list| - 1], m - {last.id});
    }
  }

  /** Without its last record, a snapshot is a snapshot of the store without that
      record's key. */
  lemma SnapshotDropLast(list: seq<Record>, m: map<string, Record>)
    requires IsSnapshot(list, m) && list != []
    ensures list[|list| - 1].id in m
    ensures IsSnapshot(list[..|list| - 1], m - {list[|list| - 1].id})
  {
    var last := list[|list| - 1];
    var rest := list[..|list| - 1];
    var m' := m - {last.id};
    forall id | id in m'
      ensures exists i :: 0 <= i < |rest| && rest[i].id == id
    {
      var i :| 0 <= i < |list| && list[i].id == id;
      assert rest[i].id == id;
    }
  }

  /** With distinct ids, an id that occurs in the list occurs exactly once. */
  lemma {:induction false} CountIdDistinct(list: seq<Record>, id: string)
    requires forall i, j :: 0 <= i < j < |list| ==> list[i].id != list[j].id
    ensures CountId(list, id) == if exists i :: 0 <= i < |list| && list[i].id == id then 1 else 0
    decreases |list|
  {
    if list != [] {
      var rest := list[..|list| - 1];
      CountIdDistinct(rest, id);
      if exists i :: 0 <= i < |rest| && rest[i].id == id {
        var i :| 0 <= i < |rest| && rest[i].id == id;
        assert list[i].id == id;
      }
      if i :| 0 <= i < |list| && list[i].id == id {
        if i < |rest| {
          assert rest[i].id == id;
        }
      }
    }
  }

  /** After `put(r)`, a read of the store holds exactly one record with `r`'s id,
      and that record is `r`: the last write wins. */
  lemma SnapshotAfterPut(m: map<string, Record>, r: Record, list: seq<Record>)
    requires IsSnapshot(list, m[r.id := r])
    ensures CountId(list, r.id) == 1
    ensures forall i :: 0 <= i < |list| && list[i].id == r.id ==> list[i] == r
  {
    var m' := m[r.id := r];
    assert r.id in m';
    CountIdDistinct(list, r.id);
  }

  /** After `delete(id)`, a read of the store holds no record with that id, and every
      other record is still there unchanged. */
  lemma SnapshotAfterDelete(m: map<string, Record>, id: string, list: seq<Record>)
    requires IsSnapshot(list, m - {id})
    ensures CountId(list, id) == 0
    ensures forall i :: 0 <= i < |list| ==> list[i].id != id && list[i] == m[list[i].id]
    ensures forall other :: other in m && other != id ==> CountId(list, other) == 1
  {
    CountIdDistinct(list, id);
    forall other | other in m && other != id
      ensures CountId(list, other) == 1
    {
      assert other in m - {id};
      CountIdDistinct(list, other);
    }
  }

  /** After `clear()`, a read of the store is empty. */
  lemma SnapshotAfterClear(list: seq<Record>)
    requires IsSnapshot(list, map[])
    ensures list == []
  {
    SnapshotSize(list, map[]);
  }
}
