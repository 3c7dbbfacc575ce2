/** The `deviceData` collection: documents keyed by `_id`.  The ingestion
    code uses two of its operations, `save` (insert or replace by key) and
    `remove` with a `groupId` filter. */
module Store {
  import opened Wrappers
  import opened Records

  /** Stored documents by storage key. */
  type Rows = map<string, Record>

  /** Every record carries a storage key, as each one handed to `save` does. */
  predicate Keyed(recs: seq<Record>)
  {
    forall i :: 0 <= i < |recs| ==> recs[i].storeId.Some?
  }

  /** `save` of a document that has an `_id`: it replaces whatever was
      stored under that key, or adds it. */
  function Upsert(rows: Rows, r: Record): (m: Rows)
    requires r.storeId.Some?
    ensures m.Keys == rows.Keys + {r.storeId.value}
    ensures m[r.storeId.value] == r
    ensures forall k :: k in rows && k != r.storeId.value ==> m[k] == rows[k]
  {
    rows[r.storeId.value := r]
  }

  /** The storage keys of a sequence of records. */
  function KeysOf(recs: seq<Record>): set<string>
    requires Keyed(recs)
  {
    if recs == [] then {} else KeysOf(recs[..|recs| - 1]) + {recs[|recs| - 1].storeId.value}
  }

  /** A key is in `KeysOf(recs)` exactly when some record of `recs` has it. */
  lemma {:induction false} KeysOfMembers(recs: seq<Record>)
    requires Keyed(recs)
    ensures forall i :: 0 <= i < |recs| ==> recs[i].storeId.value in KeysOf(recs)
    ensures forall k :: k in KeysOf(recs) ==> exists i :: 0 <= i < |recs| && recs[i].storeId == Some(k)
  {
    if recs != [] {
      var init := recs[..|recs| - 1];
      KeysOfMembers(init);
      forall k | k in KeysOf(recs)
        ensures exists i :: 0 <= i < |recs| && recs[i].storeId == Some(k)
      {
        if k in KeysOf(init) {
          var i :| 0 <= i < |init| && init[i].storeId == Some(k);
          assert recs[i] == init[i];
        } else {
          assert recs[|recs| - 1].storeId == Some(k);
        }
      }
    }
  }

  /** The last record of `recs` whose key is `k`. */
  function LastWith(recs: seq<Record>, k: string): (r: Record)
    requires Keyed(recs) && k in KeysOf(recs)
    ensures r in recs && r.storeId == Some(k)
  {
    var last := recs[|recs| - 1];
    if last.storeId == Some(k) then last else LastWith(recs[..|recs| - 1], k)
  }

  /** Saving `recs` one after the other. */
  function SaveAll(rows: Rows, recs: seq<Record>): Rows
    requires Keyed(recs)
  {
    if recs == [] then rows else Upsert(SaveAll(rows, recs[..|recs| - 1]), recs[|recs| - 1])
  }

  /** After saving `recs`, each key they carry holds the last record saved
      under it, and every other row is as it was. */
  lemma {:induction false} SaveAllContents(rows: Rows, recs: seq<Record>)
    requires Keyed(recs)
    ensures SaveAll(rows, recs).Keys == rows.Keys + KeysOf(recs)
    ensures forall k :: k in KeysOf(recs) ==> SaveAll(rows, recs)[k] == LastWith(recs, k)
    ensures forall k :: k in rows && k !in KeysOf(recs) ==> SaveAll(rows, recs)[k] == rows[k]
  {
    if recs != [] {
      SaveAllContents(rows, recs[..|recs| - 1]);
    }
  }

  /** `remove({groupId: g})`: every document of group `g` goes, every other
      document stays as it was. */
  function WithoutGroup(rows: Rows, g: string): (m: Rows)
    ensures m.Keys <= rows.Keys
    ensures forall k :: k in m ==> m[k].groupId != Some(g)
    ensures forall k :: k in rows && rows[k].groupId != Some(g) ==> k in m && m[k] == rows[k]
    ensures forall k :: k in m ==> m[k] == rows[k]
  {
    map k | k in rows && rows[k].groupId != Some(g) :: rows[k]
  }

  /** Saving two batches in turn is saving their concatenation. */
  lemma {:induction false} SaveAllAppend(rows: Rows, a: seq<Record>, b: seq<Record>)
    requires Keyed(a) && Keyed(b)
    ensures Keyed(a + b)
    ensures SaveAll(rows, a + b) == SaveAll(SaveAll(rows, a), b)
  {
    if b != [] {
      var b' := b[..|b| - 1];
      assert (a + b)[..|a + b| - 1] == a + b';
      SaveAllAppend(rows, a, b');
    } else {
      assert a + b == a;
    }
  }

  /** Saving the same records over two stores that agree on every key the
      records do not touch gives the same store. */
  lemma SaveAllOverwrites(m1: Rows, m2: Rows, recs: seq<Record>)
    requires Keyed(recs)
    requires forall k :: k !in KeysOf(recs) ==> (k in m1 <==> k in m2)
    requires forall k :: k in m1 && k in m2 && k !in KeysOf(recs) ==> m1[k] == m2[k]
    ensures SaveAll(m1, recs) == SaveAll(m2, recs)
  {
    SaveAllContents(m1, recs);
    SaveAllContents(m2, recs);
    var s1, s2 := SaveAll(m1, recs), SaveAll(m2, recs);
    assert s1.Keys == s2.Keys;
    forall k | k in s1
      ensures s1[k] == s2[k]
    {
      if k !in KeysOf(recs) {
        assert k in m1 && k in m2;
      }
    }
  }

  class DeviceStore {
    var rows: Rows

    constructor ()
      ensures rows == map[]
    {
      rows := map[];
    }

    /** `db.deviceData.save(entry)` for an entry that has an `_id`. */
    method Save(r: Record)
      requires r.storeId.Some?
      modifies this
      ensures rows == Upsert(old(rows), r)
    {
      rows := rows[r.storeId.value := r];
    }

    /** `db.deviceData.remove({groupId: g})`.  Whether the database reports
        an error is an input; a failed remove is taken to change nothing. */
    method Remove(g: string, fails: bool) returns (err: bool)
      modifies this
      ensures err == fails
      ensures rows == if fails then old(rows) else WithoutGroup(old(rows), g)
    {
      err := fails;
      if !fails {
        rows := map k | k in rows && rows[k].groupId != Some(g) :: rows[k];
      }
    }
  }
}
