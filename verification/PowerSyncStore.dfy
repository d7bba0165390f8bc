/** The upload endpoint (src/core/auth/powersync.controller.ts) on top of the in-memory
    store (src/core/auth/powersync-store.ts): load the rows of the batch's types, replay the
    batch on a map, derive upserts and deletes from the map, write them.

    The reference is `Direct`: each operation applied on its own to the durable row it
    addresses. `PipelineIsDirect` is the refinement between the two. */
module PowerSyncStore {
  import opened Lists
  import opened PowerSyncReplay

  datatype Snapshot = Snapshot(typ: string, id: Json, data: Fields, updatedAt: Stamp)

  datatype Stored = Stored(tenantId: string, row: Snapshot)

  type Rows = map<string, Stored>

  datatype Address = Address(typ: string, id: string)

  function DurableKey(tenantId: string, typ: string, id: string): string {
    tenantId + ":" + MapKey(typ, id)
  }

  // ------------------------------------------------------------ the store

  function Upserted(rows: Rows, tenantId: string, upserts: seq<Snapshot>): Rows {
    if upserts == [] then rows
    else
      var u := upserts[|upserts| - 1];
      Upserted(rows, tenantId, upserts[..|upserts| - 1])[DurableKey(tenantId, u.typ, Render(u.id)) := Stored(tenantId, u)]
  }

  function Deleted(rows: Rows, tenantId: string, deletes: seq<Address>): Rows {
    if deletes == [] then rows
    else
      var d := deletes[|deletes| - 1];
      Deleted(rows, tenantId, deletes[..|deletes| - 1]) - {DurableKey(tenantId, d.typ, d.id)}
  }

  /** `loaded` lists the tenant's rows of the given types, in some order. */
  ghost predicate Loads(loaded: seq<Snapshot>, rows: Rows, tenantId: string, types: set<string>) {
    forall s :: s in loaded <==> s.typ in types && Stored(tenantId, s) in rows.Values
  }

  predicate IsLoaded(s: Stored, tenantId: string, types: set<string>) {
    s.tenantId == tenantId && s.row.typ in types
  }

  /** `loaded` holds the rows at `keys`, which are the keys of these rows, each once. */
  ghost predicate ListsOnce(loaded: seq<Snapshot>, keys: seq<string>, rows: Rows, tenantId: string, types: set<string>) {
    && (forall k :: k in keys <==> k in rows && IsLoaded(rows[k], tenantId, types))
    && (forall i, j :: 0 <= i < j < |keys| ==> keys[i] != keys[j])
    && |loaded| == |keys|
    && forall i :: 0 <= i < |keys| ==> keys[i] in rows && loaded[i] == rows[keys[i]].row
  }

  /** Each of the tenant's rows of the types once, in some order. */
  ghost predicate LoadsOnce(loaded: seq<Snapshot>, rows: Rows, tenantId: string, types: set<string>) {
    exists keys :: ListsOnce(loaded, keys, rows, tenantId, types)
  }

  lemma ListedRowsAreLoaded(loaded: seq<Snapshot>, keys: seq<string>, rows: Rows, tenantId: string, types: set<string>)
    requires ListsOnce(loaded, keys, rows, tenantId, types)
    ensures Loads(loaded, rows, tenantId, types)
  {
    forall s: Snapshot | s in loaded ensures s.typ in types && Stored(tenantId, s) in rows.Values {
      var i :| 0 <= i < |loaded| && loaded[i] == s;
      assert keys[i] in keys && rows[keys[i]] == Stored(tenantId, s);
    }
    forall s: Snapshot | s.typ in types && Stored(tenantId, s) in rows.Values ensures s in loaded {
      var k :| k in rows && rows[k] == Stored(tenantId, s);
      assert k in keys;
      var i :| 0 <= i < |keys| && keys[i] == k;
      assert loaded[i] == s;
    }
  }

  class InMemoryPowerSyncStore {
    var rows: Rows

    constructor ()
      ensures rows == map[]
    {
      rows := map[];
    }

    method LoadByTypes(tenantId: string, types: set<string>) returns (loaded: seq<Snapshot>)
      ensures LoadsOnce(loaded, rows, tenantId, types)
      ensures Loads(loaded, rows, tenantId, types)
    {
      loaded := [];
      ghost var keys: seq<string> := [];
      var left := rows.Keys;
      while left != {}
        invariant left <= rows.Keys
        invariant forall k :: k in keys <==> k in rows.Keys - left && IsLoaded(rows[k], tenantId, types)
        invariant forall i, j :: 0 <= i < j < |keys| ==> keys[i] != keys[j]
        invariant |loaded| == |keys|
        invariant forall i :: 0 <= i < |keys| ==> keys[i] in rows && loaded[i] == rows[keys[i]].row
        decreases left
      {
        var k :| k in left;
        if rows[k].tenantId == tenantId && rows[k].row.typ in types {
          loaded := loaded + [rows[k].row];
          keys := keys + [k];
        }
        left := left - {k};
      }
      assert ListsOnce(loaded, keys, rows, tenantId, types);
      ListedRowsAreLoaded(loaded, keys, rows, tenantId, types);
    }

    method ApplyMutations(tenantId: string, upserts: seq<Snapshot>, deletes: seq<Address>)
      modifies this
      ensures rows == Deleted(Upserted(old(rows), tenantId, upserts), tenantId, deletes)
    {
      for i := 0 to |upserts|
        invariant rows == Upserted(old(rows), tenantId, upserts[..i])
      {
        var u := upserts[i];
        assert upserts[..i + 1][..i] == upserts[..i];
        rows := rows[DurableKey(tenantId, u.typ, Render(u.id)) := Stored(tenantId, u)];
      }
      assert upserts[..|upserts|] == upserts;
      for i := 0 to |deletes|
        invariant rows == Deleted(Upserted(old(rows), tenantId, upserts), tenantId, deletes[..i])
      {
        var d := deletes[i];
        assert deletes[..i + 1][..i] == deletes[..i];
        rows := rows - {DurableKey(tenantId, d.typ, d.id)};
      }
      assert deletes[..|deletes|] == deletes;
    }

    method Reset()
      modifies this
      ensures rows == map[]
    {
      rows := map[];
    }
  }

  // ------------------------------------------------------------ the pipeline, step by step

  function RowOf(s: Snapshot): Row {
    Spread(Row(s.id, s.updatedAt, map[]), s.data)
  }

  function Hydrated(existing: seq<Snapshot>): map<string, Row> {
    if existing == [] then map[]
    else
      var s := existing[|existing| - 1];
      Hydrated(existing[..|existing| - 1])[MapKey(s.typ, Render(s.id)) := RowOf(s)]
  }

  function UpsertFor(t: Timed, after: map<string, Row>): Option<Snapshot> {
    if KeyOf(t.op) in after then
      var row := after[KeyOf(t.op)];
      Some(Snapshot(t.op.typ, row.id, row.fields, row.updatedAt))
    else None
  }

  function DeleteFor(t: Timed, after: map<string, Row>): Option<Address> {
    if KeyOf(t.op) in after then None else Some(Address(t.op.typ, t.op.id))
  }

  function Upserts(batch: Batch, after: map<string, Row>): seq<Snapshot> {
    Collected(batch, (t: Timed) => UpsertFor(t, after))
  }

  function Deletes(batch: Batch, after: map<string, Row>): seq<Address> {
    Collected(batch, (t: Timed) => DeleteFor(t, after))
  }

  function Types(batch: Batch): set<string> {
    set t | t in batch :: t.op.typ
  }

  function Replayed(batch: Batch, existing: seq<Snapshot>): map<string, Row> {
    Replay(Hydrated(existing), batch, map[])
  }

  /** What one upload makes of the durable rows. */
  function Pipeline(rows: Rows, tenantId: string, batch: Batch, existing: seq<Snapshot>): Rows {
    var after := Replayed(batch, existing);
    Deleted(Upserted(rows, tenantId, Upserts(batch, after)), tenantId, Deletes(batch, after))
  }

  // ------------------------------------------------------------ the endpoint

  const MAX_BATCH_SIZE := 1000
  const SINGLE_TENANT_ID := "00000000-0000-0000-0000-000000000000"

  predicate WellFormedOps(ops: seq<Op>) {
    |ops| <= MAX_BATCH_SIZE && forall i :: 0 <= i < |ops| ==> ops[i].typ != "" && ops[i].id != ""
  }

  function OpsOf(batch: Batch): seq<Op> {
    Mapped(batch, (t: Timed) => t.op)
  }

  predicate WellFormedBatch(batch: Batch) {
    WellFormedOps(OpsOf(batch))
  }

  /** A batch is accepted when it has at most a thousand operations and every one of them names
      a type and an id. */
  lemma BatchIsAcceptedExactlyWhen(batch: Batch)
    ensures WellFormedBatch(batch) <==>
            |batch| <= 1000 && forall i :: 0 <= i < |batch| ==> batch[i].op.typ != "" && batch[i].op.id != ""
  {
    var ops := OpsOf(batch);
    assert forall i :: 0 <= i < |batch| ==> ops[i] == batch[i].op;
  }

  /** What an upload makes of the store, whatever order the store lists its rows in: a batch
      that is refused leaves it alone. */
  ghost predicate UploadStep(rows: Rows, tenantId: string, batch: Batch, next: Rows) {
    if WellFormedBatch(batch)
    then exists existing :: Loads(existing, rows, tenantId, Types(batch)) && next == Pipeline(rows, tenantId, batch, existing)
    else next == rows
  }

  /** What a call makes of the store when tenants are told apart. */
  ghost predicate CallStep(rows: Rows, tenantId: Option<string>, batch: Batch, next: Rows) {
    if tenantId in {None, Some("")} then next == rows else UploadStep(rows, tenantId.value, batch, next)
  }

  function EffectiveTenant(multiTenancy: bool, tenantId: Option<string>): Option<string> {
    if multiTenancy then tenantId else Some(SINGLE_TENANT_ID)
  }

  datatype Response = NoContent | Unauthorized | InvalidBatch | Conflict(rejected: seq<Rejection>)

  /** Without guarded fields, and the endpoint passes none, a replay rejects nothing. */
  lemma UnguardedReplayRejectsNothing(rows: map<string, Row>, batch: Batch)
    ensures Rejected(rows, batch, map[]) == []
  {
    ConflictExactlyWhenGuardedFieldTouched(rows, batch, map[]);
  }

  method HydrateMap(existing: seq<Snapshot>) returns (rowMap: RowMap)
    ensures fresh(rowMap) && rowMap.entries == Hydrated(existing)
  {
    rowMap := new RowMap();
    for i := 0 to |existing|
      invariant fresh(rowMap) && rowMap.entries == Hydrated(existing[..i])
    {
      var s := existing[i];
      assert existing[..i + 1][..i] == existing[..i];
      rowMap.entries := rowMap.entries[MapKey(s.typ, Render(s.id)) := RowOf(s)];
    }
    assert existing[..|existing|] == existing;
  }

  method DiffMap(batch: Batch, rowMap: RowMap) returns (upserts: seq<Snapshot>, deletes: seq<Address>)
    ensures upserts == Upserts(batch, rowMap.entries) && deletes == Deletes(batch, rowMap.entries)
  {
    upserts, deletes := [], [];
    for i := 0 to |batch|
      invariant upserts == Upserts(batch[..i], rowMap.entries)
      invariant deletes == Deletes(batch[..i], rowMap.entries)
    {
      var t := batch[i];
      var key := KeyOf(t.op);
      assert batch[..i + 1][..i] == batch[..i];
      if key in rowMap.entries {
        var row := rowMap.entries[key];
        upserts := upserts + [Snapshot(t.op.typ, row.id, row.fields, row.updatedAt)];
      } else {
        deletes := deletes + [Address(t.op.typ, t.op.id)];
      }
    }
    assert batch[..|batch|] == batch;
  }

  method Crud(store: InMemoryPowerSyncStore, multiTenancy: bool, tenantId: Option<string>, batch: Batch)
    returns (response: Response)
    modifies store
    ensures multiTenancy && tenantId in {None, Some("")} ==> response == Unauthorized && store.rows == old(store.rows)
    ensures multiTenancy ==> CallStep(old(store.rows), tenantId, batch, store.rows)
    ensures !multiTenancy ==> UploadStep(old(store.rows), "00000000-0000-0000-0000-000000000000", batch, store.rows)
    ensures !(multiTenancy && tenantId in {None, Some("")}) ==>
              response == if |batch| <= 1000 && forall i :: 0 <= i < |batch| ==> batch[i].op.typ != "" && batch[i].op.id != ""
                          then NoContent else InvalidBatch
  {
    var tenant := EffectiveTenant(multiTenancy, tenantId);
    if tenant.None? || tenant.value == "" { return Unauthorized; }
    BatchIsAcceptedExactlyWhen(batch);
    if !WellFormedBatch(batch) { return InvalidBatch; }

    var existing := store.LoadByTypes(tenant.value, Types(batch));
    var rowMap := HydrateMap(existing);
    var status, rejected := ApplyCrudBatch(batch, rowMap, map[]);
    UnguardedReplayRejectsNothing(Hydrated(existing), batch);
    var upserts, deletes := DiffMap(batch, rowMap);
    store.ApplyMutations(tenant.value, upserts, deletes);
    if status == 409 { return Conflict(rejected); }
    return NoContent;
  }
}
