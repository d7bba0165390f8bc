/** What the upload pipeline promises: it is each operation applied directly to the durable
    row it addresses, as long as no payload renames its row. */
module PowerSyncRefinement {
  import opened Lists
  import opened PowerSyncReplay
  import opened PowerSyncStore
  import opened Text

  // ------------------------------------------------------------ keys

  /** A part of a key that contains no separator. */
  predicate Plain(s: string) {
    ':' !in s
  }

  /** Two types share a map key for some ids exactly when one, with its separator, begins the
      other: types without a separator never do, unless they are equal. */
  lemma TypesShareAKeyExactlyWhen(a: string, b: string)
    ensures (exists x, y :: MapKey(a, x) == MapKey(b, y)) <==> a + ":" <= b + ":" || b + ":" <= a + ":"
  {
    if x: string, y: string :| MapKey(a, x) == MapKey(b, y) {
      var s := MapKey(a, x);
      assert a + ":" == s[..|a| + 1] && b + ":" == s[..|b| + 1];
    }
    if a + ":" <= b + ":" {
      var x, y := SharedKey(a, b);
      assert MapKey(a, x) == MapKey(b, y);
    }
    if b + ":" <= a + ":" {
      var x, y := SharedKey(b, a);
      assert MapKey(a, y) == MapKey(b, x);
    }
  }

  lemma SharedKey(a: string, b: string) returns (x: string, y: string)
    requires a + ":" <= b + ":"
    ensures MapKey(a, x) == MapKey(b, y)
  {
    x, y := (b + ":")[|a| + 1..], "";
    assert a + ":" + x == b + ":" + y;
  }

  lemma TenantIsUnique(t: string, k: string, t': string, k': string)
    requires Plain(t) && Plain(t')
    requires t + ":" + k == t' + ":" + k'
    ensures t == t' && k == k'
  {
    FirstSeparatorIsUnique(t, k, t', k', ':');
  }

  lemma DurableKeyIsUnique(t: string, ty: string, id: string, t': string, ty': string, id': string)
    requires Plain(t) && Plain(ty) && Plain(t') && Plain(ty')
    requires DurableKey(t, ty, id) == DurableKey(t', ty', id')
    ensures t == t' && ty == ty' && id == id'
  {
    TenantIsUnique(t, MapKey(ty, id), t', MapKey(ty', id'));
    FirstSeparatorIsUnique(ty, id, ty', id', ':');
  }

  /** For one tenant the durable key and the map key say the same. */
  lemma KeysAgree(t: string, ty: string, id: string, ty': string, id': string)
    ensures DurableKey(t, ty, id) == DurableKey(t, ty', id') <==> MapKey(ty, id) == MapKey(ty', id')
  {
    var k, k' := MapKey(ty, id), MapKey(ty', id');
    if t + ":" + k == t + ":" + k' {
      assert k == (t + ":" + k)[|t| + 1..] && k' == (t + ":" + k')[|t| + 1..];
    }
  }

  /** Every durable row is stored under its own tenant, type and id. */
  ghost predicate WellKept(rows: Rows) {
    forall k :: k in rows ==> KeptAt(rows[k], k)
  }

  predicate KeptAt(s: Stored, k: string) {
    && s.row.id.Text?
    && k == DurableKey(s.tenantId, s.row.typ, s.row.id.s)
    && "id" !in s.row.data && "updatedAt" !in s.row.data
  }

  /** Operations with one map key have one type and one id. */
  predicate KeysTellApart(batch: Batch) {
    forall i, j :: 0 <= i < |batch| && 0 <= j < |batch| && KeyOf(batch[i].op) == KeyOf(batch[j].op) ==>
      batch[i].op.typ == batch[j].op.typ && batch[i].op.id == batch[j].op.id
  }

  /** A row at the address of an operation is the row the operation means. */
  predicate RowsAreMeant(rows: Rows, tenantId: string, batch: Batch) {
    forall i :: 0 <= i < |batch| && AddressOf(tenantId, batch[i].op) in rows ==>
      Means(rows[AddressOf(tenantId, batch[i].op)], tenantId, batch[i].op)
  }

  predicate Means(s: Stored, tenantId: string, op: Op) {
    s.tenantId == tenantId && s.row.typ == op.typ && s.row.id == Text(op.id)
  }

  /** No two meanings share a key: neither two operations nor an operation and a row. */
  predicate Unambiguous(rows: Rows, tenantId: string, batch: Batch) {
    KeysTellApart(batch) && RowsAreMeant(rows, tenantId, batch)
  }

  predicate PlainTypes(batch: Batch) {
    forall i :: 0 <= i < |batch| ==> Plain(batch[i].op.typ)
  }

  predicate PlainRows(rows: Rows) {
    forall k :: k in rows ==> Plain(rows[k].tenantId) && Plain(rows[k].row.typ)
  }

  /** No type of the set, with its separator, begins another. */
  predicate Separate(types: set<string>) {
    forall a, b :: a in types && b in types && a + ":" <= b + ":" ==> a == b
  }

  lemma SeparateTypesShareNoKey(types: set<string>, a: string, x: string, b: string, y: string)
    requires Separate(types) && a in types && b in types && MapKey(a, x) == MapKey(b, y)
    ensures a == b && x == y
  {
    TypesShareAKeyExactlyWhen(a, b);
    assert x == MapKey(a, x)[|a| + 1..] && y == MapKey(b, y)[|b| + 1..];
  }

  predicate TypesIn(batch: Batch, types: set<string>) {
    forall i :: 0 <= i < |batch| ==> batch[i].op.typ in types
  }

  /** Tenants without a separator, and only these types among the rows of this one. */
  predicate RowsIn(rows: Rows, tenantId: string, types: set<string>) {
    forall k :: k in rows ==> Plain(rows[k].tenantId) && (rows[k].tenantId == tenantId ==> rows[k].row.typ in types)
  }

  /** Keys are unambiguous whenever tenants contain no separator and types are separate. */
  lemma SeparateKeysAreUnambiguous(rows: Rows, tenantId: string, batch: Batch, types: set<string>)
    requires WellKept(rows) && Plain(tenantId) && RowsIn(rows, tenantId, types) && TypesIn(batch, types) && Separate(types)
    ensures Unambiguous(rows, tenantId, batch)
  {
    forall i, j | 0 <= i < |batch| && 0 <= j < |batch| && KeyOf(batch[i].op) == KeyOf(batch[j].op)
      ensures batch[i].op.typ == batch[j].op.typ && batch[i].op.id == batch[j].op.id
    {
      SeparateTypesShareNoKey(types, batch[i].op.typ, batch[i].op.id, batch[j].op.typ, batch[j].op.id);
    }
    forall i | 0 <= i < |batch| && AddressOf(tenantId, batch[i].op) in rows
      ensures Means(rows[AddressOf(tenantId, batch[i].op)], tenantId, batch[i].op)
    {
      var op := batch[i].op;
      var s := rows[AddressOf(tenantId, op)];
      assert KeptAt(s, AddressOf(tenantId, op));
      TenantIsUnique(s.tenantId, MapKey(s.row.typ, s.row.id.s), tenantId, KeyOf(op));
      SeparateTypesShareNoKey(types, s.row.typ, s.row.id.s, op.typ, op.id);
    }
  }

  lemma PlainTypesAreSeparate(types: set<string>)
    requires forall a :: a in types ==> Plain(a)
    ensures Separate(types)
  {
    forall a, b | a in types && b in types && a + ":" <= b + ":" ensures a == b {
      var s := b + ":";
      assert s[|a|] == ':' && a == s[..|a|];
      assert forall k :: 0 <= k < |b| ==> s[k] != ':';
    }
  }

  function StoredTypes(rows: Rows): set<string> {
    set k | k in rows :: rows[k].row.typ
  }

  /** In particular when types contain none either. */
  lemma PlainKeysAreUnambiguous(rows: Rows, tenantId: string, batch: Batch)
    requires WellKept(rows) && PlainRows(rows) && Plain(tenantId) && PlainTypes(batch)
    ensures Unambiguous(rows, tenantId, batch)
  {
    var types := Types(batch) + StoredTypes(rows);
    PlainTypesAreSeparate(types);
    SeparateKeysAreUnambiguous(rows, tenantId, batch, types);
  }

  lemma ToldApart(batch: Batch, t: Timed, u: Timed)
    requires KeysTellApart(batch) && t in batch && u in batch && KeyOf(t.op) == KeyOf(u.op)
    ensures t.op.typ == u.op.typ && t.op.id == u.op.id
  {
    var i :| 0 <= i < |batch| && batch[i] == t;
    var j :| 0 <= j < |batch| && batch[j] == u;
  }

  // ------------------------------------------------------------ the reference

  /** One operation on the durable row it addresses; the row keeps its address. */
  function DirectRow(row: Option<Stored>, tenantId: string, t: Timed): Option<Stored> {
    var next := StepRow(if row.Some? then Some(RowOf(row.value.row)) else None, t, map[]);
    if next.Some?
    then Some(Stored(tenantId, Snapshot(t.op.typ, Text(t.op.id), next.value.fields, next.value.updatedAt)))
    else None
  }

  function AddressOf(tenantId: string, op: Op): string {
    DurableKey(tenantId, op.typ, op.id)
  }

  function DirectOp(rows: Rows, tenantId: string, t: Timed): Rows {
    var k := AddressOf(tenantId, t.op);
    Put(rows, k, DirectRow(Get(rows, k), tenantId, t))
  }

  function Directly(tenantId: string): (Rows, Timed) -> Rows {
    (rows, t) => DirectOp(rows, tenantId, t)
  }

  function Direct(rows: Rows, tenantId: string, batch: Batch): Rows {
    Run(rows, batch, Directly(tenantId))
  }

  lemma {:induction false} DirectKeepsRowsWell(rows: Rows, tenantId: string, batch: Batch)
    requires WellKept(rows)
    ensures WellKept(Direct(rows, tenantId, batch))
  {
    if batch != [] {
      DirectKeepsRowsWell(rows, tenantId, batch[..|batch| - 1]);
    }
  }

  /** Direct application leaves keys unambiguous for the operations that follow. */
  lemma {:induction false} DirectStaysUnambiguous(rows: Rows, tenantId: string, a: Batch, b: Batch)
    requires Unambiguous(rows, tenantId, a + b)
    ensures Unambiguous(Direct(rows, tenantId, a), tenantId, b)
    decreases |a|
  {
    var all := a + b;
    assert forall i :: 0 <= i < |b| ==> b[i] == all[|a| + i];
    if a != [] {
      var n := |a| - 1;
      assert a[..n] + ([a[n]] + b) == all;
      DirectStaysUnambiguous(rows, tenantId, a[..n], [a[n]] + b);
      OpStaysUnambiguous(Direct(rows, tenantId, a[..n]), tenantId, a[n], b);
    }
  }

  lemma OpStaysUnambiguous(rows: Rows, tenantId: string, t: Timed, b: Batch)
    requires Unambiguous(rows, tenantId, [t] + b)
    ensures Unambiguous(DirectOp(rows, tenantId, t), tenantId, b)
  {
    var all := [t] + b;
    assert all[0] == t && forall i :: 0 <= i < |b| ==> b[i] == all[i + 1];
    forall i | 0 <= i < |b| && AddressOf(tenantId, b[i].op) in DirectOp(rows, tenantId, t)
      ensures Means(DirectOp(rows, tenantId, t)[AddressOf(tenantId, b[i].op)], tenantId, b[i].op)
    {
      KeysAgree(tenantId, t.op.typ, t.op.id, b[i].op.typ, b[i].op.id);
      if KeyOf(t.op) == KeyOf(b[i].op) {
        ToldApart(all, all[0], all[i + 1]);
      } else {
        assert Means(rows[AddressOf(tenantId, all[i + 1].op)], tenantId, all[i + 1].op);
      }
    }
  }

  /** Rows the batch does not address, of this tenant or any other, stay as they are. */
  lemma {:induction false} DirectLeavesTheRestAlone(rows: Rows, tenantId: string, batch: Batch, k: string)
    requires forall t :: t in batch ==> AddressOf(tenantId, t.op) != k
    ensures Get(Direct(rows, tenantId, batch), k) == Get(rows, k)
  {
    if batch != [] {
      DirectLeavesTheRestAlone(rows, tenantId, batch[..|batch| - 1], k);
    }
  }

  // ------------------------------------------------------------ replay and reference, row by row

  /** The durable row `d` and the replayed row `r` at one address agree on everything but the
      replayed row's id. */
  predicate Agree(d: Option<Stored>, r: Option<Row>, tenantId: string, typ: string, id: string) {
    if r.None? then d.None?
    else d == Some(Stored(tenantId, Snapshot(typ, Text(id), r.value.fields, r.value.updatedAt)))
  }

  predicate CleanFields(r: Option<Row>) {
    r.Some? ==> "id" !in r.value.fields && "updatedAt" !in r.value.fields
  }

  lemma StepsAgree(d: Option<Stored>, r: Option<Row>, tenantId: string, t: Timed)
    requires Agree(d, r, tenantId, t.op.typ, t.op.id) && CleanFields(r)
    ensures Agree(DirectRow(d, tenantId, t), StepRow(r, t, map[]), tenantId, t.op.typ, t.op.id)
    ensures CleanFields(StepRow(r, t, map[]))
  {
    if r.Some? {
      assert RowOf(d.value.row) == r.value.(id := Text(t.op.id)) by {
        assert map[] + (r.value.fields - {"id", "updatedAt"}) == r.value.fields;
      }
    }
  }

  /** Replay on the map and direct application agree at the address of every operation. */
  lemma {:induction false} RunsAgree(rows: Rows, m: map<string, Row>, tenantId: string, batch: Batch, typ: string, id: string)
    requires forall i :: 0 <= i < |batch| && KeyOf(batch[i].op) == MapKey(typ, id) ==>
               batch[i].op.typ == typ && batch[i].op.id == id
    requires Agree(Get(rows, DurableKey(tenantId, typ, id)), Get(m, MapKey(typ, id)), tenantId, typ, id)
    requires CleanFields(Get(m, MapKey(typ, id)))
    ensures Agree(Get(Direct(rows, tenantId, batch), DurableKey(tenantId, typ, id)),
                  Get(Replay(m, batch, map[]), MapKey(typ, id)), tenantId, typ, id)
    ensures CleanFields(Get(Replay(m, batch, map[]), MapKey(typ, id)))
  {
    if batch != [] {
      var n := |batch| - 1;
      var t := batch[n];
      assert forall i :: 0 <= i < n ==> batch[..n][i] == batch[i];
      RunsAgree(rows, m, tenantId, batch[..n], typ, id);
      OneOpAgrees(Direct(rows, tenantId, batch[..n]), Replay(m, batch[..n], map[]), tenantId, t, typ, id);
    }
  }

  lemma OneOpAgrees(d: Rows, r: map<string, Row>, tenantId: string, t: Timed, typ: string, id: string)
    requires KeyOf(t.op) == MapKey(typ, id) ==> t.op.typ == typ && t.op.id == id
    requires Agree(Get(d, DurableKey(tenantId, typ, id)), Get(r, MapKey(typ, id)), tenantId, typ, id)
    requires CleanFields(Get(r, MapKey(typ, id)))
    ensures Agree(Get(DirectOp(d, tenantId, t), DurableKey(tenantId, typ, id)),
                  Get(ApplyOp(r, t, map[]), MapKey(typ, id)), tenantId, typ, id)
    ensures CleanFields(Get(ApplyOp(r, t, map[]), MapKey(typ, id)))
  {
    KeysAgree(tenantId, t.op.typ, t.op.id, typ, id);
    if KeyOf(t.op) == MapKey(typ, id) {
      StepsAgree(Get(d, DurableKey(tenantId, typ, id)), Get(r, MapKey(typ, id)), tenantId, t);
    }
  }

  // ------------------------------------------------------------ hydration

  lemma {:induction false} HydratedExactly(existing: seq<Snapshot>, key: string)
    ensures key in Hydrated(existing) ==>
              exists s :: s in existing && MapKey(s.typ, Render(s.id)) == key && Hydrated(existing)[key] == RowOf(s)
    ensures forall s :: s in existing && MapKey(s.typ, Render(s.id)) == key ==> key in Hydrated(existing)
  {
    if existing != [] {
      var n := |existing| - 1;
      HydratedExactly(existing[..n], key);
      assert existing == existing[..n] + [existing[n]];
    }
  }

  /** Loading only the batch's types gives the map the durable row of every address whose row,
      if there is one, is the row meant. */
  lemma HydrationAgrees(rows: Rows, tenantId: string, types: set<string>, existing: seq<Snapshot>, op: Op)
    requires WellKept(rows) && op.typ in types
    requires AddressOf(tenantId, op) in rows ==> Means(rows[AddressOf(tenantId, op)], tenantId, op)
    requires Loads(existing, rows, tenantId, types)
    ensures var r := Get(Hydrated(existing), KeyOf(op));
            && Agree(Get(rows, AddressOf(tenantId, op)), r, tenantId, op.typ, op.id)
            && CleanFields(r)
            && (r.Some? ==> r.value.id == Text(op.id))
  {
    var k, key := AddressOf(tenantId, op), KeyOf(op);
    HydratedExactly(existing, key);
    if k in rows {
      assert rows[k] == Stored(tenantId, rows[k].row);
      assert rows[k].row in existing;
    }
    if key in Hydrated(existing) {
      var s :| s in existing && MapKey(s.typ, Render(s.id)) == key && Hydrated(existing)[key] == RowOf(s);
      var k' :| k' in rows && rows[k'] == Stored(tenantId, s);
      assert KeptAt(rows[k'], k');
      assert k' == k;
      assert map[] + (s.data - {"id", "updatedAt"}) == s.data;
    }
  }

  // ------------------------------------------------------------ persisting

  /** Every row the batch leaves behind still carries the id of the operation. */
  ghost predicate OwnIds(batch: Batch, after: map<string, Row>) {
    forall t :: t in batch && KeyOf(t.op) in after ==> after[KeyOf(t.op)].id == Text(t.op.id)
  }

  predicate GoesTo(u: Snapshot, tenantId: string, k: string) {
    DurableKey(tenantId, u.typ, Render(u.id)) == k
  }

  /** The last upsert that goes to a key. */
  function LastUpsert(upserts: seq<Snapshot>, tenantId: string, k: string): (r: Option<Snapshot>)
    ensures r.Some? ==> r.value in upserts && GoesTo(r.value, tenantId, k)
    ensures r.None? ==> forall u :: u in upserts ==> !GoesTo(u, tenantId, k)
  {
    if upserts == [] then None
    else
      var n := |upserts| - 1;
      assert upserts == upserts[..n] + [upserts[n]];
      if GoesTo(upserts[n], tenantId, k) then Some(upserts[n]) else LastUpsert(upserts[..n], tenantId, k)
  }

  lemma {:induction false} LastUpsertIsWritten(rows: Rows, tenantId: string, upserts: seq<Snapshot>, k: string)
    ensures var last := LastUpsert(upserts, tenantId, k);
            Get(Upserted(rows, tenantId, upserts), k) == if last.Some? then Some(Stored(tenantId, last.value)) else Get(rows, k)
  {
    if upserts != [] {
      LastUpsertIsWritten(rows, tenantId, upserts[..|upserts| - 1], k);
    }
  }

  lemma UpsertedAt(rows: Rows, tenantId: string, upserts: seq<Snapshot>, k: string)
    ensures (forall u :: u in upserts ==> DurableKey(tenantId, u.typ, Render(u.id)) != k) ==>
              Get(Upserted(rows, tenantId, upserts), k) == Get(rows, k)
    ensures (exists u :: u in upserts && DurableKey(tenantId, u.typ, Render(u.id)) == k) ==>
              exists u :: u in upserts && DurableKey(tenantId, u.typ, Render(u.id)) == k
                          && Get(Upserted(rows, tenantId, upserts), k) == Some(Stored(tenantId, u))
  {
    var last := LastUpsert(upserts, tenantId, k);
    LastUpsertIsWritten(rows, tenantId, upserts, k);
    if u :| u in upserts && DurableKey(tenantId, u.typ, Render(u.id)) == k {
      assert GoesTo(u, tenantId, k);
    } else {
      assert last.None?;
    }
  }

  lemma {:induction false} DeletedAt(rows: Rows, tenantId: string, deletes: seq<Address>, k: string)
    ensures Get(Deleted(rows, tenantId, deletes), k) ==
            if exists d :: d in deletes && DurableKey(tenantId, d.typ, d.id) == k then None else Get(rows, k)
  {
    if deletes != [] {
      var n := |deletes| - 1;
      DeletedAt(rows, tenantId, deletes[..n], k);
      assert deletes == deletes[..n] + [deletes[n]];
    }
  }

  lemma KeyIsWritten(rows: Rows, tenantId: string, ups: seq<Snapshot>, u: Snapshot)
    requires u in ups
    ensures DurableKey(tenantId, u.typ, Render(u.id)) in Deleted(Upserted(rows, tenantId, ups), tenantId, [])
  {
    var k := DurableKey(tenantId, u.typ, Render(u.id));
    UpsertedAt(rows, tenantId, ups, k);
  }

  lemma OnlyUpsertIsWritten(rows: Rows, tenantId: string, ups: seq<Snapshot>, u: Snapshot)
    requires u in ups
    requires forall v :: v in ups && GoesTo(v, tenantId, DurableKey(tenantId, u.typ, Render(u.id))) ==> v == u
    ensures var k := DurableKey(tenantId, u.typ, Render(u.id));
            Get(Deleted(Upserted(rows, tenantId, ups), tenantId, []), k) == Some(Stored(tenantId, u))
  {
    UpsertedAt(rows, tenantId, ups, DurableKey(tenantId, u.typ, Render(u.id)));
  }

  /** No key is written and deleted, and operations on one row write the same row. */
  lemma MutationsDoNotClash(tenantId: string, batch: Batch, after: map<string, Row>, t: Timed)
    requires t in batch && KeysTellApart(batch) && OwnIds(batch, after)
    ensures forall u :: u in Upserts(batch, after) && DurableKey(tenantId, u.typ, Render(u.id)) == AddressOf(tenantId, t.op)
              ==> UpsertFor(t, after) == Some(u)
    ensures forall d :: d in Deletes(batch, after) && DurableKey(tenantId, d.typ, d.id) == AddressOf(tenantId, t.op)
              ==> UpsertFor(t, after) == None
  {
    forall u | u in Upserts(batch, after) && DurableKey(tenantId, u.typ, Render(u.id)) == AddressOf(tenantId, t.op)
      ensures UpsertFor(t, after) == Some(u)
    {
      var o := UpsertComesFrom(batch, after, u);
      KeysAgree(tenantId, o.op.typ, o.op.id, t.op.typ, t.op.id);
      ToldApart(batch, o, t);
    }
    forall d | d in Deletes(batch, after) && DurableKey(tenantId, d.typ, d.id) == AddressOf(tenantId, t.op)
      ensures UpsertFor(t, after) == None
    {
      var o := DeleteComesFrom(batch, after, d);
      KeysAgree(tenantId, o.op.typ, o.op.id, t.op.typ, t.op.id);
    }
  }

  lemma UpsertComesFrom(batch: Batch, after: map<string, Row>, u: Snapshot) returns (t: Timed)
    requires u in Upserts(batch, after)
    ensures t in batch && UpsertFor(t, after) == Some(u)
  {
    var f := (t: Timed) => UpsertFor(t, after);
    CollectedExactly(batch, f, u);
    var k :| 0 <= k < |batch| && f(batch[k]) == Some(u);
    t := batch[k];
  }

  lemma DeleteComesFrom(batch: Batch, after: map<string, Row>, d: Address) returns (t: Timed)
    requires d in Deletes(batch, after)
    ensures t in batch && DeleteFor(t, after) == Some(d)
  {
    var f := (t: Timed) => DeleteFor(t, after);
    CollectedExactly(batch, f, d);
    var k :| 0 <= k < |batch| && f(batch[k]) == Some(d);
    t := batch[k];
  }

  lemma MutationIsDerived(batch: Batch, after: map<string, Row>, t: Timed)
    requires t in batch
    ensures if KeyOf(t.op) in after then UpsertFor(t, after).value in Upserts(batch, after)
            else DeleteFor(t, after).value in Deletes(batch, after)
  {
    var k :| 0 <= k < |batch| && batch[k] == t;
    var f, g := (t: Timed) => UpsertFor(t, after), (t: Timed) => DeleteFor(t, after);
    if KeyOf(t.op) in after {
      CollectedExactly(batch, f, UpsertFor(t, after).value);
      assert f(batch[k]) == Some(UpsertFor(t, after).value);
    } else {
      CollectedExactly(batch, g, DeleteFor(t, after).value);
      assert g(batch[k]) == Some(DeleteFor(t, after).value);
    }
  }

  /** What the writes leave at the address of an operation of the batch. */
  lemma PersistedAtAddress(rows: Rows, tenantId: string, batch: Batch, after: map<string, Row>, t: Timed)
    requires t in batch && KeysTellApart(batch) && OwnIds(batch, after)
    ensures var written := Deleted(Upserted(rows, tenantId, Upserts(batch, after)), tenantId, Deletes(batch, after));
            var u := UpsertFor(t, after);
            Get(written, AddressOf(tenantId, t.op)) == if u.Some? then Some(Stored(tenantId, u.value)) else None
  {
    var k := AddressOf(tenantId, t.op);
    var ups, dels := Upserts(batch, after), Deletes(batch, after);
    MutationsDoNotClash(tenantId, batch, after, t);
    MutationIsDerived(batch, after, t);
    UpsertedAt(rows, tenantId, ups, k);
    DeletedAt(Upserted(rows, tenantId, ups), tenantId, dels, k);
    if KeyOf(t.op) in after {
      var u := UpsertFor(t, after).value;
      assert u in ups && DurableKey(tenantId, u.typ, Render(u.id)) == k;
    } else {
      var d := DeleteFor(t, after).value;
      assert d in dels && DurableKey(tenantId, d.typ, d.id) == k;
    }
  }

  /** What the writes leave elsewhere: what was there. */
  lemma PersistedElsewhere(rows: Rows, tenantId: string, batch: Batch, after: map<string, Row>, k: string)
    requires OwnIds(batch, after)
    requires forall t :: t in batch ==> AddressOf(tenantId, t.op) != k
    ensures Get(Deleted(Upserted(rows, tenantId, Upserts(batch, after)), tenantId, Deletes(batch, after)), k) == Get(rows, k)
  {
    var ups, dels := Upserts(batch, after), Deletes(batch, after);
    forall u | u in ups ensures DurableKey(tenantId, u.typ, Render(u.id)) != k {
      var t := UpsertComesFrom(batch, after, u);
    }
    forall d | d in dels ensures DurableKey(tenantId, d.typ, d.id) != k {
      var t := DeleteComesFrom(batch, after, d);
    }
    UpsertedAt(rows, tenantId, ups, k);
    DeletedAt(Upserted(rows, tenantId, ups), tenantId, dels, k);
  }

  // ------------------------------------------------------------ the refinement

  /** An upload that leaves every row its own id is its operations applied directly, one by
      one, to the durable rows. */
  lemma PipelineIsDirect(rows: Rows, tenantId: string, batch: Batch, existing: seq<Snapshot>)
    requires WellKept(rows) && Unambiguous(rows, tenantId, batch)
    requires Loads(existing, rows, tenantId, Types(batch))
    requires OwnIds(batch, Replayed(batch, existing))
    ensures Pipeline(rows, tenantId, batch, existing) == Direct(rows, tenantId, batch)
  {
    var p, d := Pipeline(rows, tenantId, batch, existing), Direct(rows, tenantId, batch);
    forall k ensures Get(p, k) == Get(d, k) {
      if t :| t in batch && AddressOf(tenantId, t.op) == k {
        PersistedAtAddress(rows, tenantId, batch, Replayed(batch, existing), t);
        ReplayAgreesWithDirect(rows, tenantId, batch, existing, t);
      } else {
        PersistedElsewhere(rows, tenantId, batch, Replayed(batch, existing), k);
        DirectLeavesTheRestAlone(rows, tenantId, batch, k);
      }
    }
    SameLookups(p, d);
  }

  lemma ReplayAgreesWithDirect(rows: Rows, tenantId: string, batch: Batch, existing: seq<Snapshot>, t: Timed)
    requires WellKept(rows) && Unambiguous(rows, tenantId, batch) && t in batch
    requires Loads(existing, rows, tenantId, Types(batch))
    ensures Agree(Get(Direct(rows, tenantId, batch), AddressOf(tenantId, t.op)),
                  Get(Replayed(batch, existing), KeyOf(t.op)), tenantId, t.op.typ, t.op.id)
  {
    var i :| 0 <= i < |batch| && batch[i] == t;
    HydrationAgrees(rows, tenantId, Types(batch), existing, t.op);
    RunsAgree(rows, Hydrated(existing), tenantId, batch, t.op.typ, t.op.id);
  }

  lemma SameLookups<K, V>(m: map<K, V>, n: map<K, V>)
    requires forall k :: Get(m, k) == Get(n, k)
    ensures m == n
  {
    assert forall k :: k in m <==> Get(m, k).Some?;
    assert forall k :: k in n <==> Get(n, k).Some?;
    assert forall k :: k in m && k in n ==> Get(m, k) == Some(m[k]) && Get(n, k) == Some(n[k]);
  }
}
