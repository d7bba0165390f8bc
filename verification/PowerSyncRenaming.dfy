/** When one upload is safe: the exact conditions on its payloads under which the pipeline
    keeps every row in its place and is direct application, and what happens without them. */
module PowerSyncRenaming {
  import opened Lists
  import opened PowerSyncHistory
  import opened PowerSyncReplay
  import opened PowerSyncStore
  import opened PowerSyncRefinement

  // ------------------------------------------------------------ payloads that rename

  /** No payload leaves a row with an id other than the one the operation addresses. */
  predicate KeepsIds(batch: Batch) {
    forall i :: 0 <= i < |batch| ==> LastId(batch, KeyOf(batch[i].op)) in {None, Some(Text(batch[i].op.id))}
  }

  /** The row still carries `id`, or the last payload's id; a renamed row was stamped by this
      replay, so no later operation finds it newer than the clock. */
  predicate Tracks(r: Option<Row>, batch: Batch, key: string, id: string) {
    r.Some? && r.value.id != Text(id) ==>
      && LastId(batch, key) == Some(r.value.id)
      && Touches(batch, key)
  }

  lemma {:induction false} ReplayTracksIds(m: map<string, Row>, batch: Batch, key: string, id: string)
    requires ClockRunsForward(batch)
    requires key in m ==> m[key].id == Text(id)
    requires forall i :: 0 <= i < |batch| && KeyOf(batch[i].op) == key ==> batch[i].op.id == id
    ensures Tracks(Get(Replay(m, batch, map[]), key), batch, key, id)
  {
    if batch != [] {
      var n := |batch| - 1;
      var before := Replay(m, batch[..n], map[]);
      assert forall i :: 0 <= i < n ==> batch[..n][i] == batch[i];
      ClockBefore(batch);
      ReplayTracksIds(m, batch[..n], key, id);
      if Touches(batch[..n], key) {
        TouchedRowIsStamped(m, batch[..n], key, map[]);
        TouchedStays(batch, key);
      }
      assert Replay(m, batch, map[]) == ApplyOp(before, batch[n], map[]);
      if KeyOf(batch[n].op) == key {
        StepTracksIds(Get(before, key), batch, id);
      }
    }
  }

  lemma TouchedStays(batch: Batch, key: string)
    requires batch != [] && Touches(batch[..|batch| - 1], key)
    ensures Touches(batch, key)
  {
    var n := |batch| - 1;
    var i :| 0 <= i < n && KeyOf(batch[..n][i].op) == key;
    assert KeyOf(batch[i].op) == key;
  }

  lemma StepTracksIds(before: Option<Row>, batch: Batch, id: string)
    requires batch != []
    requires var n := |batch| - 1;
             && batch[n].op.id == id
             && Tracks(before, batch[..n], KeyOf(batch[n].op), id)
             && (Touches(batch[..n], KeyOf(batch[n].op)) ==> StampedBy(before, batch[n].first))
    ensures var n := |batch| - 1;
            Tracks(StepRow(before, batch[n], map[]), batch, KeyOf(batch[n].op), id)
  {
    var n := |batch| - 1;
    var t := batch[n];
    assert KeyOf(batch[n].op) == KeyOf(t.op);
    assert Touches(batch, KeyOf(t.op));
    if t.op.kind != DELETE && before.Some? {
      assert t.op.data - {} == t.op.data;
      assert t.op.data.Keys * {} == {};
    }
  }

  lemma KeptIdsAreOwn(rows: Rows, tenantId: string, batch: Batch, existing: seq<Snapshot>)
    requires WellKept(rows) && Unambiguous(rows, tenantId, batch)
    requires Loads(existing, rows, tenantId, Types(batch))
    requires KeepsIds(batch) && ClockRunsForward(batch)
    ensures OwnIds(batch, Replayed(batch, existing))
  {
    forall t | t in batch && KeyOf(t.op) in Replayed(batch, existing)
      ensures Replayed(batch, existing)[KeyOf(t.op)].id == Text(t.op.id)
    {
      var i :| 0 <= i < |batch| && batch[i] == t;
      HydrationAgrees(rows, tenantId, Types(batch), existing, t.op);
      ReplayTracksIds(Hydrated(existing), batch, KeyOf(t.op), t.op.id);
    }
  }

  lemma SameTypeMapKeys(typ: string, x: string, y: string)
    ensures MapKey(typ, x) == MapKey(typ, y) <==> x == y
  {
    if MapKey(typ, x) == MapKey(typ, y) {
      assert x == MapKey(typ, x)[|typ| + 1..] && y == MapKey(typ, y)[|typ| + 1..];
    }
  }

  lemma SameTypeKeys(tenantId: string, typ: string, x: string, y: string)
    ensures DurableKey(tenantId, typ, x) == DurableKey(tenantId, typ, y) <==> x == y
  {
    KeysAgree(tenantId, typ, x, typ, y);
    SameTypeMapKeys(typ, x, y);
  }

  // ------------------------------------------------------------ the exact conditions

  predicate SameOps(a: Batch, b: Batch) {
    |a| == |b| && forall i :: 0 <= i < |a| ==> a[i].op == b[i].op
  }

  lemma {:induction false} SameTrails(a: Batch, b: Batch, key: string, name: string)
    requires SameOps(a, b)
    ensures TrailOf(a, key, name) == TrailOf(b, key, name)
  {
    if a != [] {
      SameTrails(a[..|a| - 1], b[..|b| - 1], key, name);
    }
  }

  lemma SameOpsKeepIds(a: Batch, b: Batch)
    requires SameOps(a, b)
    ensures KeepsIds(a) == KeepsIds(b)
  {
    forall i | 0 <= i < |a| ensures LastId(a, KeyOf(a[i].op)) == LastId(b, KeyOf(b[i].op)) {
      SameTrails(a, b, KeyOf(a[i].op), "id");
    }
  }

  /** A store and a clock an upload of `batch` may meet, and what it loads. */
  ghost predicate Fits(batch: Batch, rows: Rows, tenantId: string, existing: seq<Snapshot>) {
    && ClockRunsForward(batch) && WellKept(rows) && Unambiguous(rows, tenantId, batch)
    && Loads(existing, rows, tenantId, Types(batch))
  }

  /** The same operations with readings that are all different. */
  function Ticking(ops: Batch): (batch: Batch)
    ensures SameOps(batch, ops)
    ensures forall i :: 0 <= i < |ops| ==> batch[i] == Timed(ops[i].op, 2 * i, 2 * i + 1)
  {
    seq(|ops|, i requires 0 <= i < |ops| => Timed(ops[i].op, 2 * i, 2 * i + 1))
  }

  lemma TickingFits(ops: Batch, tenantId: string)
    requires KeysTellApart(ops)
    ensures Fits(Ticking(ops), map[], tenantId, [])
    ensures NoneDiscarded(map[], Ticking(ops), map[])
    ensures KeysTellApart(Ticking(ops))
  {
    NothingIsDiscarded(map[], Ticking(ops), map[], 0);
  }

  /** An operation whose row ends up renamed. */
  lemma RenamedOp(batch: Batch) returns (t: Timed)
    requires !KeepsIds(batch) && KeysTellApart(batch) && NoneDiscarded(map[], batch, map[])
    ensures t in batch
    ensures KeyOf(t.op) in Replay(map[], batch, map[]) && Replay(map[], batch, map[])[KeyOf(t.op)].id != Text(t.op.id)
  {
    var i :| 0 <= i < |batch| && LastId(batch, KeyOf(batch[i].op)) !in {None, Some(Text(batch[i].op.id))};
    t := batch[i];
    IdIsLastWrite(map[], batch, map[], KeyOf(t.op), t.op.id);
  }

  /** A batch keeps every row in its place, on every store and at every time, exactly when no
      payload leaves a row renamed. */
  lemma RowsStayInPlaceExactlyWhen(ops: Batch, tenantId: string)
    requires KeysTellApart(ops)
    ensures KeepsIds(ops) <==>
            forall rows, existing, batch :: SameOps(batch, ops) && Fits(batch, rows, tenantId, existing) ==>
              OwnIds(batch, Replayed(batch, existing))
  {
    if KeepsIds(ops) {
      forall rows, existing, batch | SameOps(batch, ops) && Fits(batch, rows, tenantId, existing)
        ensures OwnIds(batch, Replayed(batch, existing))
      {
        SameOpsKeepIds(batch, ops);
        KeptIdsAreOwn(rows, tenantId, batch, existing);
      }
    } else {
      var batch := Ticking(ops);
      SameOpsKeepIds(batch, ops);
      TickingFits(ops, tenantId);
      var t := RenamedOp(batch);
      assert Hydrated([]) == map[];
      assert !OwnIds(batch, Replayed(batch, []));
    }
  }

  /** No payload names the time stamp. */
  predicate LeavesStamps(batch: Batch) {
    forall i :: 0 <= i < |batch| ==> "updatedAt" !in batch[i].op.data
  }

  /** On the empty store a row's stamp is a reading of one of its operations. */
  lemma {:induction false} StampComesFrom(batch: Batch, key: string) returns (i: nat)
    requires LeavesStamps(batch) && key in Replay(map[], batch, map[])
    ensures i < |batch| && KeyOf(batch[i].op) == key
    ensures Replay(map[], batch, map[])[key].updatedAt in {Clock(batch[i].first), Clock(batch[i].second)}
  {
    var n := |batch| - 1;
    var before := Replay(map[], batch[..n], map[]);
    assert Replay(map[], batch, map[]) == ApplyOp(before, batch[n], map[]);
    if KeyOf(batch[n].op) == key {
      i := n;
    } else {
      assert forall j :: 0 <= j < n ==> batch[..n][j] == batch[j];
      i := StampComesFrom(batch[..n], key);
    }
  }

  /** With readings that are all different, rows with one stamp are one row. */
  lemma StampsTellApart(ops: Batch, key: string, other: string)
    requires LeavesStamps(ops)
    requires var after := Replay(map[], Ticking(ops), map[]);
             key in after && other in after && after[key].updatedAt == after[other].updatedAt
    ensures key == other
  {
    var i := StampComesFrom(Ticking(ops), key);
    var j := StampComesFrom(Ticking(ops), other);
    assert i == j;
  }

  /** A renamed row shows in the store: at its address no upsert wrote the row meant. */
  lemma RenamingShows(ops: Batch, tenantId: string)
    requires KeysTellApart(ops) && LeavesStamps(ops) && !KeepsIds(ops)
    ensures Fits(Ticking(ops), map[], tenantId, [])
    ensures Pipeline(map[], tenantId, Ticking(ops), []) != Direct(map[], tenantId, Ticking(ops))
  {
    var batch := Ticking(ops);
    SameOpsKeepIds(batch, ops);
    TickingFits(ops, tenantId);
    var t := RenamedOp(batch);
    assert Hydrated([]) == map[];
    var after := Replayed(batch, []);
    ReplayAgreesWithDirect(map[], tenantId, batch, [], t);
    var k := AddressOf(tenantId, t.op);
    if Get(Pipeline(map[], tenantId, batch, []), k) == Get(Direct(map[], tenantId, batch), k) {
      var u := WrittenByUpsert(tenantId, batch, after, k);
      var o := UpsertComesFrom(batch, after, u);
      StampsTellApart(ops, KeyOf(o.op), KeyOf(t.op));
      assert false;
    }
  }

  lemma WrittenByUpsert(tenantId: string, batch: Batch, after: map<string, Row>, k: string) returns (u: Snapshot)
    requires k in Deleted(Upserted(map[], tenantId, Upserts(batch, after)), tenantId, Deletes(batch, after))
    ensures u in Upserts(batch, after)
    ensures Deleted(Upserted(map[], tenantId, Upserts(batch, after)), tenantId, Deletes(batch, after))[k] == Stored(tenantId, u)
  {
    var ups := Upserts(batch, after);
    DeletedAt(Upserted(map[], tenantId, ups), tenantId, Deletes(batch, after), k);
    UpsertedAt(map[], tenantId, ups, k);
    u :| u in ups && DurableKey(tenantId, u.typ, Render(u.id)) == k
         && Get(Upserted(map[], tenantId, ups), k) == Some(Stored(tenantId, u));
  }

  /** Uploads whose payloads leave the time stamp alone are direct application, on every store
      and at every time, exactly when no payload leaves a row renamed. */
  lemma PipelineIsDirectExactlyWhen(ops: Batch, tenantId: string)
    requires KeysTellApart(ops) && LeavesStamps(ops)
    ensures KeepsIds(ops) <==>
            forall rows, existing, batch :: SameOps(batch, ops) && Fits(batch, rows, tenantId, existing) ==>
              Pipeline(rows, tenantId, batch, existing) == Direct(rows, tenantId, batch)
  {
    if KeepsIds(ops) {
      forall rows, existing, batch | SameOps(batch, ops) && Fits(batch, rows, tenantId, existing)
        ensures Pipeline(rows, tenantId, batch, existing) == Direct(rows, tenantId, batch)
      {
        SameOpsKeepIds(batch, ops);
        KeptIdsAreOwn(rows, tenantId, batch, existing);
        PipelineIsDirect(rows, tenantId, batch, existing);
      }
    } else {
      RenamingShows(ops, tenantId);
    }
  }

  // ------------------------------------------------------------ a payload that renames

  /** A renaming upload on the empty store: the row is written under the id in its payload,
      and the address of the operation stays empty. */
  lemma RenamingUploadMovesTheRow(tenantId: string, typ: string, id: string, data: Fields)
    requires "id" in data && Render(data["id"]) != id
    ensures var put := Timed(Op(PUT, typ, id, data), 0, 0);
            var written := Pipeline(map[], tenantId, [put], []);
            && DurableKey(tenantId, typ, id) !in written
            && DurableKey(tenantId, typ, Render(data["id"])) in written
            && DurableKey(tenantId, typ, id) in Direct(map[], tenantId, [put])
  {
    var put := Timed(Op(PUT, typ, id, data), 0, 0);
    RunOfOne(map[], put, Directly(tenantId));
    RunOfOne(map[], put, Applying(map[]));
    var after := Replayed([put], []);
    assert after == ApplyOp(map[], put, map[]);
    assert KeyOf(put.op) in after && after[KeyOf(put.op)].id == data["id"];
    var u := UpsertFor(put, after).value;
    CollectedOne(put, (t: Timed) => UpsertFor(t, after));
    CollectedOne(put, (t: Timed) => DeleteFor(t, after));
    assert Upserts([put], after) == [u] && Deletes([put], after) == [];
    assert [u][..0] == [];
    assert Upserted(map[], tenantId, [u][..0]) == map[];
    assert Pipeline(map[], tenantId, [put], []).Keys == {DurableKey(tenantId, typ, Render(data["id"]))};
    SameTypeKeys(tenantId, typ, id, Render(data["id"]));
  }

  lemma CollectedOne<T, U>(x: T, f: T -> Option<U>)
    ensures Collected([x], f) == if f(x).Some? then [f(x).value] else []
  {
    assert [x][..0] == [];
    assert Collected([x][..0], f) == [];
  }

  // ------------------------------------------------------------ two rows that swap places

  predicate Swaps(batch: Batch, typ: string, x: string, y: string, stamp: Json) {
    && |batch| == 4 && x != y
    && batch[0].op == Op(DELETE, typ, x, map[])
    && batch[1].op == Op(PUT, typ, x, map["id" := Text(y), "updatedAt" := stamp])
    && batch[2].op == Op(DELETE, typ, y, map[])
    && batch[3].op == Op(PUT, typ, y, map["id" := Text(x), "updatedAt" := stamp])
  }

  lemma RunOfFour<S, T>(s: S, xs: seq<T>, step: (S, T) -> S)
    requires |xs| == 4
    ensures Run(s, xs, step) == step(step(step(step(s, xs[0]), xs[1]), xs[2]), xs[3])
  {
    assert xs == [xs[0]] + [xs[1]] + [xs[2]] + [xs[3]];
    RunOfOne(s, xs[0], step);
    RunConcatenates(s, [xs[0]], [xs[1]], step);
    RunOfOne(Run(s, [xs[0]], step), xs[1], step);
    RunConcatenates(s, [xs[0]] + [xs[1]], [xs[2]], step);
    RunOfOne(Run(s, [xs[0]] + [xs[1]], step), xs[2], step);
    RunConcatenates(s, [xs[0]] + [xs[1]] + [xs[2]], [xs[3]], step);
    RunOfOne(Run(s, [xs[0]] + [xs[1]] + [xs[2]], step), xs[3], step);
  }

  lemma BareRow(id: string, other: string, first: int, stamp: Json)
    ensures Spread(Row(Text(id), Clock(first), map[]), map["id" := Text(other), "updatedAt" := stamp])
            == Row(Text(other), Client(stamp), map[])
  {
    assert map["id" := Text(other), "updatedAt" := stamp] - {"id", "updatedAt"} == map[];
  }

  lemma SwappedMap(m: map<string, Row>, batch: Batch, typ: string, x: string, y: string, stamp: Json)
    requires Swaps(batch, typ, x, y, stamp)
    ensures Get(Replay(m, batch, map[]), MapKey(typ, x)) == Some(Row(Text(y), Client(stamp), map[]))
    ensures Get(Replay(m, batch, map[]), MapKey(typ, y)) == Some(Row(Text(x), Client(stamp), map[]))
  {
    RunOfFour(m, batch, Applying(map[]));
    SameTypeMapKeys(typ, x, y);
    BareRow(x, y, batch[1].first, stamp);
    BareRow(y, x, batch[3].first, stamp);
  }

  lemma SwappedRows(rows: Rows, tenantId: string, batch: Batch, typ: string, x: string, y: string, stamp: Json)
    requires Swaps(batch, typ, x, y, stamp)
    ensures Get(Direct(rows, tenantId, batch), DurableKey(tenantId, typ, x))
            == Some(Stored(tenantId, Snapshot(typ, Text(x), map[], Client(stamp))))
    ensures Get(Direct(rows, tenantId, batch), DurableKey(tenantId, typ, y))
            == Some(Stored(tenantId, Snapshot(typ, Text(y), map[], Client(stamp))))
  {
    RunOfFour(rows, batch, Directly(tenantId));
    SameTypeKeys(tenantId, typ, x, y);
    BareRow(x, y, batch[1].first, stamp);
    BareRow(y, x, batch[3].first, stamp);
  }

  lemma SwappedUpserts(m: map<string, Row>, batch: Batch, typ: string, x: string, y: string, stamp: Json)
    requires Swaps(batch, typ, x, y, stamp)
    ensures var after := Replay(m, batch, map[]);
            && (forall u :: u in Upserts(batch, after) <==>
                  u in {Snapshot(typ, Text(x), map[], Client(stamp)), Snapshot(typ, Text(y), map[], Client(stamp))})
            && Deletes(batch, after) == []
  {
    var after := Replay(m, batch, map[]);
    SwappedMap(m, batch, typ, x, y, stamp);
    MutationIsDerived(batch, after, batch[1]);
    MutationIsDerived(batch, after, batch[3]);
    forall u | u in Upserts(batch, after)
      ensures u in {Snapshot(typ, Text(x), map[], Client(stamp)), Snapshot(typ, Text(y), map[], Client(stamp))}
    {
      var o := UpsertComesFrom(batch, after, u);
    }
    if Deletes(batch, after) != [] {
      var o := DeleteComesFrom(batch, after, Deletes(batch, after)[0]);
    }
  }

  /** Two rows deleted and put back under each other's id with one stamp of the client's own:
      both payloads rename, and yet the upload is direct application on every store. */
  lemma SwappingUploadIsDirect(rows: Rows, tenantId: string, existing: seq<Snapshot>, batch: Batch,
                               typ: string, x: string, y: string, stamp: Json)
    requires Swaps(batch, typ, x, y, stamp)
    ensures !KeepsIds(batch)
    ensures Pipeline(rows, tenantId, batch, existing) == Direct(rows, tenantId, batch)
  {
    SameTypeMapKeys(typ, x, y);
    assert LastId(batch, KeyOf(batch[3].op)) == Some(Text(x));
    assert !KeepsIds(batch);
    var p, d := Pipeline(rows, tenantId, batch, existing), Direct(rows, tenantId, batch);
    forall k ensures Get(p, k) == Get(d, k) {
      SwapAt(rows, tenantId, existing, batch, typ, x, y, stamp, k);
    }
    SameLookups(p, d);
  }

  lemma SwappedWritten(rows: Rows, tenantId: string, existing: seq<Snapshot>, batch: Batch,
                       typ: string, x: string, y: string, stamp: Json)
    requires Swaps(batch, typ, x, y, stamp)
    ensures Get(Pipeline(rows, tenantId, batch, existing), DurableKey(tenantId, typ, x))
            == Some(Stored(tenantId, Snapshot(typ, Text(x), map[], Client(stamp))))
    ensures Get(Pipeline(rows, tenantId, batch, existing), DurableKey(tenantId, typ, y))
            == Some(Stored(tenantId, Snapshot(typ, Text(y), map[], Client(stamp))))
  {
    var ups := Upserts(batch, Replayed(batch, existing));
    SwappedUpserts(Hydrated(existing), batch, typ, x, y, stamp);
    SameTypeKeys(tenantId, typ, x, y);
    OnlyUpsertIsWritten(rows, tenantId, ups, Snapshot(typ, Text(x), map[], Client(stamp)));
    OnlyUpsertIsWritten(rows, tenantId, ups, Snapshot(typ, Text(y), map[], Client(stamp)));
  }

  lemma SwapWritesNothingElse(rows: Rows, tenantId: string, existing: seq<Snapshot>, batch: Batch,
                              typ: string, x: string, y: string, stamp: Json, k: string)
    requires Swaps(batch, typ, x, y, stamp)
    requires k != DurableKey(tenantId, typ, x) && k != DurableKey(tenantId, typ, y)
    ensures Get(Pipeline(rows, tenantId, batch, existing), k) == Get(rows, k)
  {
    var ups := Upserts(batch, Replayed(batch, existing));
    SwappedUpserts(Hydrated(existing), batch, typ, x, y, stamp);
    forall u | u in ups ensures DurableKey(tenantId, u.typ, Render(u.id)) != k {
      assert u.id == Text(x) || u.id == Text(y);
    }
    UpsertedAt(rows, tenantId, ups, k);
  }

  lemma SwapAddressesNothingElse(rows: Rows, tenantId: string, batch: Batch,
                                 typ: string, x: string, y: string, stamp: Json, k: string)
    requires Swaps(batch, typ, x, y, stamp)
    requires k != DurableKey(tenantId, typ, x) && k != DurableKey(tenantId, typ, y)
    ensures Get(Direct(rows, tenantId, batch), k) == Get(rows, k)
  {
    forall t | t in batch ensures AddressOf(tenantId, t.op) != k {
      var i :| 0 <= i < 4 && batch[i] == t;
      assert i == 0 || i == 1 || i == 2 || i == 3;
    }
    DirectLeavesTheRestAlone(rows, tenantId, batch, k);
  }

  lemma SwapAt(rows: Rows, tenantId: string, existing: seq<Snapshot>, batch: Batch,
               typ: string, x: string, y: string, stamp: Json, k: string)
    requires Swaps(batch, typ, x, y, stamp)
    ensures Get(Pipeline(rows, tenantId, batch, existing), k) == Get(Direct(rows, tenantId, batch), k)
  {
    if k == DurableKey(tenantId, typ, x) || k == DurableKey(tenantId, typ, y) {
      SwappedWritten(rows, tenantId, existing, batch, typ, x, y, stamp);
      SwappedRows(rows, tenantId, batch, typ, x, y, stamp);
    } else {
      SwapWritesNothingElse(rows, tenantId, existing, batch, typ, x, y, stamp, k);
      SwapAddressesNothingElse(rows, tenantId, batch, typ, x, y, stamp, k);
    }
  }

  // ------------------------------------------------------------ types with a colon

  predicate Collide(batch: Batch, a: string, b: string, c: string) {
    && |batch| == 2
    && batch[0].op == Op(PUT, a, b + ":" + c, map[])
    && batch[1].op == Op(PUT, a + ":" + b, c, map[])
  }

  lemma CollidingKeys(tenantId: string, a: string, b: string, c: string)
    ensures MapKey(a, b + ":" + c) == MapKey(a + ":" + b, c)
    ensures |DurableKey(tenantId, a + ":" + b, b + ":" + c)| > |DurableKey(tenantId, a, b + ":" + c)|
    ensures DurableKey(tenantId, a, b + ":" + c) == DurableKey(tenantId, a + ":" + b, c)
  {
    assert a + ":" + (b + ":" + c) == a + ":" + b + ":" + c;
  }

  lemma CollidingMap(batch: Batch, a: string, b: string, c: string)
    requires Collide(batch, a, b, c)
    ensures var r := Get(Replay(map[], batch, map[]), MapKey(a, b + ":" + c)); r.Some? && r.value.id == Text(b + ":" + c)
    ensures KeepsIds(batch)
  {
    CollidingKeys("", a, b, c);
    assert batch == [batch[0]] + [batch[1]];
    RunOfOne(map[], batch[0], Applying(map[]));
    RunConcatenates(map[], [batch[0]], [batch[1]], Applying(map[]));
    RunOfOne(Run(map[], [batch[0]], Applying(map[])), batch[1], Applying(map[]));
    var key := MapKey(a, b + ":" + c);
    assert batch[..1][..0] == [] && batch[..2][..1] == batch[..1];
    assert TrailOf(batch[..1], key, "id") == Untouched;
    assert TrailOf(batch, key, "id") == Untouched;
  }

  /** The row both operations changed is written under a third key. */
  lemma ThirdKeyIsWritten(tenantId: string, batch: Batch, a: string, b: string, c: string)
    requires Collide(batch, a, b, c)
    ensures DurableKey(tenantId, a + ":" + b, b + ":" + c) in Pipeline(map[], tenantId, batch, [])
  {
    assert Hydrated([]) == map[];
    var after := Replayed(batch, []);
    CollidingKeys(tenantId, a, b, c);
    CollidingMap(batch, a, b, c);
    MutationIsDerived(batch, after, batch[1]);
    if Deletes(batch, after) != [] {
      var o := DeleteComesFrom(batch, after, Deletes(batch, after)[0]);
    }
    KeyIsWritten(map[], tenantId, Upserts(batch, after), UpsertFor(batch[1], after).value);
  }

  /** The second of two colliding operations changes the row of the first, and the upload
      writes that row a second time under a third key: with nothing renamed, it is not direct
      application. */
  lemma CollidingUploadIsNotDirect(tenantId: string, batch: Batch, a: string, b: string, c: string)
    requires Collide(batch, a, b, c)
    ensures KeepsIds(batch) && !KeysTellApart(batch)
    ensures Pipeline(map[], tenantId, batch, []) != Direct(map[], tenantId, batch)
  {
    CollidingKeys(tenantId, a, b, c);
    CollidingMap(batch, a, b, c);
    assert |batch[0].op.typ| < |batch[1].op.typ|;
    ThirdKeyIsWritten(tenantId, batch, a, b, c);
    DirectLeavesTheRestAlone(map[], tenantId, batch, DurableKey(tenantId, a + ":" + b, b + ":" + c));
  }

  /** A store and a clock an upload over these types may meet, and what it loads. */
  ghost predicate FitsTypes(batch: Batch, rows: Rows, tenantId: string, existing: seq<Snapshot>, types: set<string>) {
    && WellFormedBatch(batch) && KeepsIds(batch) && ClockRunsForward(batch) && TypesIn(batch, types)
    && WellKept(rows) && RowsIn(rows, tenantId, types) && Loads(existing, rows, tenantId, Types(batch))
  }

  /** Over a set of types, uploads without renaming payloads are direct application, on every
      store and at every time, exactly when no type, with its colon, begins another. */
  lemma UploadsAreDirectExactlyWhenSeparate(tenantId: string, types: set<string>)
    requires Plain(tenantId) && "" !in types
    ensures Separate(types) <==>
            forall rows, existing, batch :: FitsTypes(batch, rows, tenantId, existing, types) ==>
              Pipeline(rows, tenantId, batch, existing) == Direct(rows, tenantId, batch)
  {
    if Separate(types) {
      forall rows, existing, batch | FitsTypes(batch, rows, tenantId, existing, types)
        ensures Pipeline(rows, tenantId, batch, existing) == Direct(rows, tenantId, batch)
      {
        SeparateKeysAreUnambiguous(rows, tenantId, batch, types);
        KeptIdsAreOwn(rows, tenantId, batch, existing);
        PipelineIsDirect(rows, tenantId, batch, existing);
      }
    } else {
      var a, b :| a in types && b in types && a + ":" <= b + ":" && a != b;
      CollidingTypesBreakAnUpload(tenantId, types, a, b);
    }
  }

  lemma SomeCollidingBatch(a: string, r: string) returns (batch: Batch)
    requires a != ""
    ensures Collide(batch, a, r, "x") && ClockRunsForward(batch) && WellFormedBatch(batch)
  {
    batch := [Timed(Op(PUT, a, r + ":" + "x", map[]), 0, 0), Timed(Op(PUT, a + ":" + r, "x", map[]), 0, 0)];
    assert |batch[0].op.id| > 0 && |batch[1].op.typ| > 0;
  }

  lemma CollidingTypesBreakAnUpload(tenantId: string, types: set<string>, a: string, b: string)
    requires a in types && b in types && a + ":" <= b + ":" && a != b && "" !in types
    ensures exists batch :: FitsTypes(batch, map[], tenantId, [], types)
                            && Pipeline(map[], tenantId, batch, []) != Direct(map[], tenantId, batch)
  {
    var r := BehindColon(a, b);
    var batch := SomeCollidingBatch(a, r);
    CollidingUploadIsNotDirect(tenantId, batch, a, r, "x");
    assert FitsTypes(batch, map[], tenantId, [], types);
  }

  lemma BehindColon(a: string, b: string) returns (r: string)
    requires a + ":" <= b + ":" && a != b
    ensures b == a + ":" + r
  {
    var s := b + ":";
    assert a == s[..|a|] && s[|a|] == ':';
    assert |a| < |b|;
    r := b[|a| + 1..];
  }
}
