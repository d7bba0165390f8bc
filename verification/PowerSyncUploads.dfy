/** Whole runs of uploads: from the offline client's queue to the durable rows, over any
    cutting into batches, and what the server's clock has to do with it. */
module PowerSyncUploads {
  import opened Lists
  import opened PowerSyncHistory
  import opened PowerSyncReplay
  import opened PowerSyncStore
  import opened PowerSyncRefinement
  import opened PowerSyncRenaming

  // ------------------------------------------------------------ runs of uploads

  /** The operations that arrive: those of the uploads that are not refused, in order. */
  function Arrived(batches: seq<Batch>): Batch {
    if batches == [] then []
    else
      var n := |batches| - 1;
      if WellFormedBatch(batches[n]) then Arrived(batches[..n]) + batches[n] else Arrived(batches[..n])
  }

  ghost predicate UploadRun(states: seq<Rows>, tenantId: string, batches: seq<Batch>) {
    |states| == |batches| + 1 &&
    forall i :: 0 <= i < |batches| ==> UploadStep(states[i], tenantId, batches[i], states[i + 1])
  }

  /** A run on a well-kept store without renaming payloads, under keys that say what they mean
      and a clock that does not go back within a batch. */
  ghost predicate SafeRun(states: seq<Rows>, tenantId: string, batches: seq<Batch>) {
    && UploadRun(states, tenantId, batches)
    && WellKept(states[0]) && Unambiguous(states[0], tenantId, Arrived(batches))
    && forall i :: 0 <= i < |batches| && WellFormedBatch(batches[i]) ==> KeepsIds(batches[i]) && ClockRunsForward(batches[i])
  }

  lemma FrontIsUnambiguous(rows: Rows, tenantId: string, a: Batch, b: Batch)
    requires Unambiguous(rows, tenantId, a + b)
    ensures Unambiguous(rows, tenantId, a)
  {
    assert forall i :: 0 <= i < |a| ==> a[i] == (a + b)[i];
  }

  lemma UploadRunParts(states: seq<Rows>, tenantId: string, batches: seq<Batch>)
    requires UploadRun(states, tenantId, batches) && batches != []
    ensures var n := |batches| - 1;
            UploadRun(states[..n + 1], tenantId, batches[..n]) && UploadStep(states[n], tenantId, batches[n], states[n + 1])
  {
  }

  lemma SafeRunParts(states: seq<Rows>, tenantId: string, batches: seq<Batch>)
    requires SafeRun(states, tenantId, batches) && batches != []
    ensures var n := |batches| - 1;
            && SafeRun(states[..n + 1], tenantId, batches[..n])
            && (WellFormedBatch(batches[n]) ==>
                  && Unambiguous(states[0], tenantId, Arrived(batches[..n]) + batches[n])
                  && KeepsIds(batches[n]) && ClockRunsForward(batches[n]))
  {
    var n := |batches| - 1;
    UploadRunParts(states, tenantId, batches);
    if WellFormedBatch(batches[n]) {
      FrontIsUnambiguous(states[0], tenantId, Arrived(batches[..n]), batches[n]);
    }
  }

  lemma NextUploadIsDirect(rows: Rows, tenantId: string, before: Batch, batch: Batch, now: Rows, next: Rows)
    requires now == Direct(rows, tenantId, before) && WellKept(now) && UploadStep(now, tenantId, batch, next)
    requires WellFormedBatch(batch) ==>
               Unambiguous(rows, tenantId, before + batch) && KeepsIds(batch) && ClockRunsForward(batch)
    ensures next == Direct(rows, tenantId, if WellFormedBatch(batch) then before + batch else before) && WellKept(next)
  {
    if WellFormedBatch(batch) {
      DirectStaysUnambiguous(rows, tenantId, before, batch);
      SafeUploadIsDirect(now, tenantId, batch, next);
      RunConcatenates(rows, before, batch, Directly(tenantId));
    }
  }

  /** However the client's operations are cut into uploads, the durable rows end up as if
      every operation that arrives had been applied directly, in order. */
  lemma {:induction false} UploadRunIsDirect(states: seq<Rows>, tenantId: string, batches: seq<Batch>)
    requires SafeRun(states, tenantId, batches)
    ensures states[|batches|] == Direct(states[0], tenantId, Arrived(batches))
    ensures WellKept(states[|batches|])
    decreases |batches|
  {
    if batches != [] {
      var n := |batches| - 1;
      SafeRunParts(states, tenantId, batches);
      UploadRunParts(states, tenantId, batches);
      UploadRunIsDirect(states[..n + 1], tenantId, batches[..n]);
      NextUploadIsDirect(states[0], tenantId, Arrived(batches[..n]), batches[n], states[n], states[n + 1]);
    }
  }

  lemma SafeUploadIsDirect(rows: Rows, tenantId: string, batch: Batch, next: Rows)
    requires UploadStep(rows, tenantId, batch, next) && WellFormedBatch(batch)
    requires WellKept(rows) && Unambiguous(rows, tenantId, batch) && KeepsIds(batch) && ClockRunsForward(batch)
    ensures next == Direct(rows, tenantId, batch) && WellKept(next)
  {
    var existing :| Loads(existing, rows, tenantId, Types(batch)) && next == Pipeline(rows, tenantId, batch, existing);
    KeptIdsAreOwn(rows, tenantId, batch, existing);
    PipelineIsDirect(rows, tenantId, batch, existing);
    DirectKeepsRowsWell(rows, tenantId, batch);
  }

  /** The flushes the endpoint does not refuse, one after the other. */
  function Accepted(flushed: seq<seq<Op>>): seq<Op> {
    if flushed == [] then []
    else
      var n := |flushed| - 1;
      if WellFormedOps(flushed[n]) then Accepted(flushed[..n]) + flushed[n] else Accepted(flushed[..n])
  }

  lemma {:induction false} ArrivedAreAccepted(batches: seq<Batch>, flushed: seq<seq<Op>>)
    requires |batches| == |flushed| && forall i :: 0 <= i < |batches| ==> OpsOf(batches[i]) == flushed[i]
    ensures OpsOf(Arrived(batches)) == Accepted(flushed)
  {
    if batches != [] {
      var n := |batches| - 1;
      ArrivedAreAccepted(batches[..n], flushed[..n]);
      assert OpsOf(Arrived(batches[..n]) + batches[n]) == OpsOf(Arrived(batches[..n])) + OpsOf(batches[n]);
    }
  }

  lemma {:induction false} AllAcceptedExactlyWhen(flushed: seq<seq<Op>>)
    ensures |Accepted(flushed)| <= |Flatten(flushed)|
    ensures Accepted(flushed) == Flatten(flushed) <==> forall i :: 0 <= i < |flushed| ==> WellFormedOps(flushed[i])
  {
    if flushed != [] {
      var n := |flushed| - 1;
      AllAcceptedExactlyWhen(flushed[..n]);
      assert forall i :: 0 <= i < n ==> flushed[..n][i] == flushed[i];
      if WellFormedOps(flushed[n]) {
        SameEnd(Accepted(flushed[..n]), Flatten(flushed[..n]), flushed[n]);
      }
    }
  }

  lemma SameEnd<T>(a: seq<T>, b: seq<T>, end: seq<T>)
    ensures a + end == b + end <==> a == b
  {
    if a + end == b + end {
      assert |a| == |b|;
      assert a == (a + end)[..|a|] && b == (b + end)[..|b|];
    }
  }

  /** From the offline queue to the durable store: however queueing and flushing interleave,
      once every flush has been uploaded the rows are those of the operations of all flushes
      that are not refused, applied directly and in the order they were queued. All queued
      operations but the pending ones arrive exactly when no flush is too large or malformed:
      a refused one has left the queue already. */
  lemma QueuedOperationsReachTheStore(actions: seq<Action>, states: seq<Rows>, tenantId: string, batches: seq<Batch>)
    requires var flushed := RunClient(actions).flushed;
             |batches| == |flushed| && forall i :: 0 <= i < |batches| ==> OpsOf(batches[i]) == flushed[i]
    requires SafeRun(states, tenantId, batches)
    ensures var client := RunClient(actions);
            && states[|batches|] == Direct(states[0], tenantId, Arrived(batches))
            && OpsOf(Arrived(batches)) == Accepted(client.flushed)
            && (OpsOf(Arrived(batches)) + client.pending == QueuedOps(actions)
                <==> forall i :: 0 <= i < |client.flushed| ==> WellFormedOps(client.flushed[i]))
  {
    var client := RunClient(actions);
    UploadRunIsDirect(states, tenantId, batches);
    ArrivedAreAccepted(batches, client.flushed);
    FlushedAndPendingAreQueued(actions);
    AllAcceptedExactlyWhen(client.flushed);
    SameEnd(Accepted(client.flushed), Flatten(client.flushed), client.pending);
  }

  /** A row no operation addresses survives every run of uploads. */
  lemma UnaddressedRowsSurvive(states: seq<Rows>, tenantId: string, batches: seq<Batch>, k: string)
    requires SafeRun(states, tenantId, batches)
    requires forall t :: t in Arrived(batches) ==> AddressOf(tenantId, t.op) != k
    ensures Get(states[|batches|], k) == Get(states[0], k)
  {
    UploadRunIsDirect(states, tenantId, batches);
    DirectLeavesTheRestAlone(states[0], tenantId, Arrived(batches), k);
  }

  /** So do all rows of other tenants, whatever is uploaded, renaming payloads and colliding
      types included, as long as neither tenant contains a separator. */
  lemma {:induction false} OtherTenantsAreIsolated(states: seq<Rows>, tenantId: string, batches: seq<Batch>,
                                                   owner: string, k: string)
    requires UploadRun(states, tenantId, batches)
    requires Plain(tenantId) && Plain(owner) && owner != tenantId
    ensures Get(states[|batches|], owner + ":" + k) == Get(states[0], owner + ":" + k)
    decreases |batches|
  {
    if batches != [] {
      var n := |batches| - 1;
      OtherTenantsAreIsolated(states[..n + 1], tenantId, batches[..n], owner, k);
      assert UploadStep(states[n], tenantId, batches[n], states[n + 1]);
      UploadKeepsOthers(states[n], tenantId, batches[n], states[n + 1], owner, k);
    }
  }

  lemma UploadKeepsOthers(rows: Rows, tenantId: string, batch: Batch, next: Rows, owner: string, k: string)
    requires UploadStep(rows, tenantId, batch, next)
    requires Plain(tenantId) && Plain(owner) && owner != tenantId
    ensures Get(next, owner + ":" + k) == Get(rows, owner + ":" + k)
  {
    if WellFormedBatch(batch) {
      var existing :| Loads(existing, rows, tenantId, Types(batch)) && next == Pipeline(rows, tenantId, batch, existing);
      PipelineKeepsOthers(rows, tenantId, batch, existing, owner, k);
    }
  }

  /** Calls of the endpoint with tenants told apart: who calls, and what is uploaded. */
  datatype Call = Call(tenantId: Option<string>, batch: Batch)

  ghost predicate CallRun(states: seq<Rows>, calls: seq<Call>) {
    |states| == |calls| + 1
    && forall i :: 0 <= i < |calls| ==> CallStep(states[i], calls[i].tenantId, calls[i].batch, states[i + 1])
  }

  /** Over every run of calls by anyone else, a tenant's rows are left alone. */
  lemma {:induction false} CallsLeaveOtherTenantsAlone(states: seq<Rows>, calls: seq<Call>, owner: string, k: string)
    requires CallRun(states, calls) && Plain(owner)
    requires forall i :: 0 <= i < |calls| && calls[i].tenantId.Some? ==>
               calls[i].tenantId.value != owner && Plain(calls[i].tenantId.value)
    ensures Get(states[|calls|], owner + ":" + k) == Get(states[0], owner + ":" + k)
    decreases |calls|
  {
    if calls != [] {
      var n := |calls| - 1;
      var call := calls[n];
      CallsLeaveOtherTenantsAlone(states[..n + 1], calls[..n], owner, k);
      assert CallStep(states[n], call.tenantId, call.batch, states[n + 1]);
      if call.tenantId.Some? && call.tenantId.value != "" {
        UploadKeepsOthers(states[n], call.tenantId.value, call.batch, states[n + 1], owner, k);
      }
    }
  }

  lemma PipelineKeepsOthers(rows: Rows, tenantId: string, batch: Batch, existing: seq<Snapshot>, owner: string, k: string)
    requires Plain(tenantId) && Plain(owner) && owner != tenantId
    ensures Get(Pipeline(rows, tenantId, batch, existing), owner + ":" + k) == Get(rows, owner + ":" + k)
  {
    var after := Replayed(batch, existing);
    var ups, dels := Upserts(batch, after), Deletes(batch, after);
    forall typ, id ensures DurableKey(tenantId, typ, id) != owner + ":" + k {
      if DurableKey(tenantId, typ, id) == owner + ":" + k {
        TenantIsUnique(tenantId, MapKey(typ, id), owner, k);
      }
    }
    UpsertedAt(rows, tenantId, ups, owner + ":" + k);
    DeletedAt(Upserted(rows, tenantId, ups), tenantId, dels, owner + ":" + k);
  }

  // ------------------------------------------------------------ the clock over runs of uploads

  /** No stored row carries a stamp later than `now`. */
  predicate StoredUpTo(rows: Rows, now: int) {
    forall k :: k in rows ==> SnapshotUpTo(rows[k].row, now)
  }

  predicate SnapshotUpTo(s: Snapshot, now: int) {
    s.updatedAt.Clock? ==> s.updatedAt.at <= now
  }

  lemma LoadedUpTo(rows: Rows, tenantId: string, types: set<string>, existing: seq<Snapshot>, now: int)
    requires StoredUpTo(rows, now) && Loads(existing, rows, tenantId, types)
    ensures NoneAhead(Hydrated(existing), now)
  {
    forall key ensures StampedBy(Get(Hydrated(existing), key), now) {
      HydratedExactly(existing, key);
      if key in Hydrated(existing) {
        var s :| s in existing && MapKey(s.typ, Render(s.id)) == key && Hydrated(existing)[key] == RowOf(s);
        var k :| k in rows && rows[k] == Stored(tenantId, s);
        assert SnapshotUpTo(rows[k].row, now);
      }
    }
  }

  lemma WrittenUpTo(rows: Rows, tenantId: string, batch: Batch, existing: seq<Snapshot>, now: int)
    requires StoredUpTo(rows, now) && NoneAhead(Replayed(batch, existing), now)
    ensures StoredUpTo(Pipeline(rows, tenantId, batch, existing), now)
  {
    var after, next := Replayed(batch, existing), Pipeline(rows, tenantId, batch, existing);
    var ups := Upserts(batch, after);
    forall k | k in next ensures SnapshotUpTo(next[k].row, now) {
      DeletedAt(Upserted(rows, tenantId, ups), tenantId, Deletes(batch, after), k);
      UpsertedAt(rows, tenantId, ups, k);
      if exists u :: u in ups && DurableKey(tenantId, u.typ, Render(u.id)) == k {
        var u :| u in ups && Get(Upserted(rows, tenantId, ups), k) == Some(Stored(tenantId, u));
        var t := UpsertComesFrom(batch, after, u);
        assert StampedBy(Get(after, KeyOf(t.op)), now);
      } else {
        assert next[k] == rows[k];
      }
    }
  }

  lemma UploadDiscardsNothing(rows: Rows, tenantId: string, batch: Batch, existing: seq<Snapshot>, start: int)
    requires Loads(existing, rows, tenantId, Types(batch))
    requires ClockRunsForward(batch) && StoredUpTo(rows, start)
    requires forall i :: 0 <= i < |batch| ==> start <= batch[i].first
    ensures NoneDiscarded(Hydrated(existing), batch, map[])
    ensures StoredUpTo(Pipeline(rows, tenantId, batch, existing), Latest(batch, start))
  {
    LoadedUpTo(rows, tenantId, Types(batch), existing, start);
    NothingIsDiscarded(Hydrated(existing), batch, map[], start);
    assert start <= Latest(batch, start) by {
      assert batch != [] ==> start <= batch[|batch| - 1].first <= batch[|batch| - 1].second;
    }
    WrittenUpTo(rows, tenantId, batch, existing, Latest(batch, start));
  }

  /** The clock does not go back, from one operation to the next and from one upload to the
      next, and starts no earlier than `start`. */
  predicate RunsForwardFrom(batch: Batch, start: int) {
    ClockRunsForward(batch) && forall i :: 0 <= i < |batch| ==> start <= batch[i].first
  }

  lemma ForwardParts(a: Batch, b: Batch, start: int)
    requires RunsForwardFrom(a + b, start)
    ensures RunsForwardFrom(a, start) && RunsForwardFrom(b, Latest(a, start))
    ensures Latest(b, Latest(a, start)) == Latest(a + b, start)
  {
    var all := a + b;
    assert forall i :: 0 <= i < |a| ==> a[i] == all[i];
    assert forall i :: 0 <= i < |b| ==> b[i] == all[|a| + i];
  }

  lemma StepStaysBehind(rows: Rows, tenantId: string, batch: Batch, next: Rows, start: int)
    requires UploadStep(rows, tenantId, batch, next) && StoredUpTo(rows, start)
    requires WellFormedBatch(batch) ==> RunsForwardFrom(batch, start)
    ensures StoredUpTo(next, if WellFormedBatch(batch) then Latest(batch, start) else start)
  {
    if WellFormedBatch(batch) {
      var existing :| Loads(existing, rows, tenantId, Types(batch)) && next == Pipeline(rows, tenantId, batch, existing);
      UploadDiscardsNothing(rows, tenantId, batch, existing, start);
    }
  }

  lemma {:induction false} StoredStaysBehind(states: seq<Rows>, tenantId: string, batches: seq<Batch>, start: int)
    requires UploadRun(states, tenantId, batches) && RunsForwardFrom(Arrived(batches), start) && StoredUpTo(states[0], start)
    ensures StoredUpTo(states[|batches|], Latest(Arrived(batches), start))
    decreases |batches|
  {
    if batches != [] {
      var n := |batches| - 1;
      var front := states[..n + 1];
      UploadRunParts(states, tenantId, batches);
      assert front[n] == states[n] && front[0] == states[0];
      LastForwardPart(Arrived(batches[..n]), batches[n], start);
      StoredStaysBehind(front, tenantId, batches[..n], start);
      NextStaysBehind(states[n], tenantId, Arrived(batches[..n]), batches[n], states[n + 1], start);
    }
  }

  lemma NextStaysBehind(rows: Rows, tenantId: string, before: Batch, batch: Batch, next: Rows, start: int)
    requires UploadStep(rows, tenantId, batch, next) && StoredUpTo(rows, Latest(before, start))
    requires RunsForwardFrom(if WellFormedBatch(batch) then before + batch else before, start)
    ensures StoredUpTo(next, Latest(if WellFormedBatch(batch) then before + batch else before, start))
  {
    LastForwardPart(before, batch, start);
    StepStaysBehind(rows, tenantId, batch, next, Latest(before, start));
  }

  lemma LastForwardPart(before: Batch, batch: Batch, start: int)
    requires RunsForwardFrom(if WellFormedBatch(batch) then before + batch else before, start)
    ensures RunsForwardFrom(before, start)
    ensures WellFormedBatch(batch) ==>
              RunsForwardFrom(batch, Latest(before, start))
              && Latest(batch, Latest(before, start)) == Latest(before + batch, start)
  {
    if WellFormedBatch(batch) {
      ForwardParts(before, batch, start);
    }
  }

  lemma {:induction false} ArrivedFront(batches: seq<Batch>, i: nat) returns (rest: Batch)
    requires i <= |batches|
    ensures Arrived(batches) == Arrived(batches[..i]) + rest
  {
    if i == |batches| {
      rest := [];
      assert batches[..i] == batches;
    } else {
      var n := |batches| - 1;
      rest := ArrivedFront(batches[..n], i);
      assert batches[..n][..i] == batches[..i];
      if WellFormedBatch(batches[n]) {
        assert Arrived(batches[..i]) + (rest + batches[n]) == (Arrived(batches[..i]) + rest) + batches[n];
        rest := rest + batches[n];
      }
    }
  }

  /** As long as the server's clock does not go back and no row starts out ahead of it, no
      upload of any run discards anything: the resolver's branch for stale patches is dead. */
  lemma NoUploadDiscardsAnything(states: seq<Rows>, tenantId: string, batches: seq<Batch>, start: int,
                                 i: nat, existing: seq<Snapshot>)
    requires UploadRun(states, tenantId, batches) && RunsForwardFrom(Arrived(batches), start) && StoredUpTo(states[0], start)
    requires i < |batches| && WellFormedBatch(batches[i]) && Loads(existing, states[i], tenantId, Types(batches[i]))
    ensures NoneDiscarded(Hydrated(existing), batches[i], map[])
  {
    var rest := ArrivedFront(batches, i + 1);
    ForwardParts(Arrived(batches[..i + 1]), rest, start);
    assert batches[..i + 1][..i] == batches[..i];
    ForwardParts(Arrived(batches[..i]), batches[i], start);
    StoredStaysBehind(states[..i + 1], tenantId, batches[..i], start);
    UploadDiscardsNothing(states[i], tenantId, batches[i], existing, Latest(Arrived(batches[..i]), start));
  }

  /** The value of a field at a key of the store. */
  function StoredField(rows: Rows, k: string, name: string): Option<Json> {
    if k in rows then Get(rows[k].row.data, name) else None
  }

  /** The operations on one row. */
  function OnKey(batch: Batch, key: string): Batch {
    Kept(batch, (t: Timed) => KeyOf(t.op) == key)
  }

  lemma OnKeyOneMore(batch: Batch, t: Timed, key: string)
    ensures OnKey(batch + [t], key) == if KeyOf(t.op) == key then OnKey(batch, key) + [t] else OnKey(batch, key)
  {
    assert OnKey(batch, key) + [] == OnKey(batch, key);
    KeptConcat(batch, [t], (t: Timed) => KeyOf(t.op) == key);
  }

  lemma RunOneMore(rows: Rows, tenantId: string, batch: Batch, t: Timed)
    ensures Direct(rows, tenantId, batch + [t]) == DirectOp(Direct(rows, tenantId, batch), tenantId, t)
  {
    assert (batch + [t])[..|batch|] == batch;
  }

  lemma TrailOneMore(batch: Batch, t: Timed, key: string, name: string)
    ensures TrailOf(batch + [t], key, name) == Next(TrailOf(batch, key, name), t.op, key, name)
  {
    assert (batch + [t])[..|batch|] == batch;
  }

  lemma OneOpIsLocal(a: Rows, b: Rows, tenantId: string, t: Timed, k: string)
    requires Get(a, k) == Get(b, k)
    ensures Get(DirectOp(a, tenantId, t), k) == Get(DirectOp(b, tenantId, t), k)
    ensures AddressOf(tenantId, t.op) != k ==> Get(DirectOp(a, tenantId, t), k) == Get(a, k)
  {
  }

  /** What becomes of a row depends on the operations on it alone. */
  lemma {:induction false} OtherOpsDoNotShow(rows: Rows, tenantId: string, batch: Batch, typ: string, id: string)
    ensures var k, key := DurableKey(tenantId, typ, id), MapKey(typ, id);
            Get(Direct(rows, tenantId, OnKey(batch, key)), k) == Get(Direct(rows, tenantId, batch), k)
  {
    if batch != [] {
      var n, key := |batch| - 1, MapKey(typ, id);
      var t, front, mine := batch[n], batch[..n], OnKey(batch[..n], key);
      OtherOpsDoNotShow(rows, tenantId, front, typ, id);
      assert batch == front + [t];
      OnKeyOneMore(front, t, key);
      KeysAgree(tenantId, t.op.typ, t.op.id, typ, id);
      RunOneMore(rows, tenantId, front, t);
      RunOneMore(rows, tenantId, mine, t);
      OneOpIsLocal(Direct(rows, tenantId, front), Direct(rows, tenantId, mine), tenantId, t, DurableKey(tenantId, typ, id));
    }
  }

  lemma {:induction false} TrailIsOnKey(batch: Batch, key: string, name: string)
    ensures TrailOf(OnKey(batch, key), key, name) == TrailOf(batch, key, name)
  {
    if batch != [] {
      var n := |batch| - 1;
      TrailIsOnKey(batch[..n], key, name);
      assert batch == batch[..n] + [batch[n]];
      OnKeyOneMore(batch[..n], batch[n], key);
      TrailOneMore(OnKey(batch[..n], key), batch[n], key, name);
    }
  }

  lemma OnKeyMembers(batch: Batch, key: string)
    ensures forall t :: t in OnKey(batch, key) <==> t in batch && KeyOf(t.op) == key
  {
    KeptExactly(batch, (t: Timed) => KeyOf(t.op) == key);
  }

  /** Where the clock does not go back on a row, and the row does not start out ahead of it,
      every field of the row is what the operations applied to it wrote last since they last
      deleted it, or else what it was at the start. */
  lemma DirectFieldsAreLastWrites(rows: Rows, tenantId: string, all: Batch, start: int, t: Timed, name: string)
    requires WellKept(rows) && Unambiguous(rows, tenantId, all) && StoredUpTo(rows, start)
    requires RunsForwardFrom(OnKey(all, KeyOf(t.op)), start)
    requires t in all && name != "id" && name != "updatedAt"
    ensures var k := AddressOf(tenantId, t.op);
            StoredField(Direct(rows, tenantId, all), k, name)
            == Left(TrailOf(all, KeyOf(t.op), name), StoredField(rows, k, name))
  {
    var key := KeyOf(t.op);
    var mine := OnKey(all, key);
    var i :| 0 <= i < |all| && all[i] == t;
    OtherOpsDoNotShow(rows, tenantId, all, t.op.typ, t.op.id);
    TrailIsOnKey(all, key, name);
    OnKeyMembers(all, key);
    forall j | 0 <= j < |mine| ensures mine[j].op.typ == t.op.typ && mine[j].op.id == t.op.id {
      assert mine[j] in mine;
      ToldApart(all, mine[j], t);
    }
    var m := OneRow(rows, tenantId, t.op, start);
    NothingIsDiscarded(m, mine, map[], start);
    FieldsAreLastWrites(m, mine, map[], key, name);
    RunsAgree(rows, m, tenantId, mine, t.op.typ, t.op.id);
  }

  lemma {:induction false} ForwardOnKey(batch: Batch, key: string, start: int)
    requires RunsForwardFrom(batch, start)
    ensures RunsForwardFrom(OnKey(batch, key), start)
    ensures OnKey(batch, key) != [] ==> Latest(OnKey(batch, key), start) <= Latest(batch, start)
  {
    if batch != [] {
      var n := |batch| - 1;
      assert batch == batch[..n] + [batch[n]];
      ForwardParts(batch[..n], [batch[n]], start);
      ForwardOnKey(batch[..n], key, start);
      OnKeyOneMore(batch[..n], batch[n], key);
      ForwardOneMore(OnKey(batch[..n], key), batch[n], start, Latest(batch[..n], start));
    }
  }

  lemma ForwardOneMore(batch: Batch, t: Timed, start: int, now: int)
    requires RunsForwardFrom(batch, start) && (batch != [] ==> Latest(batch, start) <= now)
    requires start <= t.first && now <= t.first <= t.second
    ensures RunsForwardFrom(batch + [t], start)
  {
    forall i, j | 0 <= i < j < |batch + [t]| ensures (batch + [t])[i].second <= (batch + [t])[j].first {
      if j == |batch| && i < |batch| - 1 {
        assert batch[i].second <= batch[|batch| - 1].first <= batch[|batch| - 1].second;
      }
    }
  }

  /** So it is for the whole run of uploads: the last write wins. */
  lemma DurableFieldsAreLastWrites(states: seq<Rows>, tenantId: string, batches: seq<Batch>, start: int, t: Timed, name: string)
    requires SafeRun(states, tenantId, batches) && RunsForwardFrom(Arrived(batches), start) && StoredUpTo(states[0], start)
    requires t in Arrived(batches) && name != "id" && name != "updatedAt"
    ensures var k := AddressOf(tenantId, t.op);
            StoredField(states[|batches|], k, name)
            == Left(TrailOf(Arrived(batches), KeyOf(t.op), name), StoredField(states[0], k, name))
  {
    UploadRunIsDirect(states, tenantId, batches);
    ForwardOnKey(Arrived(batches), KeyOf(t.op), start);
    DirectFieldsAreLastWrites(states[0], tenantId, Arrived(batches), start, t, name);
  }

  /** The map that holds just the row at the address of an operation. */
  lemma OneRow(rows: Rows, tenantId: string, op: Op, start: int) returns (m: map<string, Row>)
    requires WellKept(rows) && StoredUpTo(rows, start)
    requires AddressOf(tenantId, op) in rows ==> Means(rows[AddressOf(tenantId, op)], tenantId, op)
    ensures NoneAhead(m, start)
    ensures Agree(Get(rows, AddressOf(tenantId, op)), Get(m, KeyOf(op)), tenantId, op.typ, op.id)
    ensures CleanFields(Get(m, KeyOf(op)))
    ensures forall name :: FieldOf(Get(m, KeyOf(op)), name) == StoredField(rows, AddressOf(tenantId, op), name)
  {
    var k := AddressOf(tenantId, op);
    if k in rows {
      var s := rows[k];
      assert KeptAt(s, k) && SnapshotUpTo(s.row, start);
      assert map[] + (s.row.data - {"id", "updatedAt"}) == s.row.data;
      m := map[KeyOf(op) := RowOf(s.row)];
    } else {
      m := map[];
    }
  }
}
