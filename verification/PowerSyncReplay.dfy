/** Replay of an upload batch (src/core/auth/powersync-demo-client.ts) with the conflict
    resolver it calls (src/core/repository/powersync-conflict.ts), and the offline client's
    queue.

    The clock is a parameter: every operation of a batch carries the two readings that are
    taken while it is replayed. */
module PowerSyncReplay {
  import opened Lists

  // ------------------------------------------------------------ rows and operations

  /** A JSON value: a string, or anything else together with how a template prints it. */
  datatype Json = Text(s: string) | Other(shown: string)

  function Render(j: Json): string {
    match j
    case Text(s) => s
    case Other(shown) => shown
  }

  /** A row's time stamp: a clock reading, or whatever the client's payload put in its place. */
  datatype Stamp = Clock(at: int) | Client(value: Json)

  type Fields = map<string, Json>

  datatype Row = Row(id: Json, updatedAt: Stamp, fields: Fields)

  /** The object spread of `data` over a row: keys named `id` and `updatedAt` overwrite the
      row's own. */
  function Spread(row: Row, data: Fields): Row {
    Row(if "id" in data then data["id"] else row.id,
        if "updatedAt" in data then Client(data["updatedAt"]) else row.updatedAt,
        row.fields + (data - {"id", "updatedAt"}))
  }

  datatype Kind = PUT | PATCH | DELETE

  datatype Op = Op(kind: Kind, typ: string, id: string, data: Fields)

  /** An operation with the clock readings of its replay. */
  datatype Timed = Timed(op: Op, first: int, second: int)

  type Batch = seq<Timed>

  function MapKey(typ: string, id: string): string {
    typ + ":" + id
  }

  function KeyOf(op: Op): string {
    MapKey(op.typ, op.id)
  }

  // ------------------------------------------------------------ the conflict resolver

  datatype Outcome = ClientWins | ServerWins | PartialConflict | NoOp

  datatype Decision = Decision(outcome: Outcome, merged: Row, rejectedFields: set<string>)

  predicate ServerNewer(server: Row, clientAt: int) {
    server.updatedAt.Clock? && server.updatedAt.at > clientAt
  }

  function Resolve(patch: Fields, clientAt: int, server: Row, guarded: set<string>): Decision {
    var rejected := patch.Keys * guarded;
    if patch == map[] then Decision(NoOp, server, {})
    else if ServerNewer(server, clientAt) then Decision(ServerWins, server, rejected)
    else
      var merged := Spread(server, patch - guarded);
      if rejected != {} then Decision(PartialConflict, merged, rejected)
      else Decision(ClientWins, merged, {})
  }

  /** A guarded field is never overwritten, whatever the patch and the clock say. */
  lemma GuardedFieldsSurvive(patch: Fields, clientAt: int, server: Row, guarded: set<string>, name: string)
    requires name in guarded
    ensures var merged := Resolve(patch, clientAt, server, guarded).merged;
            && (name in merged.fields <==> name in server.fields)
            && (name in server.fields ==> merged.fields[name] == server.fields[name])
            && (name == "id" ==> merged.id == server.id)
            && (name == "updatedAt" ==> merged.updatedAt == server.updatedAt)
  {
    assert name !in patch - guarded;
  }

  // ------------------------------------------------------------ replaying a batch

  function Get<K, V>(m: map<K, V>, k: K): Option<V> {
    if k in m then Some(m[k]) else None
  }

  function Put<K, V>(m: map<K, V>, k: K, v: Option<V>): map<K, V> {
    if v.Some? then m[k := v.value] else m - {k}
  }

  type Guards = map<string, set<string>>

  function GuardedFields(guards: Guards, typ: string): set<string> {
    if typ in guards then guards[typ] else {}
  }

  /** What one operation makes of the row it addresses. */
  function StepRow(row: Option<Row>, t: Timed, guards: Guards): Option<Row> {
    if t.op.kind == DELETE then None
    else if row.None? then Some(Spread(Row(Text(t.op.id), Clock(t.first), map[]), t.op.data))
    else
      Some(Resolve(t.op.data, t.first, row.value, GuardedFields(guards, t.op.typ)).merged.(updatedAt := Clock(t.second)))
  }

  /** A payload that loses against a newer row changes nothing but the time stamp. The same
      payload replayed again loses again exactly when the clock has gone back behind the
      reading that was stamped on the row; otherwise it is merged. */
  lemma StalePayloadLosesAgainExactlyWhen(row: Row, t: Timed, again: Timed, guards: Guards)
    requires t.op.kind != DELETE && again.op == t.op && t.op.data != map[]
    requires ServerNewer(row, t.first)
    ensures var guarded := GuardedFields(guards, t.op.typ);
            var kept := StepRow(Some(row), t, guards).value;
            && kept == row.(updatedAt := Clock(t.second))
            && (Resolve(again.op.data, again.first, kept, guarded).outcome == ServerWins <==> t.second > again.first)
            && StepRow(Some(kept), again, guards)
               == Some((if t.second > again.first then kept else Spread(kept, t.op.data - guarded))
                         .(updatedAt := Clock(again.second)))
  {
  }

  datatype Rejection = Rejection(id: string, typ: string, fields: set<string>)

  function StepRejected(row: Option<Row>, t: Timed, guards: Guards): seq<Rejection> {
    if t.op.kind == DELETE || row.None? then []
    else
      var decision := Resolve(t.op.data, t.first, row.value, GuardedFields(guards, t.op.typ));
      if decision.outcome == PartialConflict
      then [Rejection(t.op.id, t.op.typ, decision.rejectedFields)]
      else []
  }

  function ApplyOp(rows: map<string, Row>, t: Timed, guards: Guards): map<string, Row> {
    Put(rows, KeyOf(t.op), StepRow(Get(rows, KeyOf(t.op)), t, guards))
  }

  function RejectOp(rows: map<string, Row>, t: Timed, guards: Guards): seq<Rejection> {
    StepRejected(Get(rows, KeyOf(t.op)), t, guards)
  }

  function Applying(guards: Guards): (map<string, Row>, Timed) -> map<string, Row> {
    (rows, t) => ApplyOp(rows, t, guards)
  }

  function Rejecting(guards: Guards): (map<string, Row>, Timed) -> seq<Rejection> {
    (rows, t) => RejectOp(rows, t, guards)
  }

  /** The rows after the batch. */
  function Replay(rows: map<string, Row>, batch: Batch, guards: Guards): map<string, Row> {
    Run(rows, batch, Applying(guards))
  }

  function Rejected(rows: map<string, Row>, batch: Batch, guards: Guards): seq<Rejection> {
    Emitted(rows, batch, Applying(guards), Rejecting(guards))
  }

  class RowMap {
    var entries: map<string, Row>

    constructor ()
      ensures entries == map[]
    {
      entries := map[];
    }
  }

  method ApplyCrudBatch(batch: Batch, store: RowMap, guards: Guards)
    returns (status: int, rejected: seq<Rejection>)
    modifies store
    ensures store.entries == Replay(old(store.entries), batch, guards)
    ensures rejected == Rejected(old(store.entries), batch, guards)
    ensures status == if rejected == [] then 204 else 409
  {
    rejected := [];
    var i := 0;
    while i < |batch|
      invariant 0 <= i <= |batch|
      invariant store.entries == Replay(old(store.entries), batch[..i], guards)
      invariant rejected == Rejected(old(store.entries), batch[..i], guards)
    {
      var t := batch[i];
      var key := KeyOf(t.op);
      assert batch[..i + 1][..i] == batch[..i];
      if t.op.kind == DELETE {
        store.entries := store.entries - {key};
      } else if key !in store.entries {
        store.entries := store.entries[key := Spread(Row(Text(t.op.id), Clock(t.first), map[]), t.op.data)];
      } else {
        var decision := Resolve(t.op.data, t.first, store.entries[key], GuardedFields(guards, t.op.typ));
        if decision.outcome == PartialConflict {
          rejected := rejected + [Rejection(t.op.id, t.op.typ, decision.rejectedFields)];
        }
        store.entries := store.entries[key := decision.merged.(updatedAt := Clock(t.second))];
      }
      i := i + 1;
    }
    assert batch[..i] == batch;
    status := if |rejected| == 0 then 204 else 409;
  }

  // ------------------------------------------------------------ properties of replay

  /** Replaying two batches one after the other is replaying their concatenation: rows and
      rejections alike. */
  lemma ReplayConcatenates(rows: map<string, Row>, a: Batch, b: Batch, guards: Guards)
    ensures Replay(rows, a + b, guards) == Replay(Replay(rows, a, guards), b, guards)
    ensures Rejected(rows, a + b, guards) ==
            Rejected(rows, a, guards) + Rejected(Replay(rows, a, guards), b, guards)
  {
    RunConcatenates(rows, a, b, Applying(guards));
    EmittedConcatenates(rows, a, b, Applying(guards), Rejecting(guards));
  }

  /** What the batch makes of one row, looking only at the operations on that row. */
  function FoldRow(row: Option<Row>, batch: Batch, key: string, guards: Guards): Option<Row> {
    if batch == [] then row
    else
      var n := |batch| - 1;
      var before := FoldRow(row, batch[..n], key, guards);
      if KeyOf(batch[n].op) == key then StepRow(before, batch[n], guards) else before
  }

  lemma {:induction false} ReplayIsPerRow(rows: map<string, Row>, batch: Batch, key: string, guards: Guards)
    ensures Get(Replay(rows, batch, guards), key) == FoldRow(Get(rows, key), batch, key, guards)
  {
    if batch != [] {
      ReplayIsPerRow(rows, batch[..|batch| - 1], key, guards);
    }
  }

  function RejectionOf(t: Timed, guards: Guards): Rejection {
    Rejection(t.op.id, t.op.typ, t.op.data.Keys * GuardedFields(guards, t.op.typ))
  }

  lemma RejectedExactlyWhenTouching(rows: map<string, Row>, t: Timed, guards: Guards)
    ensures RejectOp(rows, t, guards) == if TouchesGuarded(rows, t, guards) then [RejectionOf(t, guards)] else []
  {
  }

  /** The rejections of a batch name exactly the operations that touch a guarded field of a row
      that is present and not newer than the client, each with the fields it touches. */
  lemma RejectionsAreExactly(rows: map<string, Row>, batch: Batch, guards: Guards, r: Rejection)
    ensures r in Rejected(rows, batch, guards) <==>
            exists k :: 0 <= k < |batch| && TouchesGuarded(Replay(rows, batch[..k], guards), batch[k], guards)
                        && r == RejectionOf(batch[k], guards)
  {
    var apply, reject := Applying(guards), Rejecting(guards);
    EmittedExactly(rows, batch, apply, reject, r);
    forall k: nat | k < |batch|
      ensures EmitsAt(rows, batch, apply, reject, k, r) <==>
              TouchesGuarded(Replay(rows, batch[..k], guards), batch[k], guards) && r == RejectionOf(batch[k], guards)
    {
      RejectedExactlyWhenTouching(Replay(rows, batch[..k], guards), batch[k], guards);
    }
  }

  /** A batch is answered 409 exactly when there is such an operation. */
  lemma ConflictExactlyWhenGuardedFieldTouched(rows: map<string, Row>, batch: Batch, guards: Guards)
    ensures Rejected(rows, batch, guards) != [] <==>
            exists k :: 0 <= k < |batch| && TouchesGuarded(Replay(rows, batch[..k], guards), batch[k], guards)
  {
    if Rejected(rows, batch, guards) != [] {
      RejectionsAreExactly(rows, batch, guards, Rejected(rows, batch, guards)[0]);
    }
    if k :| 0 <= k < |batch| && TouchesGuarded(Replay(rows, batch[..k], guards), batch[k], guards) {
      RejectionsAreExactly(rows, batch, guards, RejectionOf(batch[k], guards));
    }
  }

  predicate TouchesGuarded(rows: map<string, Row>, t: Timed, guards: Guards) {
    && t.op.kind != DELETE
    && KeyOf(t.op) in rows
    && !ServerNewer(rows[KeyOf(t.op)], t.first)
    && t.op.data.Keys * GuardedFields(guards, t.op.typ) != {}
  }

  // ------------------------------------------------------------ the offline client

  class DemoClient {
    var pending: seq<Op>

    constructor ()
      ensures pending == []
    {
      pending := [];
    }

    method Queue(op: Op)
      modifies this
      ensures pending == old(pending) + [op]
    {
      pending := pending + [op];
    }

    method Buffer() returns (ops: seq<Op>)
      ensures ops == pending
    {
      ops := pending;
    }

    method Flush() returns (batch: seq<Op>)
      modifies this
      ensures batch == old(pending) && pending == []
    {
      batch := pending;
      pending := [];
    }
  }

  datatype Action = Queues(op: Op) | Flushes

  datatype ClientRun = ClientRun(pending: seq<Op>, flushed: seq<seq<Op>>)

  /** Any interleaving of the client's two operations; each step is what `Queue` and `Flush`
      ensure. */
  function RunClient(actions: seq<Action>): ClientRun {
    if actions == [] then ClientRun([], [])
    else
      var before := RunClient(actions[..|actions| - 1]);
      match actions[|actions| - 1]
      case Queues(op) => before.(pending := before.pending + [op])
      case Flushes => ClientRun([], before.flushed + [before.pending])
  }

  function QueuedOps(actions: seq<Action>): seq<Op> {
    Collected(actions, (a: Action) => if a.Queues? then Some(a.op) else None)
  }

  /** Nothing is lost, duplicated or reordered between queueing and flushing. */
  lemma {:induction false} FlushedAndPendingAreQueued(actions: seq<Action>)
    ensures Flatten(RunClient(actions).flushed) + RunClient(actions).pending == QueuedOps(actions)
  {
    if actions != [] {
      var n := |actions| - 1;
      FlushedAndPendingAreQueued(actions[..n]);
      var before := RunClient(actions[..n]);
      match actions[n]
      case Queues(op) =>
        assert Flatten(before.flushed) + (before.pending + [op]) == (Flatten(before.flushed) + before.pending) + [op];
      case Flushes =>
        assert (before.flushed + [before.pending])[..|before.flushed|] == before.flushed;
    }
  }

  // ------------------------------------------------------------ uploading one flush after another

  function ReplayAll(rows: map<string, Row>, batches: seq<Batch>, guards: Guards): map<string, Row> {
    if batches == [] then rows
    else Replay(ReplayAll(rows, batches[..|batches| - 1], guards), batches[|batches| - 1], guards)
  }

  /** Where the client cuts its queue into batches does not show in the rows. */
  lemma {:induction false} CutsDoNotShow(rows: map<string, Row>, batches: seq<Batch>, guards: Guards)
    ensures ReplayAll(rows, batches, guards) == Replay(rows, Flatten(batches), guards)
  {
    if batches != [] {
      var n := |batches| - 1;
      CutsDoNotShow(rows, batches[..n], guards);
      ReplayConcatenates(rows, Flatten(batches[..n]), batches[n], guards);
    }
  }
}
