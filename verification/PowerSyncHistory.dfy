/** What a whole batch does to a row: which operations are discarded as stale, and what the
    row is made of afterwards. */
module PowerSyncHistory {
  import opened Lists
  import opened PowerSyncReplay

  // ------------------------------------------------------------ stale operations

  /** Clock readings never go back while a batch is replayed. */
  predicate ClockRunsForward(batch: Batch) {
    && (forall i :: 0 <= i < |batch| ==> batch[i].first <= batch[i].second)
    && (forall i, j :: 0 <= i < j < |batch| ==> batch[i].second <= batch[j].first)
  }

  /** The operation loses against the row it addresses: its payload is discarded. */
  predicate Discards(rows: map<string, Row>, t: Timed, guards: Guards) {
    && t.op.kind != DELETE && KeyOf(t.op) in rows
    && Resolve(t.op.data, t.first, rows[KeyOf(t.op)], GuardedFields(guards, t.op.typ)).outcome == ServerWins
  }

  predicate Touches(batch: Batch, key: string) {
    exists i :: 0 <= i < |batch| && KeyOf(batch[i].op) == key
  }

  lemma {:induction false} UntouchedRowStays(rows: map<string, Row>, batch: Batch, key: string, guards: Guards)
    requires !Touches(batch, key)
    ensures Get(Replay(rows, batch, guards), key) == Get(rows, key)
  {
    if batch != [] {
      var n := |batch| - 1;
      assert KeyOf(batch[n].op) != key;
      assert forall i :: 0 <= i < n ==> batch[..n][i] == batch[i];
      UntouchedRowStays(rows, batch[..n], key, guards);
    }
  }

  predicate StampedBy(r: Option<Row>, now: int) {
    r.Some? && r.value.updatedAt.Clock? ==> r.value.updatedAt.at <= now
  }

  lemma StepStamps(row: Option<Row>, t: Timed, guards: Guards)
    requires t.first <= t.second
    ensures StampedBy(StepRow(row, t, guards), t.second)
  {
  }

  lemma ClockBefore(batch: Batch)
    requires ClockRunsForward(batch) && batch != []
    ensures var n := |batch| - 1;
            && ClockRunsForward(batch[..n])
            && batch[n].first <= batch[n].second
            && (n > 0 ==> batch[..n][n - 1].second <= batch[n].first)
  {
  }

  /** A row the batch has touched carries no stamp later than the last reading. */
  lemma {:induction false} TouchedRowIsStamped(rows: map<string, Row>, batch: Batch, key: string, guards: Guards)
    requires ClockRunsForward(batch) && Touches(batch, key)
    ensures StampedBy(Get(Replay(rows, batch, guards), key), batch[|batch| - 1].second)
  {
    var n := |batch| - 1;
    var t, before := batch[n], Replay(rows, batch[..n], guards);
    ClockBefore(batch);
    assert Replay(rows, batch, guards) == ApplyOp(before, t, guards);
    if KeyOf(t.op) == key {
      StepStamps(Get(before, key), t, guards);
    } else {
      var i :| 0 <= i < |batch| && KeyOf(batch[i].op) == key;
      assert KeyOf(batch[..n][i].op) == key;
      TouchedRowIsStamped(rows, batch[..n], key, guards);
    }
  }

  /** While the clock runs forward an operation is discarded exactly when it has a payload, is
      the first of the batch on its row, and the row came in with a stamp ahead of the clock. */
  lemma DiscardedExactlyWhen(rows: map<string, Row>, batch: Batch, guards: Guards, k: nat)
    requires ClockRunsForward(batch) && k < |batch|
    ensures var t := batch[k];
            Discards(Replay(rows, batch[..k], guards), t, guards) <==>
            && t.op.kind != DELETE && t.op.data != map[]
            && !Touches(batch[..k], KeyOf(t.op))
            && KeyOf(t.op) in rows && ServerNewer(rows[KeyOf(t.op)], t.first)
  {
    var t, key := batch[k], KeyOf(batch[k].op);
    if Touches(batch[..k], key) {
      TouchedRowIsStamped(rows, batch[..k], key, guards);
      assert batch[k - 1].second <= t.first;
    } else {
      UntouchedRowStays(rows, batch[..k], key, guards);
    }
  }

  /** No row carries a stamp later than `now`. */
  ghost predicate NoneAhead(rows: map<string, Row>, now: int) {
    forall key :: StampedBy(Get(rows, key), now)
  }

  /** The last reading of a batch; `start` when there is none. */
  function Latest(batch: Batch, start: int): int {
    if batch == [] then start else batch[|batch| - 1].second
  }

  ghost predicate NoneDiscarded(rows: map<string, Row>, batch: Batch, guards: Guards) {
    forall k :: 0 <= k < |batch| ==> !Discards(Replay(rows, batch[..k], guards), batch[k], guards)
  }

  /** From rows that are not ahead of the clock nothing is ever discarded, and the rows stay
      behind the clock. */
  lemma NothingIsDiscarded(rows: map<string, Row>, batch: Batch, guards: Guards, start: int)
    requires ClockRunsForward(batch) && NoneAhead(rows, start)
    requires forall i :: 0 <= i < |batch| ==> start <= batch[i].first
    ensures NoneDiscarded(rows, batch, guards)
    ensures NoneAhead(Replay(rows, batch, guards), Latest(batch, start))
  {
    forall k | 0 <= k < |batch| ensures !Discards(Replay(rows, batch[..k], guards), batch[k], guards) {
      DiscardedExactlyWhen(rows, batch, guards, k);
      assert StampedBy(Get(rows, KeyOf(batch[k].op)), start);
    }
    forall key ensures StampedBy(Get(Replay(rows, batch, guards), key), Latest(batch, start)) {
      assert StampedBy(Get(rows, key), start);
      if Touches(batch, key) {
        TouchedRowIsStamped(rows, batch, key, guards);
      } else {
        UntouchedRowStays(rows, batch, key, guards);
        assert batch != [] ==> start <= batch[|batch| - 1].first <= batch[|batch| - 1].second;
      }
    }
  }

  // ------------------------------------------------------------ what a row is made of

  function LastKind(batch: Batch, key: string): Option<Kind> {
    if batch == [] then None
    else if KeyOf(batch[|batch| - 1].op) == key then Some(batch[|batch| - 1].op.kind)
    else LastKind(batch[..|batch| - 1], key)
  }

  /** A row is there afterwards exactly when the last operation on it was no deletion, or there
      was none and it was there before. */
  lemma {:induction false} RowIsPresentExactlyWhen(rows: map<string, Row>, batch: Batch, key: string, guards: Guards)
    ensures key in Replay(rows, batch, guards) <==>
            match LastKind(batch, key) case None => key in rows case Some(kind) => kind != DELETE
  {
    if batch != [] {
      RowIsPresentExactlyWhen(rows, batch[..|batch| - 1], key, guards);
    }
  }

  /** What a batch did to one name of a row: nothing, removed it with the row, or wrote it. */
  datatype Trail = Untouched | Gone | Wrote(value: Json)

  function TrailOf(batch: Batch, key: string, name: string): Trail {
    if batch == [] then Untouched
    else
      Next(TrailOf(batch[..|batch| - 1], key, name), batch[|batch| - 1].op, key, name)
  }

  function Next(trail: Trail, op: Op, key: string, name: string): Trail {
    if KeyOf(op) != key then trail
    else if op.kind == DELETE then Gone
    else if name in op.data then Wrote(op.data[name])
    else trail
  }

  function FieldOf(r: Option<Row>, name: string): Option<Json> {
    if r.Some? then Get(r.value.fields, name) else None
  }

  function Left(trail: Trail, original: Option<Json>): Option<Json> {
    match trail
    case Untouched => original
    case Gone => None
    case Wrote(v) => Some(v)
  }

  predicate Unguarded(batch: Batch, key: string, name: string, guards: Guards) {
    forall i :: 0 <= i < |batch| && KeyOf(batch[i].op) == key ==> name !in GuardedFields(guards, batch[i].op.typ)
  }

  lemma OpWritesField(rows: map<string, Row>, t: Timed, guards: Guards, key: string, name: string)
    requires !Discards(rows, t, guards) && name != "id" && name != "updatedAt"
    requires KeyOf(t.op) == key ==> name !in GuardedFields(guards, t.op.typ)
    ensures forall trail, original :: FieldOf(Get(rows, key), name) == Left(trail, original) ==>
              FieldOf(Get(ApplyOp(rows, t, guards), key), name) == Left(Next(trail, t.op, key, name), original)
  {
  }

  lemma NoneDiscardedBefore(rows: map<string, Row>, batch: Batch, guards: Guards)
    requires NoneDiscarded(rows, batch, guards) && batch != []
    ensures NoneDiscarded(rows, batch[..|batch| - 1], guards)
    ensures !Discards(Replay(rows, batch[..|batch| - 1], guards), batch[|batch| - 1], guards)
  {
    var n := |batch| - 1;
    forall k | 0 <= k < n ensures !Discards(Replay(rows, batch[..n][..k], guards), batch[..n][k], guards) {
      assert batch[..n][..k] == batch[..k];
      assert !Discards(Replay(rows, batch[..k], guards), batch[k], guards);
    }
  }

  /** Where nothing is discarded, an unguarded field holds what the batch wrote last since the
      row's last deletion; untouched, what it held before. */
  lemma {:induction false} FieldsAreLastWrites(rows: map<string, Row>, batch: Batch, guards: Guards, key: string, name: string)
    requires NoneDiscarded(rows, batch, guards)
    requires name != "id" && name != "updatedAt" && Unguarded(batch, key, name, guards)
    ensures FieldOf(Get(Replay(rows, batch, guards), key), name)
            == Left(TrailOf(batch, key, name), FieldOf(Get(rows, key), name))
  {
    if batch != [] {
      var n := |batch| - 1;
      var t, before := batch[n], Replay(rows, batch[..n], guards);
      NoneDiscardedBefore(rows, batch, guards);
      assert forall i :: 0 <= i < n ==> batch[..n][i] == batch[i];
      FieldsAreLastWrites(rows, batch[..n], guards, key, name);
      OpWritesField(before, t, guards, key, name);
    }
  }

  /** The id the payloads last gave the row, counting from its last deletion. */
  function LastId(batch: Batch, key: string): Option<Json> {
    Left(TrailOf(batch, key, "id"), None)
  }

  function IdOf(r: Option<Row>): Option<Json> {
    if r.Some? then Some(r.value.id) else None
  }

  /** The id of a row after a batch: written, kept, or that of the operations that made it. */
  predicate IdFollows(trail: Trail, original: Option<Row>, r: Option<Row>, id: string) {
    match trail
    case Wrote(v) => IdOf(r) == Some(v)
    case Gone => r.Some? ==> IdOf(r) == Some(Text(id))
    case Untouched => if original.Some? then IdOf(r) == IdOf(original) else r.Some? ==> IdOf(r) == Some(Text(id))
  }

  lemma OpFollows(trail: Trail, original: Option<Row>, rows: map<string, Row>, t: Timed, guards: Guards, key: string, id: string)
    requires IdFollows(trail, original, Get(rows, key), id) && !Discards(rows, t, guards)
    requires KeyOf(t.op) == key ==> t.op.id == id && "id" !in GuardedFields(guards, t.op.typ)
    ensures IdFollows(Next(trail, t.op, key, "id"), original, Get(ApplyOp(rows, t, guards), key), id)
  {
  }

  /** The same for the id; a row that appears gets the id of its operation. */
  lemma {:induction false} IdIsLastWrite(rows: map<string, Row>, batch: Batch, guards: Guards, key: string, id: string)
    requires NoneDiscarded(rows, batch, guards) && Unguarded(batch, key, "id", guards)
    requires forall i :: 0 <= i < |batch| && KeyOf(batch[i].op) == key ==> batch[i].op.id == id
    ensures IdFollows(TrailOf(batch, key, "id"), Get(rows, key), Get(Replay(rows, batch, guards), key), id)
  {
    if batch != [] {
      var n := |batch| - 1;
      var t, before := batch[n], Replay(rows, batch[..n], guards);
      NoneDiscardedBefore(rows, batch, guards);
      assert forall i :: 0 <= i < n ==> batch[..n][i] == batch[i];
      IdIsLastWrite(rows, batch[..n], guards, key, id);
      OpFollows(TrailOf(batch[..n], key, "id"), Get(rows, key), before, t, guards, key, id);
    }
  }

  /** The stamp of a row is that of the last operation on it: its second reading when the row
      was there, otherwise the payload's own or its first reading. */
  lemma LastTouchStamps(rows: map<string, Row>, batch: Batch, guards: Guards, j: nat)
    requires j < |batch| && batch[j].op.kind != DELETE && !Touches(batch[j + 1..], KeyOf(batch[j].op))
    ensures var t := batch[j];
            var r := Get(Replay(rows, batch, guards), KeyOf(t.op));
            && r.Some?
            && r.value.updatedAt ==
                 (if KeyOf(t.op) in Replay(rows, batch[..j], guards) then Clock(t.second)
                  else if "updatedAt" in t.op.data then Client(t.op.data["updatedAt"]) else Clock(t.first))
  {
    var t := batch[j];
    assert batch[..j + 1][..j] == batch[..j] && batch[..j + 1][j] == t;
    assert batch == batch[..j + 1] + batch[j + 1..];
    ReplayConcatenates(rows, batch[..j + 1], batch[j + 1..], guards);
    UntouchedRowStays(Replay(rows, batch[..j + 1], guards), batch[j + 1..], KeyOf(t.op), guards);
    assert Replay(rows, batch[..j + 1], guards) == ApplyOp(Replay(rows, batch[..j], guards), t, guards);
  }
}
