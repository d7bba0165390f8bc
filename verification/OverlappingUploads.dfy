/** Uploads that overlap. The endpoint (src/core/auth/powersync.controller.ts) waits for the
    store when it loads rows and again when it writes them, and nothing keeps a second upload
    from loading or writing in between. Uploads of any tenants may interleave here. */
module OverlappingUploads {
  import opened Lists
  import opened PowerSyncHistory
  import opened PowerSyncReplay
  import opened PowerSyncStore
  import opened PowerSyncRefinement
  import opened PowerSyncRenaming
  import opened PowerSyncUploads

  /** An accepted upload; its operations carry the clock readings of their replay. */
  datatype Upload = Upload(tenantId: string, batch: Batch)

  /** An upload has loaded the rows of its types, or has written its mutations. */
  datatype Event = Load(upload: nat) | Write(upload: nat)

  /** An interleaving: every event happens once, and an upload writes after it has loaded. */
  ghost predicate Schedule(events: seq<Event>, n: nat) {
    && (forall k :: 0 <= k < |events| ==> events[k].upload < n)
    && (forall j, k :: 0 <= j < k < |events| ==> events[j] != events[k])
    && (forall k :: 0 <= k < |events| && events[k].Write? ==> Before(events, Load(events[k].upload), k))
  }

  ghost predicate Before(events: seq<Event>, event: Event, k: nat)
    requires k <= |events|
  {
    exists p :: 0 <= p < k && events[p] == event
  }

  /** The mutations derived from what an upload has loaded, written to the rows of the moment. */
  function Written(rows: Rows, u: Upload, existing: seq<Snapshot>): Rows {
    var after := Replayed(u.batch, existing);
    Deleted(Upserted(rows, u.tenantId, Upserts(u.batch, after)), u.tenantId, Deletes(u.batch, after))
  }

  ghost predicate Step(event: Event, u: Upload, rows: Rows, next: Rows, existing: seq<Snapshot>) {
    match event
    case Load(_) => next == rows && Loads(existing, rows, u.tenantId, Types(u.batch))
    case Write(_) => next == Written(rows, u, existing)
  }

  /** The rows before and after every event, and what each upload loads. */
  ghost predicate IsRun(events: seq<Event>, uploads: seq<Upload>, states: seq<Rows>, loaded: seq<seq<Snapshot>>) {
    && |states| == |events| + 1 && |loaded| == |uploads|
    && forall k :: 0 <= k < |events| ==> StepAt(events, uploads, states, loaded, k)
  }

  ghost predicate StepAt(events: seq<Event>, uploads: seq<Upload>, states: seq<Rows>, loaded: seq<seq<Snapshot>>, k: nat)
    requires k < |events| && |states| == |events| + 1 && |loaded| == |uploads|
  {
    var i := events[k].upload;
    i < |uploads| && Step(events[k], uploads[i], states[k], states[k + 1], loaded[i])
  }

  /** The reference: the operations of every upload applied directly, in the order of the writes. */
  function InWriteOrder(events: seq<Event>, uploads: seq<Upload>, rows: Rows, n: nat): Rows
    requires n <= |events| && forall k :: 0 <= k < |events| ==> events[k].upload < |uploads|
  {
    if n == 0 then rows
    else
      var before, event := InWriteOrder(events, uploads, rows, n - 1), events[n - 1];
      if event.Load? then before else Direct(before, uploads[event.upload].tenantId, uploads[event.upload].batch)
  }

  // ------------------------------------------------------------ overlaps

  /** Some operation of each addresses the same row. */
  ghost predicate Share(u: Upload, v: Upload) {
    exists t, s :: t in u.batch && s in v.batch && AddressOf(u.tenantId, t.op) == AddressOf(v.tenantId, s.op)
  }

  /** Upload `j` writes between the load of `i` at `p` and the write of `i` at `r`. */
  predicate WritesBetween(events: seq<Event>, i: nat, j: nat, p: nat, q: nat, r: nat) {
    && i != j && p < q < r < |events|
    && events[p] == Load(i) && events[q] == Write(j) && events[r] == Write(i)
  }

  ghost predicate Disjoint(events: seq<Event>, uploads: seq<Upload>)
    requires forall k :: 0 <= k < |events| ==> events[k].upload < |uploads|
  {
    forall i: nat, j: nat, p: nat, q: nat, r: nat :: WritesBetween(events, i, j, p, q, r) ==> !Share(uploads[i], uploads[j])
  }

  /** One address means one row to all uploads. */
  ghost predicate OneMeaning(uploads: seq<Upload>) {
    forall i, j :: 0 <= i < |uploads| && 0 <= j < |uploads| ==> MeanOne(uploads[i], uploads[j])
  }

  ghost predicate MeanOne(u: Upload, v: Upload) {
    forall t, s :: t in u.batch && s in v.batch && AddressOf(u.tenantId, t.op) == AddressOf(v.tenantId, s.op) ==>
      u.tenantId == v.tenantId && t.op.typ == s.op.typ && t.op.id == s.op.id
  }

  ghost predicate AllMeant(rows: Rows, uploads: seq<Upload>) {
    forall i :: 0 <= i < |uploads| ==> RowsAreMeant(rows, uploads[i].tenantId, uploads[i].batch)
  }

  /** Keys mean what they say, no payload renames a row, and the clock does not go back within
      an upload. */
  ghost predicate Careful(rows: Rows, uploads: seq<Upload>) {
    && WellKept(rows) && OneMeaning(uploads) && AllMeant(rows, uploads)
    && forall i :: 0 <= i < |uploads| ==> KeepsIds(uploads[i].batch) && ClockRunsForward(uploads[i].batch)
  }

  // ------------------------------------------------------------ what one write does

  lemma {:induction false} DirectIsLocal(a: Rows, b: Rows, tenantId: string, batch: Batch, k: string)
    requires Get(a, k) == Get(b, k)
    ensures Get(Direct(a, tenantId, batch), k) == Get(Direct(b, tenantId, batch), k)
  {
    if batch != [] {
      DirectIsLocal(a, b, tenantId, batch[..|batch| - 1], k);
    }
  }

  lemma MeaningIsUnambiguous(rows: Rows, u: Upload)
    requires MeanOne(u, u) && RowsAreMeant(rows, u.tenantId, u.batch)
    ensures Unambiguous(rows, u.tenantId, u.batch)
  {
    forall i, j | 0 <= i < |u.batch| && 0 <= j < |u.batch| && KeyOf(u.batch[i].op) == KeyOf(u.batch[j].op)
      ensures u.batch[i].op.typ == u.batch[j].op.typ && u.batch[i].op.id == u.batch[j].op.id
    {
      KeysAgree(u.tenantId, u.batch[i].op.typ, u.batch[i].op.id, u.batch[j].op.typ, u.batch[j].op.id);
      assert u.batch[i] in u.batch && u.batch[j] in u.batch;
    }
  }

  /** At an address of the upload a write leaves what its operations make of the row it loaded,
      whatever has been written there since; elsewhere it leaves what is there. */
  lemma WriteLeavesWhatWasLoaded(rows: Rows, was: Rows, u: Upload, existing: seq<Snapshot>, k: string)
    requires WellKept(was) && Unambiguous(was, u.tenantId, u.batch) && KeepsIds(u.batch) && ClockRunsForward(u.batch)
    requires Loads(existing, was, u.tenantId, Types(u.batch))
    ensures Get(Written(rows, u, existing), k) ==
            if exists t :: t in u.batch && AddressOf(u.tenantId, t.op) == k
            then Get(Direct(was, u.tenantId, u.batch), k) else Get(rows, k)
  {
    KeptIdsAreOwn(was, u.tenantId, u.batch, existing);
    if t :| t in u.batch && AddressOf(u.tenantId, t.op) == k {
      PersistedAtAddress(rows, u.tenantId, u.batch, Replayed(u.batch, existing), t);
      ReplayAgreesWithDirect(was, u.tenantId, u.batch, existing, t);
    } else {
      PersistedElsewhere(rows, u.tenantId, u.batch, Replayed(u.batch, existing), k);
    }
  }

  /** So a write is direct application when nobody has changed its rows since they were loaded. */
  lemma UndisturbedWriteIsDirect(rows: Rows, was: Rows, u: Upload, existing: seq<Snapshot>)
    requires WellKept(was) && Unambiguous(was, u.tenantId, u.batch) && KeepsIds(u.batch) && ClockRunsForward(u.batch)
    requires Loads(existing, was, u.tenantId, Types(u.batch))
    requires forall t :: t in u.batch ==> Get(rows, AddressOf(u.tenantId, t.op)) == Get(was, AddressOf(u.tenantId, t.op))
    ensures Written(rows, u, existing) == Direct(rows, u.tenantId, u.batch)
  {
    var w, d := Written(rows, u, existing), Direct(rows, u.tenantId, u.batch);
    forall k ensures Get(w, k) == Get(d, k) {
      WriteLeavesWhatWasLoaded(rows, was, u, existing, k);
      if t :| t in u.batch && AddressOf(u.tenantId, t.op) == k {
        DirectIsLocal(rows, was, u.tenantId, u.batch, k);
      } else {
        DirectLeavesTheRestAlone(rows, u.tenantId, u.batch, k);
      }
    }
    SameLookups(w, d);
  }

  lemma {:induction false} DirectKeepsMeaning(rows: Rows, u: Upload, v: Upload, batch: Batch)
    requires MeanOne(u, v) && RowsAreMeant(rows, v.tenantId, v.batch) && batch <= u.batch
    ensures RowsAreMeant(Direct(rows, u.tenantId, batch), v.tenantId, v.batch)
  {
    if batch != [] {
      var n := |batch| - 1;
      DirectKeepsMeaning(rows, u, v, batch[..n]);
      assert batch[n] == u.batch[n] && batch[n] in u.batch;
      var before := Direct(rows, u.tenantId, batch[..n]);
      forall i | 0 <= i < |v.batch| && AddressOf(v.tenantId, v.batch[i].op) in Direct(rows, u.tenantId, batch)
        ensures Means(Direct(rows, u.tenantId, batch)[AddressOf(v.tenantId, v.batch[i].op)], v.tenantId, v.batch[i].op)
      {
        assert v.batch[i] in v.batch;
        assert Direct(rows, u.tenantId, batch) == DirectOp(before, u.tenantId, batch[n]);
      }
    }
  }

  // ------------------------------------------------------------ without shared addresses

  ghost predicate Good(events: seq<Event>, uploads: seq<Upload>, states: seq<Rows>, m: nat)
    requires m <= |events| && |states| == |events| + 1
    requires forall k :: 0 <= k < |events| ==> events[k].upload < |uploads|
  {
    && states[m] == InWriteOrder(events, uploads, states[0], m)
    && WellKept(states[m]) && AllMeant(states[m], uploads)
  }

  lemma {:induction false} UntouchedSinceLoad(events: seq<Event>, uploads: seq<Upload>, states: seq<Rows>,
                                              loaded: seq<seq<Snapshot>>, p: nat, r: nat, n: nat, t: Timed)
    requires Schedule(events, |uploads|) && IsRun(events, uploads, states, loaded) && Disjoint(events, uploads)
    requires p <= n <= r < |events| && p < r && events[p].Load? && events[r] == Write(events[p].upload)
    requires t in uploads[events[p].upload].batch
    requires forall m :: 0 <= m <= r ==> Good(events, uploads, states, m)
    ensures var k := AddressOf(uploads[events[p].upload].tenantId, t.op); Get(states[n], k) == Get(states[p], k)
  {
    if p < n {
      var i, q := events[p].upload, n - 1;
      var k := AddressOf(uploads[i].tenantId, t.op);
      UntouchedSinceLoad(events, uploads, states, loaded, p, r, q, t);
      assert StepAt(events, uploads, states, loaded, q);
      if events[q].Write? {
        var j := events[q].upload;
        assert events[q] != events[r] && p != q;
        assert WritesBetween(events, i, j, p, q, r);
        assert Good(events, uploads, states, q) && Good(events, uploads, states, n);
        assert states[n] == Direct(states[q], uploads[j].tenantId, uploads[j].batch);
        DirectLeavesTheRestAlone(states[q], uploads[j].tenantId, uploads[j].batch, k);
      }
    }
  }

  lemma {:induction false} DisjointRunIsGood(events: seq<Event>, uploads: seq<Upload>, states: seq<Rows>,
                                             loaded: seq<seq<Snapshot>>, n: nat)
    requires Schedule(events, |uploads|) && IsRun(events, uploads, states, loaded) && Disjoint(events, uploads)
    requires Careful(states[0], uploads) && n <= |events|
    ensures forall m :: 0 <= m <= n ==> Good(events, uploads, states, m)
  {
    if n > 0 {
      DisjointRunIsGood(events, uploads, states, loaded, n - 1);
      NextIsGood(events, uploads, states, loaded, n - 1);
    }
  }

  lemma NextIsGood(events: seq<Event>, uploads: seq<Upload>, states: seq<Rows>, loaded: seq<seq<Snapshot>>, r: nat)
    requires Schedule(events, |uploads|) && IsRun(events, uploads, states, loaded) && Disjoint(events, uploads)
    requires Careful(states[0], uploads) && r < |events|
    requires forall m :: 0 <= m <= r ==> Good(events, uploads, states, m)
    ensures Good(events, uploads, states, r + 1)
  {
    var i := events[r].upload;
    var u := uploads[i];
    assert Good(events, uploads, states, r);
    assert StepAt(events, uploads, states, loaded, r);
    if events[r].Write? {
      assert Before(events, Load(i), r);
      var p :| 0 <= p < r && events[p] == Load(i);
      assert Good(events, uploads, states, p) && StepAt(events, uploads, states, loaded, p);
      MeaningIsUnambiguous(states[p], u);
      forall t | t in u.batch
        ensures Get(states[r], AddressOf(u.tenantId, t.op)) == Get(states[p], AddressOf(u.tenantId, t.op))
      {
        UntouchedSinceLoad(events, uploads, states, loaded, p, r, r, t);
      }
      UndisturbedWriteIsDirect(states[r], states[p], u, loaded[i]);
      DirectKeepsRowsWell(states[r], u.tenantId, u.batch);
      forall j | 0 <= j < |uploads| ensures RowsAreMeant(states[r + 1], uploads[j].tenantId, uploads[j].batch) {
        DirectKeepsMeaning(states[r], u, uploads[j], u.batch);
      }
    }
  }

  // ------------------------------------------------------------ with shared addresses

  predicate SameAddresses(u: Upload, v: Upload) {
    && u.tenantId == v.tenantId && |u.batch| == |v.batch|
    && forall k :: 0 <= k < |u.batch| ==> u.batch[k].op.typ == v.batch[k].op.typ && u.batch[k].op.id == v.batch[k].op.id
  }

  predicate AllSameAddresses(a: seq<Upload>, b: seq<Upload>) {
    |a| == |b| && forall i :: 0 <= i < |a| ==> SameAddresses(a[i], b[i])
  }

  lemma SameAddress(u: Upload, v: Upload, t: Timed) returns (s: Timed)
    requires SameAddresses(u, v) && t in u.batch
    ensures s in v.batch && s.op.typ == t.op.typ && s.op.id == t.op.id
    ensures AddressOf(u.tenantId, t.op) == AddressOf(v.tenantId, s.op)
  {
    var k :| 0 <= k < |u.batch| && u.batch[k] == t;
    s := v.batch[k];
  }

  lemma SameSharing(u: Upload, v: Upload, u': Upload, v': Upload)
    requires SameAddresses(u, u') && SameAddresses(v, v') && Share(u, v)
    ensures Share(u', v')
  {
    var t, s :| t in u.batch && s in v.batch && AddressOf(u.tenantId, t.op) == AddressOf(v.tenantId, s.op);
    var t' := SameAddress(u, u', t);
    var s' := SameAddress(v, v', s);
  }

  lemma Mirrored(u: Upload, v: Upload)
    requires SameAddresses(u, v)
    ensures SameAddresses(v, u)
  {
  }

  lemma SameDisjoint(events: seq<Event>, a: seq<Upload>, b: seq<Upload>)
    requires AllSameAddresses(a, b) && forall k :: 0 <= k < |events| ==> events[k].upload < |a|
    requires Disjoint(events, b)
    ensures Disjoint(events, a)
  {
    forall i: nat, j: nat, p: nat, q: nat, r: nat | WritesBetween(events, i, j, p, q, r) ensures !Share(a[i], a[j]) {
      if Share(a[i], a[j]) {
        SameSharing(a[i], a[j], b[i], b[j]);
      }
    }
  }

  // Uploads that only insert: those of upload `i` write a field `f`, those of `j` a field `g`.

  function Payload(m: int, i: nat, j: nat): Fields {
    if m == i then map["f" := Text("")] else if m == j then map["g" := Text("")] else map[]
  }

  function MarkedUpload(u: Upload, data: Fields): (v: Upload)
    ensures SameAddresses(v, u)
    ensures forall k :: 0 <= k < |v.batch| ==> IsMark(v.batch[k], data)
  {
    Upload(u.tenantId, Mapped(u.batch, (t: Timed) => Timed(Op(PUT, t.op.typ, t.op.id, data), 0, 0)))
  }

  predicate IsMark(t: Timed, data: Fields) {
    t.op.kind == PUT && t.op.data == data && t.first == 0 && t.second == 0
  }

  predicate IsMarked(u: Upload, data: Fields) {
    forall k :: 0 <= k < |u.batch| ==> IsMark(u.batch[k], data)
  }

  function Marked(shape: seq<Upload>, i: nat, j: nat): (uploads: seq<Upload>)
    ensures AllSameAddresses(uploads, shape)
    ensures forall m :: 0 <= m < |shape| ==> IsMarked(uploads[m], Payload(m, i, j))
  {
    seq(|shape|, m requires 0 <= m < |shape| => MarkedUpload(shape[m], Payload(m, i, j)))
  }

  lemma {:induction false} MarksLeaveIds(batch: Batch, data: Fields, key: string)
    requires "id" !in data && forall k :: 0 <= k < |batch| ==> IsMark(batch[k], data)
    ensures LastId(batch, key) == None
  {
    if batch != [] {
      var n := |batch| - 1;
      assert forall k :: 0 <= k < n ==> batch[..n][k] == batch[k];
      MarksLeaveIds(batch[..n], data, key);
      assert IsMark(batch[n], data);
    }
  }

  lemma SameMeaning(a: seq<Upload>, b: seq<Upload>)
    requires AllSameAddresses(a, b) && OneMeaning(b)
    ensures OneMeaning(a)
  {
    forall i, j | 0 <= i < |a| && 0 <= j < |a| ensures MeanOne(a[i], a[j]) {
      forall t, s | t in a[i].batch && s in a[j].batch && AddressOf(a[i].tenantId, t.op) == AddressOf(a[j].tenantId, s.op)
        ensures a[i].tenantId == a[j].tenantId && t.op.typ == s.op.typ && t.op.id == s.op.id
      {
        var t' := SameAddress(a[i], b[i], t);
        var s' := SameAddress(a[j], b[j], s);
        assert MeanOne(b[i], b[j]);
      }
    }
  }

  lemma MarkedIsCareful(shape: seq<Upload>, i: nat, j: nat)
    requires OneMeaning(shape)
    ensures Careful(map[], Marked(shape, i, j))
  {
    var uploads := Marked(shape, i, j);
    SameMeaning(uploads, shape);
    forall m | 0 <= m < |uploads| ensures KeepsIds(uploads[m].batch) && ClockRunsForward(uploads[m].batch) {
      var batch := uploads[m].batch;
      forall k | 0 <= k < |batch| ensures LastId(batch, KeyOf(batch[k].op)) in {None, Some(Text(batch[k].op.id))} {
        MarksLeaveIds(batch, Payload(m, i, j), KeyOf(batch[k].op));
      }
      assert forall k :: 0 <= k < |batch| ==> IsMark(batch[k], Payload(m, i, j));
    }
  }

  // ------------------------------------------------------------ every schedule has a run

  lemma {:induction false} Listing(rows: Rows, tenantId: string, types: set<string>, keys: set<string>) returns (loaded: seq<Snapshot>)
    requires keys <= rows.Keys
    ensures forall s :: s in loaded <==> s.typ in types && exists k :: k in keys && rows[k] == Stored(tenantId, s)
    decreases keys
  {
    if keys == {} {
      loaded := [];
    } else {
      var k :| k in keys;
      var rest := Listing(rows, tenantId, types, keys - {k});
      loaded := rest + if IsLoaded(rows[k], tenantId, types) then [rows[k].row] else [];
    }
  }

  lemma SomethingLoads(rows: Rows, tenantId: string, types: set<string>) returns (loaded: seq<Snapshot>)
    ensures Loads(loaded, rows, tenantId, types)
  {
    loaded := Listing(rows, tenantId, types, rows.Keys);
    forall s: Snapshot ensures (exists k :: k in rows.Keys && rows[k] == Stored(tenantId, s)) <==> Stored(tenantId, s) in rows.Values {
    }
  }

  lemma {:induction false} SomeRun(events: seq<Event>, uploads: seq<Upload>, rows: Rows)
    returns (states: seq<Rows>, loaded: seq<seq<Snapshot>>)
    requires Schedule(events, |uploads|)
    ensures IsRun(events, uploads, states, loaded) && states[0] == rows
    decreases |events|
  {
    if events == [] {
      states, loaded := [rows], seq(|uploads|, _ => []);
    } else {
      var n := |events| - 1;
      ScheduleFront(events, |uploads|);
      states, loaded := SomeRun(events[..n], uploads, rows);
      var before, i := loaded, events[n].upload;
      var last := states[n];
      if events[n].Load? {
        var existing := SomethingLoads(last, uploads[i].tenantId, Types(uploads[i].batch));
        NotLoadedBefore(events, uploads, i);
        loaded := loaded[i := existing];
        states := states + [last];
      } else {
        states := states + [Written(last, uploads[i], loaded[i])];
      }
      forall k | 0 <= k < |events| ensures StepAt(events, uploads, states, loaded, k) {
        if k < n {
          assert StepAt(events[..n], uploads, states[..n + 1], before, k);
          assert events[..n][k] == events[k];
        }
      }
    }
  }

  lemma ScheduleFront(events: seq<Event>, n: nat)
    requires Schedule(events, n) && events != []
    ensures Schedule(events[..|events| - 1], n)
  {
    var front := events[..|events| - 1];
    forall k | 0 <= k < |front| && front[k].Write? ensures Before(front, Load(front[k].upload), k) {
      assert Before(events, Load(events[k].upload), k);
      var p :| 0 <= p < k && events[p] == Load(events[k].upload);
      assert front[p] == Load(front[k].upload);
    }
  }

  lemma NotLoadedBefore(events: seq<Event>, uploads: seq<Upload>, i: nat)
    requires Schedule(events, |uploads|) && events != [] && events[|events| - 1] == Load(i)
    ensures forall k :: 0 <= k < |events| - 1 ==> events[k].upload != i
  {
    forall k | 0 <= k < |events| - 1 ensures events[k].upload != i {
      assert events[k] != Load(i) && !Before(events, Load(i), k);
    }
  }

  // ------------------------------------------------------------ what two overlapping writes cannot keep

  function FieldNames(m: map<string, Row>, key: string): set<string> {
    if key in m then m[key].fields.Keys else {}
  }

  /** A replayed row has the fields it had and those its payloads name. */
  lemma {:induction false} ReplayAddsOnly(m: map<string, Row>, batch: Batch, key: string, names: set<string>)
    requires forall k :: 0 <= k < |batch| ==> batch[k].op.data.Keys <= names
    ensures FieldNames(Replay(m, batch, map[]), key) <= FieldNames(m, key) + names
  {
    if batch != [] {
      var n := |batch| - 1;
      assert forall k :: 0 <= k < n ==> batch[..n][k] == batch[k];
      ReplayAddsOnly(m, batch[..n], key, names);
      var before := Replay(m, batch[..n], map[]);
      assert Replay(m, batch, map[]) == ApplyOp(before, batch[n], map[]);
      OpAddsOnly(before, batch[n], key);
    }
  }

  lemma OpAddsOnly(m: map<string, Row>, t: Timed, key: string)
    ensures FieldNames(ApplyOp(m, t, map[]), key) <= FieldNames(m, key) + t.op.data.Keys
  {
  }

  /** The rows `kept` may hold: none with both fields, and none with a forbidden one. */
  predicate Allowed(s: Snapshot, forbidden: set<string>) {
    !("f" in s.data && "g" in s.data) && s.data.Keys !! forbidden
  }

  predicate AllAllowed(rows: Rows, forbidden: set<string>) {
    forall k :: k in rows ==> Allowed(rows[k].row, forbidden)
  }

  /** What an upload with these payload fields can write. */
  predicate MayAdd(names: set<string>, forbidden: set<string>, loadedForbidden: set<string>) {
    && names !! forbidden && forbidden <= loadedForbidden
    && ("f" in names ==> "g" in loadedForbidden && "g" !in names)
    && ("g" in names ==> "f" in loadedForbidden && "f" !in names)
  }

  lemma LoadedIsAllowed(rows: Rows, tenantId: string, types: set<string>, existing: seq<Snapshot>, forbidden: set<string>, key: string)
    requires AllAllowed(rows, forbidden) && Loads(existing, rows, tenantId, types)
    ensures var names := FieldNames(Hydrated(existing), key); !("f" in names && "g" in names) && names !! forbidden
  {
    HydratedExactly(existing, key);
    if key in Hydrated(existing) {
      var s :| s in existing && MapKey(s.typ, Render(s.id)) == key && Hydrated(existing)[key] == RowOf(s);
      var k :| k in rows && rows[k] == Stored(tenantId, s);
      assert Allowed(rows[k].row, forbidden);
    }
  }

  lemma WriteIsAllowed(rows: Rows, was: Rows, u: Upload, existing: seq<Snapshot>, names: set<string>,
                       forbidden: set<string>, loadedForbidden: set<string>)
    requires AllAllowed(rows, forbidden) && AllAllowed(was, loadedForbidden) && MayAdd(names, forbidden, loadedForbidden)
    requires Loads(existing, was, u.tenantId, Types(u.batch))
    requires forall k :: 0 <= k < |u.batch| ==> u.batch[k].op.data.Keys <= names
    ensures AllAllowed(Written(rows, u, existing), forbidden)
  {
    var after, next := Replayed(u.batch, existing), Written(rows, u, existing);
    var ups := Upserts(u.batch, after);
    forall k | k in next ensures Allowed(next[k].row, forbidden) {
      DeletedAt(Upserted(rows, u.tenantId, ups), u.tenantId, Deletes(u.batch, after), k);
      UpsertedAt(rows, u.tenantId, ups, k);
      if exists v :: v in ups && DurableKey(u.tenantId, v.typ, Render(v.id)) == k {
        var v :| v in ups && Get(Upserted(rows, u.tenantId, ups), k) == Some(Stored(u.tenantId, v));
        var t := UpsertComesFrom(u.batch, after, v);
        LoadedIsAllowed(was, u.tenantId, Types(u.batch), existing, loadedForbidden, KeyOf(t.op));
        ReplayAddsOnly(Hydrated(existing), u.batch, KeyOf(t.op), names);
        assert next[k].row == v && v.data.Keys == FieldNames(after, KeyOf(t.op));
      } else {
        assert next[k] == rows[k];
      }
    }
  }

  /** The field of an upload that has not written yet. */
  ghost function Unwritten(events: seq<Event>, i: nat, j: nat, n: nat): set<string>
    requires n <= |events|
  {
    (if Before(events, Write(i), n) then {} else {"f"}) + (if Before(events, Write(j), n) then {} else {"g"})
  }

  lemma UnwrittenShrinks(events: seq<Event>, i: nat, j: nat, m: nat, n: nat)
    requires m <= n <= |events|
    ensures Unwritten(events, i, j, n) <= Unwritten(events, i, j, m)
  {
  }

  lemma MarkedMayAdd(events: seq<Event>, n: nat, i: nat, j: nat, p: nat, q: nat, r: nat, load: nat, write: nat)
    requires Schedule(events, n) && WritesBetween(events, i, j, p, q, r)
    requires load < write < |events| && events[write].Write? && events[load] == Load(events[write].upload)
    ensures MayAdd(Payload(events[write].upload, i, j).Keys,
                   Unwritten(events, i, j, write + 1), Unwritten(events, i, j, load))
  {
    var m := events[write].upload;
    UnwrittenShrinks(events, i, j, load, write + 1);
    assert events[write] == Write(m);
    assert Before(events, Write(m), write + 1);
    if m == i {
      assert load == p && write == r;
      assert !Before(events, Write(j), p);
    } else if m == j {
      assert write == q;
      assert !Before(events, Write(i), load);
    }
  }

  lemma NextHasNotBoth(events: seq<Event>, uploads: seq<Upload>, states: seq<Rows>, loaded: seq<seq<Snapshot>>,
                       i: nat, j: nat, p: nat, q: nat, r: nat, k: nat)
    requires Schedule(events, |uploads|) && IsRun(events, uploads, states, loaded) && WritesBetween(events, i, j, p, q, r)
    requires forall m :: 0 <= m < |uploads| ==> IsMarked(uploads[m], Payload(m, i, j))
    requires k < |events| && events[k].Write?
    requires forall m :: 0 <= m <= k ==> AllAllowed(states[m], Unwritten(events, i, j, m))
    ensures AllAllowed(states[k + 1], Unwritten(events, i, j, k + 1))
  {
    var m := events[k].upload;
    var u := uploads[m];
    assert Before(events, Load(m), k);
    var load :| 0 <= load < k && events[load] == Load(m);
    assert StepAt(events, uploads, states, loaded, load) && StepAt(events, uploads, states, loaded, k);
    MarkedMayAdd(events, |uploads|, i, j, p, q, r, load, k);
    assert forall l :: 0 <= l < |u.batch| ==> IsMark(u.batch[l], Payload(m, i, j));
    UnwrittenShrinks(events, i, j, k, k + 1);
    assert AllAllowed(states[k], Unwritten(events, i, j, k + 1)) by {
      assert forall key :: key in states[k] ==> Allowed(states[k][key].row, Unwritten(events, i, j, k));
    }
    WriteIsAllowed(states[k], states[load], u, loaded[m], Payload(m, i, j).Keys,
                   Unwritten(events, i, j, k + 1), Unwritten(events, i, j, load));
  }

  /** However such a run goes, no row ever has both fields. */
  lemma {:induction false} NeverBoth(events: seq<Event>, uploads: seq<Upload>, states: seq<Rows>, loaded: seq<seq<Snapshot>>,
                                     i: nat, j: nat, p: nat, q: nat, r: nat, n: nat)
    requires Schedule(events, |uploads|) && IsRun(events, uploads, states, loaded) && WritesBetween(events, i, j, p, q, r)
    requires states[0] == map[] && forall m :: 0 <= m < |uploads| ==> IsMarked(uploads[m], Payload(m, i, j))
    requires n <= |events|
    ensures forall m :: 0 <= m <= n ==> AllAllowed(states[m], Unwritten(events, i, j, m))
  {
    if n > 0 {
      var k := n - 1;
      NeverBoth(events, uploads, states, loaded, i, j, p, q, r, k);
      if events[k].Write? {
        NextHasNotBoth(events, uploads, states, loaded, i, j, p, q, r, k);
      } else {
        assert StepAt(events, uploads, states, loaded, k);
        UnwrittenShrinks(events, i, j, k, n);
        assert forall key :: key in states[k] ==> Allowed(states[k][key].row, Unwritten(events, i, j, k));
      }
    }
  }

  /** Inserting uploads leave every field where it is, and add their own. */
  lemma {:induction false} DirectMarks(rows: Rows, tenantId: string, batch: Batch, data: Fields, k: string, name: string)
    requires StoredUpTo(rows, 0) && forall l :: 0 <= l < |batch| ==> IsMark(batch[l], data)
    requires name != "id" && name != "updatedAt"
    ensures StoredUpTo(Direct(rows, tenantId, batch), 0)
    ensures StoredField(rows, k, name).Some? || (name in data && exists t :: t in batch && AddressOf(tenantId, t.op) == k)
            ==> StoredField(Direct(rows, tenantId, batch), k, name).Some?
  {
    if batch != [] {
      var n := |batch| - 1;
      assert forall l :: 0 <= l < n ==> batch[..n][l] == batch[l];
      DirectMarks(rows, tenantId, batch[..n], data, k, name);
      assert IsMark(batch[n], data);
      assert batch == batch[..n] + [batch[n]];
      OneMark(Direct(rows, tenantId, batch[..n]), tenantId, batch[n], data, k, name);
    }
  }

  lemma OneMark(rows: Rows, tenantId: string, t: Timed, data: Fields, k: string, name: string)
    requires StoredUpTo(rows, 0) && IsMark(t, data) && name != "id" && name != "updatedAt"
    ensures StoredUpTo(DirectOp(rows, tenantId, t), 0)
    ensures StoredField(rows, k, name).Some? || (name in data && AddressOf(tenantId, t.op) == k)
            ==> StoredField(DirectOp(rows, tenantId, t), k, name).Some?
  {
    var a := AddressOf(tenantId, t.op);
    if a in rows {
      assert SnapshotUpTo(rows[a].row, 0);
      assert t.op.data - {} == t.op.data;
    }
  }

  /** Applied in write order, both fields arrive. */
  lemma {:induction false} InOrderBothArrive(events: seq<Event>, uploads: seq<Upload>, i: nat, j: nat, k: string, n: nat)
    requires n <= |events| && forall l :: 0 <= l < |events| ==> events[l].upload < |uploads|
    requires forall m :: 0 <= m < |uploads| ==> IsMarked(uploads[m], Payload(m, i, j))
    requires i < |uploads| && j < |uploads| && i != j
    requires Addresses(uploads[i], k) && Addresses(uploads[j], k)
    ensures var rows := InWriteOrder(events, uploads, map[], n);
            && StoredUpTo(rows, 0)
            && (Before(events, Write(i), n) ==> StoredField(rows, k, "f").Some?)
            && (Before(events, Write(j), n) ==> StoredField(rows, k, "g").Some?)
  {
    if n > 0 {
      InOrderBothArrive(events, uploads, i, j, k, n - 1);
      var rows, m := InWriteOrder(events, uploads, map[], n - 1), events[n - 1].upload;
      if events[n - 1].Write? {
        assert IsMarked(uploads[m], Payload(m, i, j));
        DirectMarks(rows, uploads[m].tenantId, uploads[m].batch, Payload(m, i, j), k, "f");
        DirectMarks(rows, uploads[m].tenantId, uploads[m].batch, Payload(m, i, j), k, "g");
      }
      HappenedOrNow(events, Write(i), n);
      HappenedOrNow(events, Write(j), n);
    }
  }

  lemma HappenedOrNow(events: seq<Event>, e: Event, n: nat)
    requires 0 < n <= |events|
    ensures Before(events, e, n) ==> Before(events, e, n - 1) || events[n - 1] == e
  {
  }

  ghost predicate Addresses(u: Upload, k: string) {
    exists t :: t in u.batch && AddressOf(u.tenantId, t.op) == k
  }

  lemma SharedAddress(u: Upload, v: Upload, u': Upload, v': Upload) returns (k: string)
    requires Share(u, v) && SameAddresses(u', u) && SameAddresses(v', v)
    ensures Addresses(u', k) && Addresses(v', k)
  {
    Mirrored(u', u);
    Mirrored(v', v);
    SameSharing(u, v, u', v');
    var t, s :| t in u'.batch && s in v'.batch && AddressOf(u'.tenantId, t.op) == AddressOf(v'.tenantId, s.op);
    k := AddressOf(u'.tenantId, t.op);
  }

  lemma BothAreNotAllowed(rows: Rows, k: string, forbidden: set<string>)
    requires AllAllowed(rows, forbidden)
    ensures !(StoredField(rows, k, "f").Some? && StoredField(rows, k, "g").Some?)
  {
    if k in rows {
      assert Allowed(rows[k].row, forbidden);
    }
  }

  /** Two uploads that share an address and of which one writes between the other's load and
      write: with these payloads and on the empty store one of them is lost. */
  lemma SharedAddressLosesAnUpdate(events: seq<Event>, shape: seq<Upload>, i: nat, j: nat, p: nat, q: nat, r: nat)
    returns (states: seq<Rows>, loaded: seq<seq<Snapshot>>)
    requires Schedule(events, |shape|) && OneMeaning(shape) && WritesBetween(events, i, j, p, q, r)
    requires Share(shape[i], shape[j])
    ensures var uploads := Marked(shape, i, j);
            && IsRun(events, uploads, states, loaded) && Careful(states[0], uploads)
            && states[|events|] != InWriteOrder(events, uploads, states[0], |events|)
  {
    var uploads := Marked(shape, i, j);
    states, loaded := SomeRun(events, uploads, map[]);
    MarkedIsCareful(shape, i, j);
    var k := SharedAddress(shape[i], shape[j], uploads[i], uploads[j]);
    MarkedRunLosesAnUpdate(events, uploads, states, loaded, i, j, p, q, r, k);
  }

  lemma MarkedRunLosesAnUpdate(events: seq<Event>, uploads: seq<Upload>, states: seq<Rows>, loaded: seq<seq<Snapshot>>,
                               i: nat, j: nat, p: nat, q: nat, r: nat, k: string)
    requires Schedule(events, |uploads|) && IsRun(events, uploads, states, loaded) && WritesBetween(events, i, j, p, q, r)
    requires states[0] == map[] && forall m :: 0 <= m < |uploads| ==> IsMarked(uploads[m], Payload(m, i, j))
    requires Addresses(uploads[i], k) && Addresses(uploads[j], k)
    ensures states[|events|] != InWriteOrder(events, uploads, states[0], |events|)
  {
    var n := |events|;
    NeverBoth(events, uploads, states, loaded, i, j, p, q, r, n);
    BothAreNotAllowed(states[n], k, Unwritten(events, i, j, n));
    InOrderBothArrive(events, uploads, i, j, k, n);
    assert Before(events, Write(i), n) && Before(events, Write(j), n);
  }

  // ------------------------------------------------------------ the exact condition

  /** Whatever uploads with these addresses carry, on every store and at every time, the store
      ends up as if each had been applied directly in the order of the writes, exactly when no
      upload writes an address of another between that one's load and write. */
  lemma WriteOrderIsDirectExactlyWhenDisjoint(events: seq<Event>, shape: seq<Upload>)
    requires Schedule(events, |shape|) && OneMeaning(shape)
    ensures Disjoint(events, shape) <==>
            forall uploads, states, loaded ::
              (AllSameAddresses(uploads, shape) && IsRun(events, uploads, states, loaded) && Careful(states[0], uploads)) ==>
              states[|events|] == InWriteOrder(events, uploads, states[0], |events|)
  {
    if Disjoint(events, shape) {
      forall uploads, states, loaded |
        AllSameAddresses(uploads, shape) && IsRun(events, uploads, states, loaded) && Careful(states[0], uploads)
        ensures states[|events|] == InWriteOrder(events, uploads, states[0], |events|)
      {
        SameDisjoint(events, uploads, shape);
        DisjointRunIsGood(events, uploads, states, loaded, |events|);
        assert Good(events, uploads, states, |events|);
      }
    } else {
      var i: nat, j: nat, p: nat, q: nat, r: nat :| WritesBetween(events, i, j, p, q, r) && Share(shape[i], shape[j]);
      var states, loaded := SharedAddressLosesAnUpdate(events, shape, i, j, p, q, r);
      assert AllSameAddresses(Marked(shape, i, j), shape);
    }
  }

  // ------------------------------------------------------------ one tenant

  /** The operations of the uploads that have written, in the order of the writes. */
  function WrittenOps(events: seq<Event>, uploads: seq<Upload>, n: nat): Batch
    requires n <= |events| && forall k :: 0 <= k < |events| ==> events[k].upload < |uploads|
  {
    if n == 0 then []
    else if events[n - 1].Load? then WrittenOps(events, uploads, n - 1)
    else WrittenOps(events, uploads, n - 1) + uploads[events[n - 1].upload].batch
  }

  lemma {:induction false} InWriteOrderIsDirect(events: seq<Event>, uploads: seq<Upload>, rows: Rows, tenantId: string, n: nat)
    requires n <= |events| && forall k :: 0 <= k < |events| ==> events[k].upload < |uploads|
    requires forall i :: 0 <= i < |uploads| ==> uploads[i].tenantId == tenantId
    ensures InWriteOrder(events, uploads, rows, n) == Direct(rows, tenantId, WrittenOps(events, uploads, n))
  {
    if n > 0 {
      InWriteOrderIsDirect(events, uploads, rows, tenantId, n - 1);
      if events[n - 1].Write? {
        RunConcatenates(rows, WrittenOps(events, uploads, n - 1), uploads[events[n - 1].upload].batch, Directly(tenantId));
      }
    }
  }

  lemma {:induction false} WrittenFrom(events: seq<Event>, uploads: seq<Upload>, n: nat, t: Timed) returns (i: nat)
    requires n <= |events| && forall k :: 0 <= k < |events| ==> events[k].upload < |uploads|
    requires t in WrittenOps(events, uploads, n)
    ensures i < |uploads| && t in uploads[i].batch
  {
    if events[n - 1].Write? && t in uploads[events[n - 1].upload].batch {
      i := events[n - 1].upload;
    } else {
      i := WrittenFrom(events, uploads, n - 1, t);
    }
  }

  lemma WrittenOpsAreUnambiguous(events: seq<Event>, uploads: seq<Upload>, rows: Rows, tenantId: string)
    requires forall k :: 0 <= k < |events| ==> events[k].upload < |uploads|
    requires forall i :: 0 <= i < |uploads| ==> uploads[i].tenantId == tenantId
    requires Careful(rows, uploads)
    ensures Unambiguous(rows, tenantId, WrittenOps(events, uploads, |events|))
  {
    var all := WrittenOps(events, uploads, |events|);
    forall x, y | 0 <= x < |all| && 0 <= y < |all| && KeyOf(all[x].op) == KeyOf(all[y].op)
      ensures all[x].op.typ == all[y].op.typ && all[x].op.id == all[y].op.id
    {
      var i := WrittenFrom(events, uploads, |events|, all[x]);
      var j := WrittenFrom(events, uploads, |events|, all[y]);
      assert MeanOne(uploads[i], uploads[j]);
      KeysAgree(tenantId, all[x].op.typ, all[x].op.id, all[y].op.typ, all[y].op.id);
    }
    forall x | 0 <= x < |all| && AddressOf(tenantId, all[x].op) in rows
      ensures Means(rows[AddressOf(tenantId, all[x].op)], tenantId, all[x].op)
    {
      var i := WrittenFrom(events, uploads, |events|, all[x]);
      var m :| 0 <= m < |uploads[i].batch| && uploads[i].batch[m] == all[x];
      assert RowsAreMeant(rows, uploads[i].tenantId, uploads[i].batch);
    }
  }

  /** Where the uploads that overlap share no address, and the clock does not go back on a row,
      every field of the row is its last write in the order of the writes. */
  lemma OverlappingFieldsAreLastWrites(events: seq<Event>, uploads: seq<Upload>, states: seq<Rows>,
                                       loaded: seq<seq<Snapshot>>, tenantId: string, start: int, t: Timed, name: string)
    requires Schedule(events, |uploads|) && IsRun(events, uploads, states, loaded) && Disjoint(events, uploads)
    requires Careful(states[0], uploads) && forall i :: 0 <= i < |uploads| ==> uploads[i].tenantId == tenantId
    requires var all := WrittenOps(events, uploads, |events|);
             t in all && RunsForwardFrom(OnKey(all, KeyOf(t.op)), start)
    requires StoredUpTo(states[0], start) && name != "id" && name != "updatedAt"
    ensures var k := AddressOf(tenantId, t.op);
            StoredField(states[|events|], k, name)
            == Left(TrailOf(WrittenOps(events, uploads, |events|), KeyOf(t.op), name), StoredField(states[0], k, name))
  {
    DisjointRunIsGood(events, uploads, states, loaded, |events|);
    assert Good(events, uploads, states, |events|);
    InWriteOrderIsDirect(events, uploads, states[0], tenantId, |events|);
    WrittenOpsAreUnambiguous(events, uploads, states[0], tenantId);
    DirectFieldsAreLastWrites(states[0], tenantId, WrittenOps(events, uploads, |events|), start, t, name);
  }

  // ------------------------------------------------------------ a lost update

  lemma PatchLeavesOthers(rows: Rows, tenantId: string, t: Timed, name: string)
    requires WellKept(rows) && t.op.kind == PATCH && AddressOf(tenantId, t.op) in rows
    requires name !in t.op.data && name != "id" && name != "updatedAt"
    ensures var k := AddressOf(tenantId, t.op);
            StoredField(DirectOp(rows, tenantId, t), k, name) == StoredField(rows, k, name)
  {
  }

  lemma PatchWrites(rows: Rows, tenantId: string, t: Timed, name: string)
    requires t.op.kind == PATCH && AddressOf(tenantId, t.op) in rows && StoredUpTo(rows, t.first)
    requires name in t.op.data && name != "id" && name != "updatedAt"
    ensures StoredField(DirectOp(rows, tenantId, t), AddressOf(tenantId, t.op), name) == Some(t.op.data[name])
  {
    assert SnapshotUpTo(rows[AddressOf(tenantId, t.op)].row, t.first);
    assert t.op.data - {} == t.op.data;
  }

  /** A write of one operation leaves its row as the operation makes it from what was loaded. */
  lemma OneOpWrite(rows: Rows, was: Rows, u: Upload, existing: seq<Snapshot>, t: Timed)
    requires WellKept(was) && RowsAreMeant(was, u.tenantId, u.batch) && MeanOne(u, u)
    requires u.batch == [t] && KeepsIds(u.batch) && ClockRunsForward(u.batch)
    requires Loads(existing, was, u.tenantId, Types(u.batch))
    ensures var k := AddressOf(u.tenantId, t.op);
            Get(Written(rows, u, existing), k) == Get(DirectOp(was, u.tenantId, t), k)
  {
    MeaningIsUnambiguous(was, u);
    assert t in u.batch;
    WriteLeavesWhatWasLoaded(rows, was, u, existing, AddressOf(u.tenantId, t.op));
    RunOfOne(was, t, Directly(u.tenantId));
  }

  /** Two uploads of one row load it before either writes. The first one's field is stored, and
      gone again after the second one's write, which never names it. */
  lemma OverlapLosesAnUpdate(uploads: seq<Upload>, states: seq<Rows>, loaded: seq<seq<Snapshot>>,
                             first: Timed, second: Timed, name: string)
    requires IsRun([Load(0), Load(1), Write(0), Write(1)], uploads, states, loaded)
    requires |uploads| == 2 && uploads[0].batch == [first] && uploads[1].batch == [second]
    requires first.op.kind == second.op.kind == PATCH
    requires AddressOf(uploads[0].tenantId, first.op) == AddressOf(uploads[1].tenantId, second.op)
    requires AddressOf(uploads[0].tenantId, first.op) in states[0]
    requires name in first.op.data && name !in second.op.data && name != "id" && name != "updatedAt"
    requires Careful(states[0], uploads) && StoredUpTo(states[0], first.first)
    ensures var k := AddressOf(uploads[0].tenantId, first.op);
            && StoredField(states[3], k, name) == Some(first.op.data[name])
            && StoredField(states[4], k, name) == StoredField(states[0], k, name)
  {
    var events := [Load(0), Load(1), Write(0), Write(1)];
    assert StepAt(events, uploads, states, loaded, 0) && StepAt(events, uploads, states, loaded, 1);
    assert StepAt(events, uploads, states, loaded, 2) && StepAt(events, uploads, states, loaded, 3);
    assert MeanOne(uploads[0], uploads[0]) && MeanOne(uploads[1], uploads[1]);
    OneOpWrite(states[2], states[0], uploads[0], loaded[0], first);
    PatchWrites(states[0], uploads[0].tenantId, first, name);
    OneOpWrite(states[3], states[1], uploads[1], loaded[1], second);
    PatchLeavesOthers(states[1], uploads[1].tenantId, second, name);
  }
}
