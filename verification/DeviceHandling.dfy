/** Sign-in handling: the decision planner (src/core/devices/device-handling.ts) and the
    runner that acts on it (src/core/devices/device-handling.runner.ts), over whole runs of
    sign-ins, expiries and activity. Fingerprints are opaque texts here. */
module DeviceHandling {
  import opened Lists

  datatype Session = Session(id: string, userId: string, fingerprint: Option<string>, lastSeenAt: int, createdAt: int)

  datatype Decision = FirstSignIn | Known | NewDevice(revoke: Option<string>)

  // ------------------------------------------------------------ the planner

  /** Strictly older: by last activity, ties by creation. */
  predicate Older(x: Session, y: Session) {
    x.lastSeenAt < y.lastSeenAt || (x.lastSeenAt == y.lastSeenAt && x.createdAt < y.createdAt)
  }

  /** The first session no other session is older than. */
  function Oldest(sessions: seq<Session>): Session
    requires |sessions| > 0
  {
    var n := |sessions| - 1;
    if n == 0 then sessions[0]
    else
      var oldest := Oldest(sessions[..n]);
      if Older(sessions[n], oldest) then sessions[n] else oldest
  }

  method SelectOldestSessionForRevoke(sessions: seq<Session>) returns (id: Option<string>)
    ensures id == if |sessions| == 0 then None else Some(Oldest(sessions).id)
    ensures id.Some? ==> exists i :: 0 <= i < |sessions| && sessions[i].id == id.value && IsFirstOldest(sessions, i)
  {
    if |sessions| == 0 { return None; }
    var oldest := sessions[0];
    var i := 1;
    while i < |sessions|
      invariant 1 <= i <= |sessions|
      invariant oldest == Oldest(sessions[..i])
    {
      var candidate := sessions[i];
      assert sessions[..i + 1][..i] == sessions[..i];
      if candidate.lastSeenAt < oldest.lastSeenAt {
        oldest := candidate;
      } else if candidate.lastSeenAt == oldest.lastSeenAt && candidate.createdAt < oldest.createdAt {
        oldest := candidate;
      }
      i := i + 1;
    }
    assert sessions[..i] == sessions;
    id := Some(oldest.id);
    ghost var first := OldestIsLeast(sessions);
  }

  /** No session was last seen before session `i`, nor at the same time and created before it;
      an earlier one of the list was seen later, or at the same time and created later. */
  ghost predicate IsFirstOldest(sessions: seq<Session>, i: nat)
    requires i < |sessions|
  {
    forall k :: 0 <= k < |sessions| ==>
      || sessions[i].lastSeenAt < sessions[k].lastSeenAt
      || (sessions[i].lastSeenAt == sessions[k].lastSeenAt && sessions[i].createdAt < sessions[k].createdAt)
      || (sessions[i].lastSeenAt == sessions[k].lastSeenAt && sessions[i].createdAt == sessions[k].createdAt && i <= k)
  }

  /** It is the session seen least recently, of those the one created first, and of those the
      first of the list. */
  lemma {:induction false} OldestIsLeast(sessions: seq<Session>) returns (i: nat)
    requires |sessions| > 0
    ensures i < |sessions| && Oldest(sessions) == sessions[i]
    ensures forall k :: 0 <= k < |sessions| ==>
              || sessions[i].lastSeenAt < sessions[k].lastSeenAt
              || (sessions[i].lastSeenAt == sessions[k].lastSeenAt && sessions[i].createdAt < sessions[k].createdAt)
              || (sessions[i].lastSeenAt == sessions[k].lastSeenAt && sessions[i].createdAt == sessions[k].createdAt && i <= k)
  {
    var n := |sessions| - 1;
    i := 0;
    if n > 0 {
      i := OldestIsLeast(sessions[..n]);
      if Older(sessions[n], sessions[i]) {
        i := n;
      }
    }
  }

  function Others(known: seq<Session>, currentId: string): seq<Session> {
    Collected(known, (s: Session) => if s.id != currentId then Some(s) else None)
  }

  function Decide(fingerprint: string, currentId: string, known: seq<Session>, cap: int): Decision {
    var others := Others(known, currentId);
    if |others| == 0 then FirstSignIn
    else if exists s :: s in others && s.fingerprint == Some(fingerprint) then Known
    else if |others| + 1 > cap then NewDevice(Some(Oldest(others).id))
    else NewDevice(None)
  }

  // ------------------------------------------------------------ the store and the runner

  type Sessions = map<string, Session>

  /** Every session is stored under its id; ids are not empty. */
  predicate WellStored(m: Sessions) {
    forall id :: id in m ==> m[id].id == id && id != ""
  }

  function UserIds(m: Sessions, userId: string): set<string> {
    set id | id in m && m[id].userId == userId
  }

  /** `listing` holds each session of the user once, in some order. */
  ghost predicate Enumerates(listing: seq<Session>, m: Sessions, userId: string) {
    && (forall s :: s in listing <==> s.userId == userId && s.id in m && m[s.id] == s)
    && forall i, j :: 0 <= i < j < |listing| ==> listing[i].id != listing[j].id
  }

  class SessionStore {
    var rows: Sessions

    method SetFingerprint(id: string, fingerprint: string)
      modifies this
      ensures rows == Stamped(old(rows), id, fingerprint)
    {
      if id in rows {
        rows := rows[id := rows[id].(fingerprint := Some(fingerprint))];
      }
    }

    method ListForUser(userId: string) returns (listing: seq<Session>)
      requires WellStored(rows)
      ensures Enumerates(listing, rows, userId)
    {
      listing := [];
      var left := rows.Keys;
      while left != {}
        invariant left <= rows.Keys
        invariant forall s :: s in listing <==> s.userId == userId && s.id in rows.Keys - left && rows[s.id] == s
        invariant forall i, j :: 0 <= i < j < |listing| ==> listing[i].id != listing[j].id
        decreases left
      {
        var id :| id in left;
        if rows[id].userId == userId {
          forall i | 0 <= i < |listing| ensures listing[i].id != id {
            assert listing[i] in listing;
          }
          listing := listing + [rows[id]];
        }
        left := left - {id};
      }
    }

    method Revoke(id: string) returns (removed: bool)
      modifies this
      ensures rows == old(rows) - {id} && removed == (id in old(rows))
    {
      removed := id in rows;
      rows := rows - {id};
    }
  }

  function Stamped(m: Sessions, id: string, fingerprint: string): Sessions {
    if id in m then m[id := m[id].(fingerprint := Some(fingerprint))] else m
  }

  /** The store after acting on a decision whose revocation succeeds. An empty id counts as
      no id. */
  function Settled(m: Sessions, decision: Decision): Sessions {
    if decision.NewDevice? && decision.revoke.Some? && decision.revoke.value != ""
    then m - {decision.revoke.value}
    else m
  }

  method HandleSessionCreated(store: SessionStore, enabled: bool, notify: bool, userFound: bool, cap: int,
                              sessionId: string, userId: string, fingerprint: string, revokeFails: bool)
    returns (emailed: bool)
    requires WellStored(store.rows)
    modifies store
    ensures !enabled ==> store.rows == old(store.rows) && !emailed
    ensures enabled ==>
              var stamped := Stamped(old(store.rows), sessionId, fingerprint);
              exists listing :: Enumerates(listing, stamped, userId) &&
                var decision := Decide(fingerprint, sessionId, listing, cap);
                && store.rows == (if revokeFails then stamped else Settled(stamped, decision))
                && (emailed <==> decision.NewDevice? && notify && userFound)
  {
    if !enabled { return false; }
    store.SetFingerprint(sessionId, fingerprint);
    var known := store.ListForUser(userId);
    var others := Others(known, sessionId);
    if |others| == 0 { return false; }
    if exists s :: s in others && s.fingerprint == Some(fingerprint) { return false; }
    if |others| + 1 > cap {
      var oldest := SelectOldestSessionForRevoke(others);
      if oldest.value != "" && !revokeFails {
        var removed := store.Revoke(oldest.value);
      }
    }
    return notify && userFound;
  }

  // ------------------------------------------------------------ runs

  datatype Event =
    | SignIn(id: string, userId: string, fingerprint: string, at: int, revokes: bool)  // whether a revocation succeeds
    | Ends(id: string)             // expiry, sign-out or revocation by the user
    | Seen(id: string, at: int)    // activity refreshes the session

  /** The store the runner sees: the new session inserted and stamped. */
  function Opened(m: Sessions, e: Event): Sessions
    requires e.SignIn?
  {
    Stamped(m[e.id := Session(e.id, e.userId, None, e.at, e.at)], e.id, e.fingerprint)
  }

  ghost predicate Step(m: Sessions, e: Event, next: Sessions, cap: int) {
    match e
    case SignIn(id, userId, fingerprint, _, revokes) =>
      && id !in m && id != ""
      && exists listing ::
           Enumerates(listing, Opened(m, e), userId)
           && next == if revokes then Settled(Opened(m, e), Decide(fingerprint, id, listing, cap)) else Opened(m, e)
    case Ends(id) => next == m - {id}
    case Seen(id, at) => next == if id in m then m[id := m[id].(lastSeenAt := at)] else m
  }

  /** Some other session of the user already carries the fingerprint. */
  predicate SeenBefore(m: Sessions, e: Event)
    requires e.SignIn?
  {
    exists id :: id in m && m[id].userId == e.userId && m[id].fingerprint == Some(e.fingerprint)
  }

  lemma OthersExactly(known: seq<Session>, currentId: string, s: Session)
    ensures s in Others(known, currentId) <==> s in known && s.id != currentId
  {
    var f := (s: Session) => if s.id != currentId then Some(s) else None;
    CollectedExactly(known, f, s);
    if s in known && s.id != currentId {
      var k :| 0 <= k < |known| && known[k] == s;
      assert f(known[k]) == Some(s);
    }
  }

  function Ids(listing: seq<Session>): set<string> {
    set s | s in listing :: s.id
  }

  lemma {:induction false} DistinctIdsCount(listing: seq<Session>)
    requires forall i, j :: 0 <= i < j < |listing| ==> listing[i].id != listing[j].id
    ensures |Ids(listing)| == |listing|
  {
    if listing != [] {
      var n := |listing| - 1;
      DistinctIdsCount(listing[..n]);
      assert listing == listing[..n] + [listing[n]];
      assert Ids(listing) == Ids(listing[..n]) + {listing[n].id};
      forall s | s in listing[..n] ensures s.id != listing[n].id {
        var k :| 0 <= k < n && listing[k] == s;
      }
    }
  }

  lemma {:induction false} OthersStayDistinct(listing: seq<Session>, currentId: string)
    requires forall i, j :: 0 <= i < j < |listing| ==> listing[i].id != listing[j].id
    ensures var o := Others(listing, currentId); forall i, j :: 0 <= i < j < |o| ==> o[i].id != o[j].id
  {
    if listing != [] {
      var n := |listing| - 1;
      OthersStayDistinct(listing[..n], currentId);
      var o := Others(listing[..n], currentId);
      forall i | 0 <= i < |o| ensures o[i].id != listing[n].id {
        OthersExactly(listing[..n], currentId, o[i]);
        var k :| 0 <= k < n && listing[k] == o[i];
      }
    }
  }

  /** The sessions the planner weighs are exactly the user's earlier ones. */
  lemma OthersAreEarlierSessions(m: Sessions, e: Event, listing: seq<Session>)
    requires WellStored(m) && e.SignIn? && e.id !in m && e.id != ""
    requires Enumerates(listing, Opened(m, e), e.userId)
    ensures |Others(listing, e.id)| == |UserIds(m, e.userId)|
    ensures forall s :: s in Others(listing, e.id) <==> s.userId == e.userId && s.id in m && m[s.id] == s
  {
    var o := Others(listing, e.id);
    forall s ensures s in o <==> s.userId == e.userId && s.id in m && m[s.id] == s {
      OthersExactly(listing, e.id, s);
    }
    OthersStayDistinct(listing, e.id);
    DistinctIdsCount(o);
    assert Ids(o) == UserIds(m, e.userId) by {
      forall id | id in UserIds(m, e.userId) ensures id in Ids(o) {
        assert m[id] in o;
      }
    }
  }

  /** The cap forces out an earlier session: only a new device on a user with sessions. */
  predicate Evicts(m: Sessions, e: Event, cap: int)
    requires e.SignIn?
  {
    var n := |UserIds(m, e.userId)|;
    n > 0 && !SeenBefore(m, e) && n + 1 > cap
  }

  /** Of the user's sessions none was seen earlier, nor at the same time and created earlier. */
  ghost predicate IsLeastSeen(m: Sessions, userId: string, id: string) {
    && id in m && m[id].userId == userId
    && forall other :: other in m && m[other].userId == userId ==>
         || m[id].lastSeenAt < m[other].lastSeenAt
         || (m[id].lastSeenAt == m[other].lastSeenAt && m[id].createdAt <= m[other].createdAt)
  }

  /** The eviction is decided and the revocation succeeds. */
  predicate Removes(m: Sessions, e: Event, cap: int)
    requires e.SignIn?
  {
    Evicts(m, e, cap) && e.revokes
  }

  /** The planner's decision, in terms of the sessions from before the sign-in. */
  lemma DecisionIs(m: Sessions, e: Event, listing: seq<Session>, cap: int)
    requires WellStored(m) && e.SignIn? && e.id !in m && e.id != ""
    requires Enumerates(listing, Opened(m, e), e.userId)
    ensures var decision := Decide(e.fingerprint, e.id, listing, cap);
            && (decision.FirstSignIn? <==> forall id :: id in m ==> m[id].userId != e.userId)
            && (decision.Known? <==> SeenBefore(m, e))
            && (decision.NewDevice? <==> |UserIds(m, e.userId)| > 0 && !SeenBefore(m, e))
            && (decision.NewDevice? && decision.revoke.Some? <==> Evicts(m, e, cap))
            && (Evicts(m, e, cap) ==> IsLeastSeen(m, e.userId, decision.revoke.value))
  {
    OthersAreEarlierSessions(m, e, listing);
    var o := Others(listing, e.id);
    if SeenBefore(m, e) {
      var id :| id in m && m[id].userId == e.userId && m[id].fingerprint == Some(e.fingerprint);
      assert m[id] in o;
    }
    if |o| > 0 {
      var i := OldestIsLeast(o);
      assert o[i] in o && o[0] in o;
      forall id | id in m && m[id].userId == e.userId
        ensures || o[i].lastSeenAt < m[id].lastSeenAt
                || (o[i].lastSeenAt == m[id].lastSeenAt && o[i].createdAt <= m[id].createdAt)
      {
        assert m[id] in o;
      }
      assert o[0].id in UserIds(m, e.userId);
    } else {
      assert UserIds(m, e.userId) == {};
      forall id | id in m ensures m[id].userId != e.userId {
        assert id !in UserIds(m, e.userId);
      }
    }
  }

  /** A sign-in inserts the session and hands it to the runner: one step of every run below.
      The mail goes out exactly for a device that is new to a user with sessions. */
  method HandleSignIn(store: SessionStore, e: Event, notify: bool, userFound: bool, cap: int) returns (emailed: bool)
    requires WellStored(store.rows) && e.SignIn? && e.id !in store.rows && e.id != ""
    modifies store
    ensures Step(old(store.rows), e, store.rows, cap)
    ensures emailed <==>
            notify && userFound && |UserIds(old(store.rows), e.userId)| > 0 && !SeenBefore(old(store.rows), e)
  {
    ghost var m := store.rows;
    store.rows := store.rows[e.id := Session(e.id, e.userId, None, e.at, e.at)];
    emailed := HandleSessionCreated(store, true, notify, userFound, cap, e.id, e.userId, e.fingerprint, !e.revokes);
    ghost var listing :| Enumerates(listing, Opened(m, e), e.userId) &&
      var decision := Decide(e.fingerprint, e.id, listing, cap);
      && store.rows == (if e.revokes then Settled(Opened(m, e), decision) else Opened(m, e))
      && (emailed <==> decision.NewDevice? && notify && userFound);
    DecisionIs(m, e, listing, cap);
  }

  /** What one sign-in does: nothing but record the new session, unless it is a new device
      over the cap and the revocation succeeds; then it evicts the user's least recently seen
      earlier session. Its own session always stays. */
  lemma SignInOutcome(m: Sessions, e: Event, next: Sessions, cap: int) returns (victim: Option<string>)
    requires WellStored(m) && e.SignIn? && Step(m, e, next, cap)
    ensures WellStored(next)
    ensures e.id in next && next[e.id] == Session(e.id, e.userId, Some(e.fingerprint), e.at, e.at)
    ensures forall id :: id != e.id ==> (id in next <==> id in m && Some(id) != victim)
    ensures forall id :: id in next && id != e.id ==> next[id] == m[id]
    ensures victim.Some? <==> Removes(m, e, cap)
    ensures victim.Some? ==> IsLeastSeen(m, e.userId, victim.value)
    ensures next == Without(Opened(m, e), victim)
  {
    var listing :| Enumerates(listing, Opened(m, e), e.userId)
                   && next == if e.revokes then Settled(Opened(m, e), Decide(e.fingerprint, e.id, listing, cap))
                              else Opened(m, e);
    var decision := Decide(e.fingerprint, e.id, listing, cap);
    DecisionIs(m, e, listing, cap);
    victim := if decision.NewDevice? && e.revokes then decision.revoke else None;
    assert victim.Some? ==> victim.value in m;
  }

  lemma OpenedIds(m: Sessions, e: Event, userId: string)
    requires e.SignIn? && e.id !in m
    ensures UserIds(Opened(m, e), userId) == UserIds(m, userId) + if userId == e.userId then {e.id} else {}
  {
  }

  lemma RemovedIds(m: Sessions, id: string, userId: string)
    ensures UserIds(m - {id}, userId) == UserIds(m, userId) - {id}
  {
  }

  lemma SwapSize<T>(s: set<T>, x: T, v: T)
    requires x !in s && v in s
    ensures |s + {x} - {v}| == |s|
  {
    assert s + {x} - {v} == (s - {v}) + {x};
  }

  function Without(m: Sessions, victim: Option<string>): Sessions {
    if victim.Some? then m - {victim.value} else m
  }

  lemma SizesAfter(m: Sessions, e: Event, victim: Option<string>, userId: string)
    requires WellStored(m) && e.SignIn? && e.id !in m
    requires victim.Some? ==> victim.value in UserIds(m, e.userId)
    ensures var next := Without(Opened(m, e), victim);
            if userId != e.userId then UserIds(next, userId) == UserIds(m, userId)
            else |UserIds(next, userId)| == |UserIds(m, userId)| + if victim.Some? then 0 else 1
  {
    OpenedIds(m, e, userId);
    if victim.Some? {
      RemovedIds(Opened(m, e), victim.value, userId);
      if userId == e.userId {
        SwapSize(UserIds(m, userId), e.id, victim.value);
      }
    }
  }

  lemma SignInSizes(m: Sessions, e: Event, next: Sessions, cap: int, userId: string)
    requires WellStored(m) && e.SignIn? && Step(m, e, next, cap)
    ensures if userId != e.userId then UserIds(next, userId) == UserIds(m, userId)
            else |UserIds(next, userId)| == |UserIds(m, userId)| + if Removes(m, e, cap) then 0 else 1
  {
    var victim := SignInOutcome(m, e, next, cap);
    SizesAfter(m, e, victim, userId);
  }

  /** The devices a user is signed in from. */
  function Devices(m: Sessions, userId: string): set<Option<string>> {
    set id | id in UserIds(m, userId) :: m[id].fingerprint
  }

  predicate SharesDevice(m: Sessions, userId: string, victim: string)
    requires victim in m
  {
    exists id :: id in UserIds(m, userId) && id != victim && m[id].fingerprint == m[victim].fingerprint
  }

  lemma DevicesAfter(m: Sessions, e: Event, victim: string)
    requires WellStored(m) && e.SignIn? && e.id !in m && !SeenBefore(m, e)
    requires victim in UserIds(m, e.userId)
    ensures |Devices(Opened(m, e) - {victim}, e.userId)|
            == |Devices(m, e.userId)| + if SharesDevice(m, e.userId, victim) then 1 else 0
  {
    var u, f, g := e.userId, Some(e.fingerprint), m[victim].fingerprint;
    var next := Opened(m, e) - {victim};
    OpenedIds(m, e, u);
    RemovedIds(Opened(m, e), victim, u);
    var before, after := Devices(m, u), Devices(next, u);
    assert f !in before && g in before;
    assert e.id in UserIds(next, u) && next[e.id].fingerprint == f;
    forall d | d in before && d != g ensures d in after {
      var id :| id in UserIds(m, u) && m[id].fingerprint == d;
      assert id in UserIds(next, u) && next[id].fingerprint == d;
    }
    if SharesDevice(m, u, victim) {
      var id :| id in UserIds(m, u) && id != victim && m[id].fingerprint == g;
      assert id in UserIds(next, u) && next[id].fingerprint == g;
      assert after == before + {f};
    } else {
      assert after == before + {f} - {g};
      SwapSize(before, f, g);
    }
  }

  /** Eviction takes a session, not a device: the number of devices still grows by one
      exactly when another earlier session shares the evicted one's device. */
  lemma EvictionAddsADeviceExactlyWhen(m: Sessions, e: Event, next: Sessions, cap: int) returns (victim: string)
    requires WellStored(m) && e.SignIn? && Step(m, e, next, cap) && Removes(m, e, cap)
    ensures IsLeastSeen(m, e.userId, victim) && next == Opened(m, e) - {victim}
    ensures |Devices(next, e.userId)| == |Devices(m, e.userId)| + if SharesDevice(m, e.userId, victim) then 1 else 0
  {
    var v := SignInOutcome(m, e, next, cap);
    victim := v.value;
    DevicesAfter(m, e, victim);
  }

  /** A sign-in leaves the user within the cap exactly when there was room, or when it is a
      new device, the user was within the cap before and the revocation succeeds. A known
      device is never weighed. */
  lemma SignInRespectsCapExactlyWhen(m: Sessions, e: Event, next: Sessions, cap: int)
    requires WellStored(m) && e.SignIn? && Step(m, e, next, cap)
    ensures var n := |UserIds(m, e.userId)|;
            |UserIds(next, e.userId)| <= cap <==> n + 1 <= cap || (0 < n <= cap && !SeenBefore(m, e) && e.revokes)
  {
    SignInSizes(m, e, next, cap, e.userId);
  }

  ghost predicate IsRun(states: seq<Sessions>, events: seq<Event>, cap: int) {
    |states| == |events| + 1 && forall i :: 0 <= i < |events| ==> Step(states[i], events[i], states[i + 1], cap)
  }

  /** How many sign-ins of the user came from a device already on record. */
  function KnownSignIns(states: seq<Sessions>, events: seq<Event>, userId: string): nat
    requires |states| == |events| + 1
  {
    if events == [] then 0
    else
      var n := |events| - 1;
      KnownSignIns(states[..n + 1], events[..n], userId)
      + if events[n].SignIn? && events[n].userId == userId && SeenBefore(states[n], events[n]) then 1 else 0
  }

  /** How many evictions of the user's sessions failed. */
  function FailedEvictions(states: seq<Sessions>, events: seq<Event>, cap: int, userId: string): nat
    requires |states| == |events| + 1
  {
    if events == [] then 0
    else
      var n := |events| - 1;
      var e := events[n];
      FailedEvictions(states[..n + 1], events[..n], cap, userId)
      + if e.SignIn? && e.userId == userId && Evicts(states[n], e, cap) && !e.revokes then 1 else 0
  }

  function Max(x: int, y: int): int {
    if x < y then y else x
  }

  lemma StepKeepsStore(m: Sessions, e: Event, next: Sessions, cap: int)
    requires WellStored(m) && Step(m, e, next, cap)
    ensures WellStored(next)
  {
    if e.SignIn? {
      var victim := SignInOutcome(m, e, next, cap);
    }
  }

  lemma StepGrows(m: Sessions, e: Event, next: Sessions, cap: int, userId: string)
    requires WellStored(m) && Step(m, e, next, cap)
    ensures var before, after := |UserIds(m, userId)|, |UserIds(next, userId)|;
            if e.SignIn? && e.userId == userId && (SeenBefore(m, e) || (Evicts(m, e, cap) && !e.revokes)) then after == before + 1
            else after <= before || after <= Max(1, cap)
  {
    match e
    case SignIn(_, _, _, _, _) =>
      SignInSizes(m, e, next, cap, userId);
    case Ends(id) =>
      RemovedIds(m, id, userId);
    case Seen(_, _) =>
      assert UserIds(next, userId) == UserIds(m, userId);
  }

  /** Over every run of sign-ins, expiries and activity, a user never holds more sessions than
      the cap (at least one) plus the sign-ins from known devices and the evictions that
      failed. */
  lemma {:induction false} SessionsAreBounded(states: seq<Sessions>, events: seq<Event>, cap: int, userId: string)
    requires IsRun(states, events, cap) && WellStored(states[0])
    ensures WellStored(states[|events|])
    ensures |UserIds(states[|events|], userId)| <=
            Max(|UserIds(states[0], userId)|, Max(1, cap))
            + KnownSignIns(states, events, userId) + FailedEvictions(states, events, cap, userId)
    decreases |events|
  {
    if events != [] {
      var n := |events| - 1;
      SessionsAreBounded(states[..n + 1], events[..n], cap, userId);
      assert Step(states[n], events[n], states[n + 1], cap);
      StepKeepsStore(states[n], events[n], states[n + 1], cap);
      StepGrows(states[n], events[n], states[n + 1], cap, userId);
    }
  }
}
