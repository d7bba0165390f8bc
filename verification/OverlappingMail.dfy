/** New-device mails whose sends overlap. `sendNewDevice`
    (src/core/auth/better-auth-email-hooks.runner.ts) waits for the sender between the
    throttle's check and its record, so the checks and the finishes of several calls interleave. */
module OverlappingMail {
  import opened Lists
  import opened NewDeviceMail

  /** One call: for whom, whether the payload builds, and whether the sender accepts it. */
  datatype Call = Call(user: string, builds: bool, accepted: bool)

  predicate Good(c: Call) {
    c.builds && c.accepted
  }

  /** Call number `call` checks the throttle, or its sender returns. */
  datatype Event = Check(call: nat) | Finish(call: nat)

  /** An interleaving: every event happens once, and a call finishes after its check. */
  ghost predicate Schedule(events: seq<Event>) {
    && (forall j, k :: 0 <= j < k < |events| ==> events[j] != events[k])
    && (forall k :: 0 <= k < |events| && events[k].Finish? ==> CheckedBefore(events, events[k].call, k))
  }

  ghost predicate CheckedBefore(events: seq<Event>, call: nat, k: nat)
    requires k <= |events|
  {
    exists p :: 0 <= p < k && events[p] == Check(call)
  }

  /** Clock readings for `n` events; the clock may stand still but never goes back. */
  predicate Clock(times: seq<int>, n: nat) {
    |times| == n && forall j, k :: 0 <= j < k < n ==> times[j] <= times[k]
  }

  /** The throttle's entries, the calls it let through, and which finishes delivered a mail. */
  datatype Moment = Moment(last: LastSent, granted: set<nat>, delivered: seq<nat>)

  function Step(m: Moment, event: Event, k: nat, now: int, caller: Call, window: int): Moment {
    match event
    case Check(c) =>
      var last := Checked(m.last, caller.user, now, window);
      if Decide(m.last, caller.user, now, window) == Allowed then Moment(last, m.granted + {c}, m.delivered)
      else m.(last := last)
    case Finish(c) =>
      if c in m.granted && Good(caller)
      then Moment(m.last[caller.user := now], m.granted, m.delivered + [k])
      else m
  }

  /** A run of one throttle, from its creation, through the first `n` events. */
  function After(events: seq<Event>, times: seq<int>, calls: nat -> Call, window: int, n: nat): Moment
    requires n <= |events| == |times|
  {
    if n == 0 then Moment(map[], {}, [])
    else
      var k := n - 1;
      Step(After(events, times, calls, window, k), events[k], k, times[k], calls(events[k].call), window)
  }

  /** The user whose call event `k` belongs to. */
  function UserAt(events: seq<Event>, calls: nat -> Call, k: nat): string
    requires k < |events|
  {
    calls(events[k].call).user
  }

  /** Two calls for one user, both able to deliver, each checking before the other finishes. */
  predicate Overlap(events: seq<Event>, calls: nat -> Call, ci: nat, fi: nat, cj: nat, fj: nat)
  {
    && ci < |events| && fi < |events| && cj < |events| && fj < |events|
    && events[ci].Check? && events[fi] == Finish(events[ci].call)
    && events[cj].Check? && events[fj] == Finish(events[cj].call)
    && ci != cj && UserAt(events, calls, ci) == UserAt(events, calls, cj)
    && Good(calls(events[ci].call)) && Good(calls(events[cj].call))
    && ci < fj && cj < fi
  }

  ghost predicate Overlapping(events: seq<Event>, calls: nat -> Call)
  {
    exists ci, fi, cj, fj :: Overlap(events, calls, ci, fi, cj, fj)
  }

  /** Any two mails to one user are at least a window apart. */
  predicate Spaced(events: seq<Event>, times: seq<int>, calls: nat -> Call, delivered: seq<nat>, window: int)
    requires |events| == |times|
  {
    forall i, j :: 0 <= i < j < |delivered| && delivered[i] < |events| && delivered[j] < |events|
      && UserAt(events, calls, delivered[i]) == UserAt(events, calls, delivered[j])
      ==> times[delivered[j]] - times[delivered[i]] >= window
  }

  // ------------------------------------------------------------ sends one after another

  /** Every call checks and finishes before the next one checks, at the times of `sends`. */
  ghost predicate OneByOne(events: seq<Event>, times: seq<int>, calls: nat -> Call, sends: seq<Send>) {
    && |events| == |times| == 2 * |sends|
    && forall c: nat :: c < |sends| ==> PairAt(events, times, calls, sends[c], c)
  }

  predicate PairAt(events: seq<Event>, times: seq<int>, calls: nat -> Call, s: Send, c: nat)
    requires |events| == |times| && 2 * c + 1 < |events|
  {
    && events[2 * c] == Check(c) && times[2 * c] == s.checkedAt
    && events[2 * c + 1] == Finish(c) && times[2 * c + 1] == s.recordedAt
    && calls(c) == Call(s.user, s.builds, s.accepted)
  }

  lemma CheckThenFinishIsOneSend(m: Moment, c: nat, k: nat, s: Send, window: int)
    requires c !in m.granted
    ensures var caller := Call(s.user, s.builds, s.accepted);
            var next := Step(Step(m, Check(c), k, s.checkedAt, caller, window), Finish(c), k + 1, s.recordedAt, caller, window);
            && next.last == AfterSend(m.last, s, window)
            && next.delivered == m.delivered + (if Delivers(m.last, s, window) then [k + 1] else [])
            && next.granted <= m.granted + {c}
  {
  }

  lemma AfterPair(events: seq<Event>, times: seq<int>, calls: nat -> Call, s: Send, window: int, c: nat)
    requires |events| == |times| && 2 * c + 1 < |events| && PairAt(events, times, calls, s, c)
    ensures After(events, times, calls, window, 2 * c + 2) ==
            Step(Step(After(events, times, calls, window, 2 * c), Check(c), 2 * c, s.checkedAt, calls(c), window),
                 Finish(c), 2 * c + 1, s.recordedAt, calls(c), window)
  {
    assert After(events, times, calls, window, 2 * c + 1) ==
           Step(After(events, times, calls, window, 2 * c), Check(c), 2 * c, s.checkedAt, calls(c), window);
  }

  /** The mails of the deliveries. */
  function MailsOf(events: seq<Event>, times: seq<int>, calls: nat -> Call, delivered: seq<nat>): seq<Mail> {
    Mapped(delivered, (k: nat) => if k < |events| && k < |times| then Mail(UserAt(events, calls, k), times[k]) else Mail("", 0))
  }

  lemma OneMoreMail(events: seq<Event>, times: seq<int>, calls: nat -> Call, delivered: seq<nat>, s: Send, c: nat)
    requires |events| == |times| && 2 * c + 1 < |events| && PairAt(events, times, calls, s, c)
    ensures MailsOf(events, times, calls, delivered + [2 * c + 1]) ==
            MailsOf(events, times, calls, delivered) + [Mail(s.user, s.recordedAt)]
  {
  }

  /** Where no calls overlap, the run is the run of `AfterSend`: the same entries and mails. */
  lemma {:induction false} OneByOneIsRunOfSends(events: seq<Event>, times: seq<int>, calls: nat -> Call, sends: seq<Send>,
                                                window: int, n: nat)
    requires OneByOne(events, times, calls, sends) && n <= |sends|
    ensures var m := After(events, times, calls, window, 2 * n);
            && m.last == EntriesAfter(sends[..n], window)
            && MailsOf(events, times, calls, m.delivered) == Mails(sends[..n], window)
            && forall c :: c in m.granted ==> c < n
  {
    if n > 0 {
      var c := n - 1;
      var s := sends[c];
      OneByOneIsRunOfSends(events, times, calls, sends, window, c);
      assert sends[..n][..c] == sends[..c] && sends[..n][c] == s;
      var before := After(events, times, calls, window, 2 * c);
      assert PairAt(events, times, calls, s, c);
      AfterPair(events, times, calls, s, window, c);
      CheckThenFinishIsOneSend(before, c, 2 * c, s, window);
      OneMoreMail(events, times, calls, before.delivered, s, c);
    }
  }

  // ------------------------------------------------------------ what every run keeps

  /** Deliveries are finishes of granted calls that can deliver, in the order they happened. */
  ghost predicate Sound(m: Moment, events: seq<Event>, calls: nat -> Call, n: nat)
    requires n <= |events|
  {
    && (forall i :: 0 <= i < |m.delivered| ==>
          m.delivered[i] < n && events[m.delivered[i]].Finish? && Good(calls(events[m.delivered[i]].call)))
    && (forall i, j :: 0 <= i < j < |m.delivered| ==> m.delivered[i] < m.delivered[j])
    && (forall c :: c in m.granted ==> CheckedBefore(events, c, n))
  }

  predicate IsMail(events: seq<Event>, times: seq<int>, calls: nat -> Call, k: nat, user: string, at: int) {
    k < |events| == |times| && UserAt(events, calls, k) == user && times[k] == at
  }

  /** The entry of `user`, if any, is the time of a delivery. */
  ghost predicate EntryIsMail(m: Moment, events: seq<Event>, times: seq<int>, calls: nat -> Call, user: string) {
    user in m.last ==> exists i :: 0 <= i < |m.delivered| && IsMail(events, times, calls, m.delivered[i], user, m.last[user])
  }

  /** Delivery `k` is covered by its user's entry or older than the window. */
  predicate IsCovered(last: LastSent, user: string, at: int, window: int, now: int) {
    (user in last && at <= last[user]) || now - at >= window
  }

  ghost predicate Covered(m: Moment, events: seq<Event>, times: seq<int>, calls: nat -> Call, window: int, now: int)
    requires |events| == |times|
  {
    && (forall user :: EntryIsMail(m, events, times, calls, user))
    && (forall i :: 0 <= i < |m.delivered| && m.delivered[i] < |events| ==>
          IsCovered(m.last, UserAt(events, calls, m.delivered[i]), times[m.delivered[i]], window, now))
  }

  lemma {:induction false} RunIsSound(events: seq<Event>, times: seq<int>, calls: nat -> Call, window: int, n: nat)
    requires n <= |events| == |times|
    ensures Sound(After(events, times, calls, window, n), events, calls, n)
  {
    if n > 0 {
      var k := n - 1;
      var m := After(events, times, calls, window, k);
      RunIsSound(events, times, calls, window, k);
      StepIsSound(m, events, calls, window, k, times[k]);
      assert After(events, times, calls, window, n) == Step(m, events[k], k, times[k], calls(events[k].call), window);
    }
  }

  lemma StepIsSound(m: Moment, events: seq<Event>, calls: nat -> Call, window: int, k: nat, now: int)
    requires k < |events|
    requires Sound(m, events, calls, k)
    ensures Sound(Step(m, events[k], k, now, calls(events[k].call), window), events, calls, k + 1)
  {
    var next := Step(m, events[k], k, now, calls(events[k].call), window);
    forall c | c in next.granted ensures CheckedBefore(events, c, k + 1) {
      if c in m.granted {
        var p :| 0 <= p < k && events[p] == Check(c);
      } else {
        assert events[k] == Check(c);
      }
    }
  }

  lemma {:induction false} RunIsCovered(events: seq<Event>, times: seq<int>, calls: nat -> Call, window: int, n: nat)
    requires Clock(times, |events|) && 0 < n <= |events|
    ensures Sound(After(events, times, calls, window, n), events, calls, n)
    ensures Covered(After(events, times, calls, window, n), events, times, calls, window, times[n - 1])
  {
    RunIsSound(events, times, calls, window, n);
    RunIsSound(events, times, calls, window, n - 1);
    if n > 1 {
      RunIsCovered(events, times, calls, window, n - 1);
      assert times[n - 2] <= times[n - 1];
    }
    StepCovers(After(events, times, calls, window, n - 1), events, times, calls, window, n - 1);
  }

  lemma StepCovers(m: Moment, events: seq<Event>, times: seq<int>, calls: nat -> Call, window: int, k: nat)
    requires Clock(times, |events|) && k < |events|
    requires Sound(m, events, calls, k)
    requires Covered(m, events, times, calls, window, times[k])
    ensures Covered(Step(m, events[k], k, times[k], calls(events[k].call), window), events, times, calls, window, times[k])
  {
    var next := Step(m, events[k], k, times[k], calls(events[k].call), window);
    forall u ensures EntryIsMail(next, events, times, calls, u) {
      assert EntryIsMail(m, events, times, calls, u);
      StepKeepsEntry(m, events, times, calls, window, k, u);
    }
    forall i | 0 <= i < |next.delivered| && next.delivered[i] < |events|
      ensures IsCovered(next.last, UserAt(events, calls, next.delivered[i]), times[next.delivered[i]], window, times[k])
    {
      if i < |m.delivered| {
        assert next.delivered[i] == m.delivered[i];
        assert times[m.delivered[i]] <= times[k];
      }
    }
  }

  lemma StepKeepsEntry(m: Moment, events: seq<Event>, times: seq<int>, calls: nat -> Call, window: int, k: nat, u: string)
    requires k < |events| == |times|
    requires EntryIsMail(m, events, times, calls, u)
    ensures EntryIsMail(Step(m, events[k], k, times[k], calls(events[k].call), window), events, times, calls, u)
  {
    var next := Step(m, events[k], k, times[k], calls(events[k].call), window);
    if next.delivered != m.delivered && u == UserAt(events, calls, k) {
      assert next.delivered[|m.delivered|] == k;
      assert IsMail(events, times, calls, next.delivered[|m.delivered|], u, next.last[u]);
    } else if u in next.last {
      assert next.last[u] == m.last[u];
      var i :| 0 <= i < |m.delivered| && IsMail(events, times, calls, m.delivered[i], u, m.last[u]);
      assert next.delivered[i] == m.delivered[i];
    }
  }

  // ------------------------------------------------------------ without overlaps

  /** The check at `p` found no delivery to its user inside the window. */
  predicate QuietAt(delivered: seq<nat>, events: seq<Event>, times: seq<int>, calls: nat -> Call, window: int, p: nat)
    requires p < |events| == |times|
  {
    forall i :: 0 <= i < |delivered| && delivered[i] < p && UserAt(events, calls, delivered[i]) == UserAt(events, calls, p)
      ==> times[p] - times[delivered[i]] >= window
  }

  lemma {:induction false} GrantedChecksAreQuiet(events: seq<Event>, times: seq<int>, calls: nat -> Call, window: int,
                                                 n: nat, p: nat)
    requires Schedule(events) && Clock(times, |events|) && p < n <= |events|
    requires events[p].Check? && events[p].call in After(events, times, calls, window, n).granted
    ensures QuietAt(After(events, times, calls, window, n).delivered, events, times, calls, window, p)
  {
    var k := n - 1;
    if p < k {
      assert events[p] != events[k];
      GrantedChecksAreQuiet(events, times, calls, window, k, p);
    } else {
      RunIsSound(events, times, calls, window, k);
      assert !CheckedBefore(events, events[p].call, k);
      if k > 0 {
        RunIsCovered(events, times, calls, window, k);
        assert times[k - 1] <= times[k];
        GrantIsQuiet(After(events, times, calls, window, k), events, times, calls, window, k);
      }
    }
  }

  lemma GrantIsQuiet(m: Moment, events: seq<Event>, times: seq<int>, calls: nat -> Call, window: int, k: nat)
    requires k < |events| == |times|
    requires Covered(m, events, times, calls, window, times[k])
    requires Decide(m.last, UserAt(events, calls, k), times[k], window) == Allowed
    ensures QuietAt(m.delivered, events, times, calls, window, k)
  {
  }

  lemma {:induction false} SequentialMailsAreSpaced(events: seq<Event>, times: seq<int>, calls: nat -> Call, window: int, n: nat)
    requires Schedule(events) && Clock(times, |events|) && n <= |events|
    requires !Overlapping(events, calls)
    ensures Spaced(events, times, calls, After(events, times, calls, window, n).delivered, window)
  {
    if n > 0 {
      var k := n - 1;
      SequentialMailsAreSpaced(events, times, calls, window, k);
      var m, next := After(events, times, calls, window, k), After(events, times, calls, window, n);
      if next.delivered != m.delivered {
        RunIsSound(events, times, calls, window, k);
        forall i: nat | i < |m.delivered| && UserAt(events, calls, m.delivered[i]) == UserAt(events, calls, k)
          ensures times[k] - times[m.delivered[i]] >= window
        {
          LastMailIsSpaced(events, times, calls, window, k, i);
        }
        OneMoreIsSpaced(events, times, calls, m.delivered, window, k);
      }
    }
  }

  lemma OneMoreIsSpaced(events: seq<Event>, times: seq<int>, calls: nat -> Call, delivered: seq<nat>, window: int, k: nat)
    requires |events| == |times| && k < |events| && forall i :: 0 <= i < |delivered| ==> delivered[i] < k
    requires Spaced(events, times, calls, delivered, window)
    requires forall i: nat :: i < |delivered| && UserAt(events, calls, delivered[i]) == UserAt(events, calls, k)
               ==> times[k] - times[delivered[i]] >= window
    ensures Spaced(events, times, calls, delivered + [k], window)
  {
    var all := delivered + [k];
    forall i, j | 0 <= i < j < |all| && all[i] < |events| && all[j] < |events|
      && UserAt(events, calls, all[i]) == UserAt(events, calls, all[j])
      ensures times[all[j]] - times[all[i]] >= window
    {
      assert all[i] == delivered[i];
      assert j < |delivered| ==> all[j] == delivered[j];
    }
  }

  /** The delivery at `k` lies a window behind every earlier one to the user: had the earlier
      one happened after the check, the two calls would overlap. */
  lemma LastMailIsSpaced(events: seq<Event>, times: seq<int>, calls: nat -> Call, window: int, k: nat, i: nat)
    requires Schedule(events) && Clock(times, |events|) && k < |events|
    requires var m := After(events, times, calls, window, k);
             && Sound(m, events, calls, k)
             && events[k].Finish? && events[k].call in m.granted && Good(calls(events[k].call))
             && i < |m.delivered| && UserAt(events, calls, m.delivered[i]) == UserAt(events, calls, k)
    ensures times[k] - times[After(events, times, calls, window, k).delivered[i]] >= window
            || Overlapping(events, calls)
  {
    var m := After(events, times, calls, window, k);
    var j := m.delivered[i];
    var p :| 0 <= p < k && events[p] == Check(events[k].call);
    if j < p {
      GrantedChecksAreQuiet(events, times, calls, window, k, p);
      assert times[p] <= times[k];
    } else {
      assert CheckedBefore(events, events[j].call, j);
      var q :| 0 <= q < j && events[q] == Check(events[j].call);
      assert events[j] != events[k];
      assert Overlap(events, calls, p, k, q, j);
    }
  }

  // ------------------------------------------------------------ with overlaps

  /** Up to event `stop` every event happens a window after the one before it; then the clock
      stands still. */
  function Spread(n: nat, stop: nat, window: nat): (times: seq<int>)
    ensures |times| == n
    ensures forall k :: 0 <= k < n ==> times[k] == Multiple(if k <= stop then k else stop, window)
  {
    seq(n, k requires 0 <= k < n => Multiple(if k <= stop then k else stop, window))
  }

  function Multiple(k: nat, window: nat): nat {
    if k == 0 then 0 else Multiple(k - 1, window) + window
  }

  lemma {:induction false} MultiplesGrow(j: nat, k: nat, window: nat)
    requires j < k
    ensures Multiple(k, window) - Multiple(j, window) >= window
  {
    if j < k - 1 {
      MultiplesGrow(j, k - 1, window);
    }
  }

  lemma SpreadIsClock(n: nat, stop: nat, window: nat)
    ensures Clock(Spread(n, stop, window), n)
    ensures forall j, k :: 0 <= j < k < n && k <= stop ==> Spread(n, stop, window)[k] - Spread(n, stop, window)[j] >= window
  {
    var times := Spread(n, stop, window);
    forall j, k | 0 <= j < k < n
      ensures times[j] <= times[k] && (k <= stop ==> times[k] - times[j] >= window)
    {
      if j < stop {
        MultiplesGrow(j, if k <= stop then k else stop, window);
      }
    }
  }

  /** A check with every earlier event a window behind it is let through. */
  lemma FarCheckIsGranted(events: seq<Event>, times: seq<int>, calls: nat -> Call, window: int, p: nat)
    requires Schedule(events) && Clock(times, |events|) && p < |events| && events[p].Check?
    requires forall j :: 0 <= j < p ==> times[p] - times[j] >= window
    ensures events[p].call in After(events, times, calls, window, p + 1).granted
  {
    var m, user := After(events, times, calls, window, p), UserAt(events, calls, p);
    RunIsSound(events, times, calls, window, p);
    if p > 0 && user in m.last {
      RunIsCovered(events, times, calls, window, p);
      assert EntryIsMail(m, events, times, calls, user);
      var i :| 0 <= i < |m.delivered| && IsMail(events, times, calls, m.delivered[i], user, m.last[user]);
      assert m.delivered[i] < p;
    }
  }

  /** A granted call that can deliver has delivered once it has finished. */
  lemma {:induction false} GrantedFinishDelivers(events: seq<Event>, times: seq<int>, calls: nat -> Call, window: int,
                                                 p: nat, f: nat, n: nat)
    requires p < f < |events| == |times| && p < n <= |events|
    requires events[p].call in After(events, times, calls, window, p + 1).granted
    requires events[f] == Finish(events[p].call) && Good(calls(events[p].call))
    ensures events[p].call in After(events, times, calls, window, n).granted
    ensures f < n ==> f in After(events, times, calls, window, n).delivered
  {
    if n > p + 1 {
      GrantedFinishDelivers(events, times, calls, window, p, f, n - 1);
      var m := After(events, times, calls, window, n - 1);
      if f == n - 1 {
        assert After(events, times, calls, window, n).delivered == m.delivered + [f];
      }
    }
  }

  lemma TwoAtOnceAreNotSpaced(events: seq<Event>, times: seq<int>, calls: nat -> Call, delivered: seq<nat>, window: int,
                              f: nat, g: nat)
    requires |events| == |times| && window > 0
    requires f in delivered && g in delivered && f != g && f < |events| && g < |events|
    requires UserAt(events, calls, f) == UserAt(events, calls, g) && times[f] == times[g]
    ensures !Spaced(events, times, calls, delivered, window)
  {
    var x :| 0 <= x < |delivered| && delivered[x] == f;
    var y :| 0 <= y < |delivered| && delivered[y] == g;
    assert x < y || y < x;
  }

  /** At this timing both checks are let through, and both calls finish at one instant. */
  lemma OverlapBreaksSpacing(events: seq<Event>, calls: nat -> Call, window: int, ci: nat, fi: nat, cj: nat, fj: nat)
    requires Schedule(events) && window > 0
    requires Overlap(events, calls, ci, fi, cj, fj) && ci < cj
    ensures var times := Spread(|events|, cj, window);
            && Clock(times, |events|)
            && !Spaced(events, times, calls, After(events, times, calls, window, |events|).delivered, window)
  {
    var n, times := |events|, Spread(|events|, cj, window);
    SpreadIsClock(n, cj, window);
    assert fi in After(events, times, calls, window, n).delivered by {
      FarCheckIsGranted(events, times, calls, window, ci);
      GrantedFinishDelivers(events, times, calls, window, ci, fi, n);
    }
    FinishFollowsCheck(events, cj, fj);
    assert fj in After(events, times, calls, window, n).delivered by {
      FarCheckIsGranted(events, times, calls, window, cj);
      GrantedFinishDelivers(events, times, calls, window, cj, fj, n);
    }
    assert events[ci] != events[cj];
    TwoAtOnceAreNotSpaced(events, times, calls, After(events, times, calls, window, n).delivered, window, fi, fj);
  }

  lemma FinishFollowsCheck(events: seq<Event>, c: nat, f: nat)
    requires Schedule(events) && c < |events| && f < |events|
    requires events[c].Check? && events[f] == Finish(events[c].call)
    ensures c < f
  {
    assert CheckedBefore(events, events[f].call, f);
    var p :| 0 <= p < f && events[p] == Check(events[f].call);
  }

  /** Mails to one user are a window apart at every timing exactly when no two calls for one
      user that can deliver overlap; a window that is not positive asks for nothing. */
  lemma MailsAreSpacedExactlyWhenSequential(events: seq<Event>, calls: nat -> Call, window: int)
    requires Schedule(events)
    ensures window <= 0 || !Overlapping(events, calls) <==>
            forall times :: Clock(times, |events|) ==>
              Spaced(events, times, calls, After(events, times, calls, window, |events|).delivered, window)
  {
    if window <= 0 || !Overlapping(events, calls) {
      forall times | Clock(times, |events|)
        ensures Spaced(events, times, calls, After(events, times, calls, window, |events|).delivered, window)
      {
        if window <= 0 {
          RunIsSound(events, times, calls, window, |events|);
        } else {
          SequentialMailsAreSpaced(events, times, calls, window, |events|);
        }
      }
    } else {
      var ci, fi, cj, fj :| Overlap(events, calls, ci, fi, cj, fj);
      if ci < cj {
        OverlapBreaksSpacing(events, calls, window, ci, fi, cj, fj);
      } else {
        OverlapBreaksSpacing(events, calls, window, cj, fj, ci, fi);
      }
    }
  }

  /** Two calls check before either finishes, all in one instant: both mails go out. */
  lemma OverlappingCallsBothDeliver(user: string, now: int, window: int)
    requires window > 0
    ensures var events := [Check(0), Check(1), Finish(0), Finish(1)];
            var calls := (c: nat) => Call(user, true, true);
            var times := [now, now, now, now];
            && Schedule(events) && Clock(times, 4)
            && After(events, times, calls, window, 4).delivered == [2, 3]
            && !Spaced(events, times, calls, [2, 3], window)
  {
    var events := [Check(0), Check(1), Finish(0), Finish(1)];
    var calls := (c: nat) => Call(user, true, true);
    var times := [now, now, now, now];
    assert events[0] == Check(0) && events[1] == Check(1);
    assert After(events, times, calls, window, 1) == Moment(map[], {0}, []);
    assert After(events, times, calls, window, 2) == Moment(map[], {0, 1}, []);
    assert After(events, times, calls, window, 3) == Moment(map[user := now], {0, 1}, [2]);
    assert [2, 3][0] == 2 && [2, 3][1] == 3;
    assert UserAt(events, calls, 2) == UserAt(events, calls, 3);
  }
}
