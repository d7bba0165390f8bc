/** The new-device mail and its throttle (src/core/devices/new-device-throttle.ts, used by
    `sendNewDevice` in src/core/auth/better-auth-email-hooks.runner.ts). Clock readings are
    parameters; whether the payload can be built and the sender accepts it as well. */
module NewDeviceMail {
  import opened Lists

  datatype Decision = Allowed | Denied(resetMs: int)

  type LastSent = map<string, int>

  // ------------------------------------------------------------ the throttle

  function Decide(last: LastSent, user: string, now: int, window: int): Decision {
    if user !in last then Allowed
    else if now - last[user] >= window then Allowed
    else Denied(window - (now - last[user]))
  }

  /** The entries after a check: a stale one is dropped. */
  function Checked(last: LastSent, user: string, now: int, window: int): LastSent {
    if user in last && now - last[user] >= window then last - {user} else last
  }

  const DEFAULT_WINDOW_MS := 60 * 60 * 1000

  class Throttle {
    const windowMs: int
    var lastSent: LastSent

    constructor (windowMs: Option<int>)
      ensures this.windowMs == (if windowMs.Some? then windowMs.value else 3_600_000) && lastSent == map[]
    {
      this.windowMs := if windowMs.Some? then windowMs.value else DEFAULT_WINDOW_MS;
      lastSent := map[];
    }

    method Check(user: string, now: int) returns (d: Decision)
      modifies this
      ensures d == Decide(old(lastSent), user, now, windowMs)
      ensures d == if user in old(lastSent) && now - old(lastSent[user]) < windowMs
                   then Denied(old(lastSent[user]) + windowMs - now) else Allowed
      ensures lastSent == Checked(old(lastSent), user, now, windowMs)
      ensures lastSent == if d.Allowed? then old(lastSent) - {user} else old(lastSent)
    {
      if user !in lastSent { return Allowed; }
      var elapsed := now - lastSent[user];
      if elapsed >= windowMs {
        lastSent := lastSent - {user};
        return Allowed;
      }
      return Denied(windowMs - elapsed);
    }

    method Record(user: string, now: int)
      modifies this
      ensures lastSent == old(lastSent)[user := now]
    {
      lastSent := lastSent[user := now];
    }
  }

  // ------------------------------------------------------------ one send

  /** One call of `sendNewDevice`: when it checks, whether the payload builds and the sender
      accepts it, and when it would record. */
  datatype Send = Send(user: string, checkedAt: int, builds: bool, accepted: bool, recordedAt: int)

  datatype Mail = Mail(user: string, at: int)

  predicate Delivers(last: LastSent, s: Send, window: int) {
    Decide(last, s.user, s.checkedAt, window) == Allowed && s.builds && s.accepted
  }

  function AfterSend(last: LastSent, s: Send, window: int): LastSent {
    var checked := Checked(last, s.user, s.checkedAt, window);
    if Delivers(last, s, window) then checked[s.user := s.recordedAt] else checked
  }

  method SendNewDevice(throttle: Throttle?, s: Send) returns (delivered: bool, failed: bool)
    modifies throttle
    ensures throttle == null ==> delivered == (s.builds && s.accepted) && failed == !delivered
    ensures throttle != null ==>
              var last := old(throttle.lastSent);
              var allowed := s.user !in last || s.checkedAt - last[s.user] >= throttle.windowMs;
              && delivered == (allowed && s.builds && s.accepted) && failed == (allowed && !delivered)
              && throttle.lastSent == (if delivered then last[s.user := s.recordedAt]
                                       else if allowed then last - {s.user} else last)
    ensures throttle != null ==>
              && delivered == Delivers(old(throttle.lastSent), s, throttle.windowMs)
              && throttle.lastSent == AfterSend(old(throttle.lastSent), s, throttle.windowMs)
  {
    failed := false;
    if throttle != null {
      var decision := throttle.Check(s.user, s.checkedAt);
      if decision.Denied? { return false, false; }
    }
    var dispatched := false;
    if !s.builds {
      failed := true;
    } else if s.accepted {
      dispatched := true;
    } else {
      failed := true;
    }
    if dispatched && throttle != null {
      throttle.Record(s.user, s.recordedAt);
    }
    delivered := dispatched;
  }

  // ------------------------------------------------------------ runs of sends

  function Sending(window: int): (LastSent, Send) -> LastSent {
    (last, s) => AfterSend(last, s, window)
  }

  function Mailing(window: int): (LastSent, Send) -> seq<Mail> {
    (last, s) => if Delivers(last, s, window) then [Mail(s.user, s.recordedAt)] else []
  }

  /** The throttle's entries after the sends, from an empty throttle. */
  function EntriesAfter(sends: seq<Send>, window: int): LastSent {
    Run(map[], sends, Sending(window))
  }

  /** The mails delivered. */
  function Mails(sends: seq<Send>, window: int): seq<Mail> {
    Emitted(map[], sends, Sending(window), Mailing(window))
  }

  /** Sends do not overlap and the clock never goes back. */
  predicate OneAfterAnother(sends: seq<Send>) {
    && (forall i :: 0 <= i < |sends| ==> sends[i].checkedAt <= sends[i].recordedAt)
    && (forall i, j :: 0 <= i < j < |sends| ==> sends[i].recordedAt <= sends[j].checkedAt)
  }

  /** Every entry is a delivered mail; every delivered mail is covered by its user's entry or
      older than the window. */
  ghost predicate Covers(last: LastSent, mails: seq<Mail>, window: int, now: int) {
    && (forall u :: u in last ==> Mail(u, last[u]) in mails)
    && (forall m :: m in mails ==> (m.user in last && m.at <= last[m.user]) || now - m.at >= window)
  }

  /** An allowed check finds no mail to the user inside the window, and a denied one finds one. */
  lemma AllowedExactlyWhenQuiet(last: LastSent, mails: seq<Mail>, window: int, now: int, user: string, later: int)
    requires Covers(last, mails, window, now) && now <= later
    ensures Decide(last, user, later, window) == Allowed <==>
            forall m :: m in mails && m.user == user ==> later - m.at >= window
  {
  }

  lemma AfterSendCovers(last: LastSent, mails: seq<Mail>, window: int, now: int, s: Send)
    requires Covers(last, mails, window, now) && now <= s.checkedAt <= s.recordedAt
    requires forall m :: m in mails ==> m.at <= now
    ensures var mails' := mails + Mailing(window)(last, s);
            && Covers(AfterSend(last, s, window), mails', window, s.recordedAt)
            && forall m :: m in mails' ==> m.at <= s.recordedAt
  {
  }

  /** When the last send finished; before any, no later than `start`. */
  function Finished(sends: seq<Send>, start: int): int {
    if sends == [] then start else sends[|sends| - 1].recordedAt
  }

  lemma {:induction false} EntriesCoverMails(sends: seq<Send>, window: int, start: int)
    requires OneAfterAnother(sends)
    ensures var mails := Mails(sends, window);
            && Covers(EntriesAfter(sends, window), mails, window, Finished(sends, start))
            && forall m :: m in mails ==> m.at <= Finished(sends, start)
  {
    if sends != [] {
      var n := |sends| - 1;
      var now := if n == 0 then sends[n].checkedAt else start;
      EntriesCoverMails(sends[..n], window, now);
      AfterSendCovers(EntriesAfter(sends[..n], window), Mails(sends[..n], window), window,
                      Finished(sends[..n], now), sends[n]);
    }
  }

  /** The throttle's answer depends only on the mails delivered: failed sends, and the
      clean-up of stale entries, never show. */
  lemma ThrottleSeesOnlyDeliveredMails(sends: seq<Send>, window: int, user: string, now: int)
    requires OneAfterAnother(sends)
    requires forall s :: s in sends ==> s.recordedAt <= now
    ensures Decide(EntriesAfter(sends, window), user, now, window) == Allowed <==>
            forall m :: m in Mails(sends, window) && m.user == user ==> now - m.at >= window
  {
    EntriesCoverMails(sends, window, now);
    AllowedExactlyWhenQuiet(EntriesAfter(sends, window), Mails(sends, window), window, Finished(sends, now), user, now);
  }

  /** A denial announces how long it takes until the latest mail to the user is a window old,
      and waiting exactly that long is what it takes to be allowed again. */
  lemma DenialPointsAtLatestMail(sends: seq<Send>, window: int, user: string, now: int) returns (latest: Mail)
    requires OneAfterAnother(sends)
    requires forall s :: s in sends ==> s.recordedAt <= now
    requires Decide(EntriesAfter(sends, window), user, now, window).Denied?
    ensures latest in Mails(sends, window) && latest.user == user
    ensures forall m :: m in Mails(sends, window) && m.user == user ==> m.at <= latest.at
    ensures Decide(EntriesAfter(sends, window), user, now, window) == Denied(latest.at + window - now)
    ensures forall later :: later >= now ==>
              (Decide(EntriesAfter(sends, window), user, later, window) == Allowed <==> later >= latest.at + window)
  {
    EntriesCoverMails(sends, window, now);
    latest := Mail(user, EntriesAfter(sends, window)[user]);
  }

  /** Any two mails delivered to one user are at least a window apart. */
  lemma {:induction false} MailsAreSpaced(sends: seq<Send>, window: int)
    requires OneAfterAnother(sends)
    ensures var mails := Mails(sends, window);
            forall i, j :: 0 <= i < j < |mails| && mails[i].user == mails[j].user ==> mails[j].at - mails[i].at >= window
  {
    if sends != [] {
      var n := |sends| - 1;
      var s := sends[n];
      MailsAreSpaced(sends[..n], window);
      forall t | t in sends[..n] ensures t.recordedAt <= s.checkedAt {
        var k :| 0 <= k < n && sends[k] == t;
      }
      ThrottleSeesOnlyDeliveredMails(sends[..n], window, s.user, s.checkedAt);
      var before, mails := Mails(sends[..n], window), Mails(sends, window);
      assert mails == before + Mailing(window)(EntriesAfter(sends[..n], window), s);
      forall i, j | 0 <= i < j < |mails| && mails[i].user == mails[j].user
        ensures mails[j].at - mails[i].at >= window
      {
        assert mails[i] == before[i] && before[i] in before;
        if j < |before| {
          assert mails[j] == before[j];
        } else {
          assert mails[j] == Mail(s.user, s.recordedAt) && s.checkedAt <= s.recordedAt;
        }
      }
    }
  }

  lemma DecisionsAgree(sends: seq<Send>, others: seq<Send>, window: int, user: string, now: int)
    requires OneAfterAnother(sends) && OneAfterAnother(others)
    requires forall s :: s in sends + others ==> s.recordedAt <= now
    requires Mails(sends, window) == Mails(others, window)
    ensures Decide(EntriesAfter(sends, window), user, now, window) == Decide(EntriesAfter(others, window), user, now, window)
  {
    assert forall s :: s in sends || s in others ==> s in sends + others;
    ThrottleSeesOnlyDeliveredMails(sends, window, user, now);
    ThrottleSeesOnlyDeliveredMails(others, window, user, now);
    if Decide(EntriesAfter(sends, window), user, now, window).Denied? {
      var m := DenialPointsAtLatestMail(sends, window, user, now);
      var n := DenialPointsAtLatestMail(others, window, user, now);
    }
  }

  lemma LastSendComesLast(sends: seq<Send>, t: Send)
    requires OneAfterAnother(sends + [t])
    ensures OneAfterAnother(sends) && forall s :: s in sends ==> s.recordedAt <= t.checkedAt
  {
    var all := sends + [t];
    assert forall i :: 0 <= i < |sends| ==> sends[i] == all[i];
    assert all[|sends|] == t;
  }

  lemma WithoutOneStillInOrder(a: seq<Send>, s: Send, b: seq<Send>)
    requires OneAfterAnother(a + [s] + b)
    ensures OneAfterAnother(a + b)
  {
    var all, rest := a + [s] + b, a + b;
    forall i | 0 <= i < |rest| ensures rest[i] == all[if i < |a| then i else i + 1] {
    }
  }

  lemma MailsOfOneMore(sends: seq<Send>, t: Send, window: int)
    ensures Mails(sends + [t], window) == Mails(sends, window) + Mailing(window)(EntriesAfter(sends, window), t)
  {
    assert (sends + [t])[..|sends|] == sends;
  }

  lemma SameMailsSameNext(sends: seq<Send>, others: seq<Send>, t: Send, window: int)
    requires OneAfterAnother(sends + [t]) && OneAfterAnother(others)
    requires forall s :: s in others ==> s in sends
    requires Mails(sends, window) == Mails(others, window)
    ensures Mails(sends + [t], window) == Mails(others + [t], window)
  {
    LastSendComesLast(sends, t);
    DecisionsAgree(sends, others, window, t.user, t.checkedAt);
    MailsOfOneMore(sends, t, window);
    MailsOfOneMore(others, t, window);
  }

  /** A send that fails can be struck from the history, wherever it stands: the same mails go
      out before and after it. */
  lemma {:induction false} FailedSendsDoNotCount(a: seq<Send>, s: Send, b: seq<Send>, window: int)
    requires OneAfterAnother(a + [s] + b) && !(s.builds && s.accepted)
    ensures Mails(a + [s] + b, window) == Mails(a + b, window)
    decreases |b|
  {
    if b == [] {
      assert a + [s] + b == a + [s] && a + b == a;
      MailsOfOneMore(a, s, window);
    } else {
      var c, t := b[..|b| - 1], b[|b| - 1];
      var with, without := a + [s] + c, a + c;
      assert a + [s] + b == with + [t] && a + b == without + [t];
      LastSendComesLast(with, t);
      FailedSendsDoNotCount(a, s, c, window);
      WithoutOneStillInOrder(a, s, c);
      SameMailsSameNext(with, without, t, window);
    }
  }

  /** Nor does it show in any decision after the history. */
  lemma FailedSendsChangeNoDecision(a: seq<Send>, s: Send, b: seq<Send>, window: int, user: string, now: int)
    requires OneAfterAnother(a + [s] + b) && !(s.builds && s.accepted)
    requires forall t :: t in a + [s] + b ==> t.recordedAt <= now
    ensures Decide(EntriesAfter(a + [s] + b, window), user, now, window) ==
            Decide(EntriesAfter(a + b, window), user, now, window)
  {
    FailedSendsDoNotCount(a, s, b, window);
    WithoutOneStillInOrder(a, s, b);
    assert forall t :: t in a + b ==> t in a + [s] + b;
    DecisionsAgree(a + [s] + b, a + b, window, user, now);
  }
}
