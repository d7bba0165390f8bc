/** Polls that overlap. The log page (src/core/dx/clients/pages/LogsPage.tsx) and the trace page
    (src/core/dx/clients/pages/TracesPage.tsx) poll on an interval without waiting for the
    answer to the poll before: a slow answer lets the next poll ask with the same cursor. */
module OverlappingPolls {
  import opened Lists
  import opened RingBuffers

  /** A poll reads the page's cursor, the server answers it from the buffer, and the answer
      arrives at the page. A poll that fails has no `Answer`. */
  datatype Event = Ask(poll: nat) | Serve(poll: nat) | Answer(poll: nat)

  ghost predicate Before(events: seq<Event>, event: Event, k: nat)
    requires k <= |events|
  {
    exists p :: 0 <= p < k && events[p] == event
  }

  /** An interleaving: every event happens once, a poll is served after it asks and answered
      after it is served. */
  ghost predicate Schedule(events: seq<Event>) {
    && (forall j, k :: 0 <= j < k < |events| ==> events[j] != events[k])
    && (forall k :: 0 <= k < |events| && events[k].Serve? ==> Before(events, Ask(events[k].poll), k))
    && (forall k :: 0 <= k < |events| && events[k].Answer? ==> Before(events, Serve(events[k].poll), k))
  }

  /** What a page knows; `received` is everything it has put on display. */
  datatype Page<T> = Page(cursor: nat, asked: map<nat, nat>, served: map<nat, seq<Rec<T>>>, received: seq<Rec<T>>)

  /** The log page displays every answer as it is; the trace page drops what its cursor has
      passed by the time an answer arrives. */
  datatype Client = LogsPage | TracesPage

  /** What the server answers to a poll with cursor `since`: the newer log records, but all
      traces, whatever the cursor (src/core/dx/hub.controller.ts:679-683 and 765-780). */
  function Answered<T>(client: Client, since: nat, view: seq<Rec<T>>): seq<Rec<T>> {
    if client == LogsPage then Newer(view, since) else view
  }

  function Displayed<T>(client: Client, cursor: nat, answer: seq<Rec<T>>): seq<Rec<T>> {
    if client == LogsPage then answer else Newer(answer, cursor)
  }

  function Step<T>(p: Page<T>, event: Event, view: seq<Rec<T>>, client: Client): Page<T> {
    match event
    case Ask(i) => p.(asked := p.asked[i := p.cursor])
    case Serve(i) => if i in p.asked then p.(served := p.served[i := Answered(client, p.asked[i], view)]) else p
    case Answer(i) =>
      if i !in p.served then p
      else
        var shown := Displayed(client, p.cursor, p.served[i]);
        p.(cursor := Advanced(p.cursor, shown), received := p.received + shown)
  }

  /** The page after the first `n` events; `views[k]` is what the buffer holds at event `k`. */
  function PageAt<T>(events: seq<Event>, views: seq<seq<Rec<T>>>, client: Client, n: nat): Page<T>
    requires n <= |events| == |views|
  {
    if n == 0 then Page(0, map[], map[], [])
    else Step(PageAt(events, views, client, n - 1), events[n - 1], views[n - 1], client)
  }

  /** A run with the page before and after every event. */
  datatype History<T> = History(events: seq<Event>, views: seq<seq<Rec<T>>>, client: Client, pages: seq<Page<T>>)

  ghost predicate IsHistory<T>(h: History<T>) {
    && Schedule(h.events) && |h.views| == |h.events| && |h.pages| == |h.events| + 1
    && h.pages[0] == Page(0, map[], map[], [])
    && forall k :: 0 <= k < |h.events| ==> NextPage(h, k)
  }

  ghost predicate NextPage<T>(h: History<T>, k: nat)
    requires k < |h.events| == |h.views| && |h.pages| == |h.events| + 1
  {
    h.pages[k + 1] == Step(h.pages[k], h.events[k], h.views[k], h.client)
  }

  lemma HistoryFrom<T>(events: seq<Event>, views: seq<seq<Rec<T>>>, client: Client) returns (h: History<T>)
    requires Schedule(events) && |views| == |events|
    ensures IsHistory(h) && h.events == events && h.views == views && h.client == client
    ensures h.pages[|events|] == PageAt(events, views, client, |events|)
  {
    var pages := seq(|events| + 1, n requires 0 <= n <= |events| => PageAt(events, views, client, n));
    h := History(events, views, client, pages);
    forall k | 0 <= k < |events| ensures NextPage(h, k) {
      assert pages[k] == PageAt(events, views, client, k) && pages[k + 1] == PageAt(events, views, client, k + 1);
    }
  }

  lemma HistoryOf<T>(events: seq<Event>, gaps: seq<seq<Action<T>>>, max: nat, client: Client) returns (h: History<T>)
    requires Schedule(events) && |gaps| == |events|
    ensures IsHistory(h) && h.events == events && h.views == Views(gaps, max) && h.client == client
    ensures h.pages[|events|].received == Received(events, gaps, max, client)
  {
    h := HistoryFrom(events, Views(gaps, max), client);
  }

  /** What the buffer holds at each event, when `gaps[k]` happens right before event `k`. */
  function Views<T>(gaps: seq<seq<Action<T>>>, max: nat): (views: seq<seq<Rec<T>>>)
    ensures |views| == |gaps|
    ensures forall k :: 0 <= k < |gaps| ==> views[k] == After(Flatten(gaps[..k + 1]), max).records
  {
    seq(|gaps|, k requires 0 <= k < |gaps| => After(Flatten(gaps[..k + 1]), max).records)
  }

  predicate Increasing<T>(records: seq<Rec<T>>) {
    forall i, j :: 0 <= i < j < |records| ==> records[i].seqNo < records[j].seqNo
  }

  predicate NoRepeat<T(==)>(records: seq<Rec<T>>) {
    forall i, j :: 0 <= i < j < |records| ==> records[i] != records[j]
  }

  function Received<T>(events: seq<Event>, gaps: seq<seq<Action<T>>>, max: nat, client: Client): seq<Rec<T>>
    requires |gaps| == |events|
  {
    PageAt(events, Views(gaps, max), client, |events|).received
  }

  /** Poll `j` asks between the asking of `i` at `p` and its answer at `r`, and is answered too. */
  ghost predicate Overlap(events: seq<Event>, i: nat, j: nat, p: nat, q: nat, r: nat) {
    && i != j && p < q < r < |events|
    && events[p] == Ask(i) && events[q] == Ask(j) && events[r] == Answer(i)
    && Before(events, Answer(j), |events|)
  }

  ghost predicate Overlapping(events: seq<Event>) {
    exists i, j, p, q, r :: Overlap(events, i, j, p, q, r)
  }

  // ------------------------------------------------------------ what the buffer shows

  lemma NewerExactly<T>(records: seq<Rec<T>>, since: int, r: Rec<T>)
    ensures r in Newer(records, since) <==> r in records && r.seqNo > since
  {
    var f := (r: Rec<T>) => if r.seqNo > since then Some(r) else None;
    CollectedExactly(records, f, r);
    assert Newer(records, since) == Collected(records, f);
    if r in records && r.seqNo > since {
      var k :| 0 <= k < |records| && records[k] == r;
      assert f(records[k]) == Some(r);
    }
  }

  lemma {:induction false} NewerIsIncreasing<T>(records: seq<Rec<T>>, since: int)
    requires Increasing(records)
    ensures Increasing(Newer(records, since))
  {
    if records != [] {
      var n := |records| - 1;
      var front := Newer(records[..n], since);
      NewerIsIncreasing(records[..n], since);
      forall i | 0 <= i < |front| ensures front[i].seqNo < records[n].seqNo {
        NewerExactly(records[..n], since, front[i]);
        var k :| 0 <= k < n && records[..n][k] == front[i];
      }
      assert Newer(records, since) == front + if records[n].seqNo > since then [records[n]] else [];
    }
  }

  /** Every view is in order, and a record a view shows was in every earlier view that already
      showed one at least as new. */
  ghost predicate AreViews<T(!new)>(views: seq<seq<Rec<T>>>) {
    && (forall k :: 0 <= k < |views| ==> Increasing(views[k]))
    && (forall k, l, r, m :: 0 <= k <= l < |views| && r in views[l] && m in views[k] && r.seqNo <= m.seqNo ==> r in views[k])
  }

  lemma HeldIsOrdered<T>(actions: seq<Action<T>>, max: nat)
    ensures var held := After(actions, max).records;
            Increasing(held) && forall r :: r in held ==> r.seqNo <= Pushes(actions)
  {
    BufferIsTailOfHistory(actions, max);
    TailOfLiveIsOrdered(actions, 0, max);
  }

  lemma HeldWasHeld<T>(a: seq<Action<T>>, b: seq<Action<T>>, max: nat, r: Rec<T>)
    requires r in After(a + b, max).records && r.seqNo <= Pushes(a)
    ensures r in After(a, max).records
  {
    HeldIsKnownOrNew(a, b, max, r);
    TailOfLiveIsOrdered(b, Pushes(a), max);
  }

  lemma {:induction false} FlattenFront<T>(gaps: seq<seq<T>>, k: nat, l: nat) returns (rest: seq<T>)
    requires k <= l <= |gaps|
    ensures Flatten(gaps[..l]) == Flatten(gaps[..k]) + rest
  {
    if k == l {
      rest := [];
    } else {
      rest := FlattenFront(gaps, k, l - 1);
      assert gaps[..l][..l - 1] == gaps[..l - 1];
      assert Flatten(gaps[..k]) + (rest + gaps[l - 1]) == (Flatten(gaps[..k]) + rest) + gaps[l - 1];
      rest := rest + gaps[l - 1];
    }
  }

  lemma FlattenNext<T>(gaps: seq<seq<T>>, k: nat)
    requires k < |gaps|
    ensures Flatten(gaps[..k + 1]) == Flatten(gaps[..k]) + gaps[k]
  {
    assert gaps[..k + 1][..k] == gaps[..k];
  }

  lemma ShownEarlier<T>(gaps: seq<seq<Action<T>>>, max: nat, k: nat, l: nat, r: Rec<T>, m: Rec<T>)
    requires k <= l < |gaps| && r.seqNo <= m.seqNo
    requires r in After(Flatten(gaps[..l + 1]), max).records && m in After(Flatten(gaps[..k + 1]), max).records
    ensures r in After(Flatten(gaps[..k + 1]), max).records
  {
    var rest := FlattenFront(gaps, k + 1, l + 1);
    HeldIsOrdered(Flatten(gaps[..k + 1]), max);
    HeldWasHeld(Flatten(gaps[..k + 1]), rest, max, r);
  }

  lemma BufferGivesViews<T(!new)>(gaps: seq<seq<Action<T>>>, max: nat)
    ensures AreViews(Views(gaps, max))
  {
    var views := Views(gaps, max);
    forall k | 0 <= k < |views| ensures Increasing(views[k]) {
      HeldIsOrdered(Flatten(gaps[..k + 1]), max);
    }
    forall k, l, r: Rec<T>, m: Rec<T> | 0 <= k <= l < |views| && r in views[l] && m in views[k] && r.seqNo <= m.seqNo
      ensures r in views[k]
    {
      ShownEarlier(gaps, max, k, l, r, m);
    }
  }

  // ------------------------------------------------------------ what every run keeps

  /** The cursor is the greatest number on display. */
  ghost predicate Sound<T>(page: Page<T>) {
    && (forall r :: r in page.received ==> r.seqNo <= page.cursor)
    && (page.cursor > 0 ==> exists r :: r in page.received && r.seqNo == page.cursor)
  }

  lemma {:induction false} AdvancedIsGreatest<T>(cursor: nat, records: seq<Rec<T>>)
    ensures Advanced(cursor, records) == cursor || exists r :: r in records && r.seqNo == Advanced(cursor, records)
  {
    if records != [] {
      AdvancedIsGreatest(cursor, records[..|records| - 1]);
      assert records == records[..|records| - 1] + [records[|records| - 1]];
    }
  }

  lemma AnswerIsSound<T>(page: Page<T>, i: nat, view: seq<Rec<T>>, client: Client)
    requires Sound(page)
    ensures Sound(Step(page, Answer(i), view, client))
  {
    if i in page.served {
      var shown := Displayed(client, page.cursor, page.served[i]);
      var next := Step(page, Answer(i), view, client);
      AdvancedIsGreatest(page.cursor, shown);
      assert forall r :: r in next.received <==> r in page.received || r in shown;
      assert forall k :: 0 <= k < |shown| ==> shown[k].seqNo <= next.cursor;
    }
  }

  lemma {:induction false} RunIsSound<T>(h: History<T>, n: nat)
    requires IsHistory(h) && n <= |h.events|
    ensures Sound(h.pages[n])
  {
    if n > 0 {
      RunIsSound(h, n - 1);
      assert NextPage(h, n - 1);
      if h.events[n - 1].Answer? {
        AnswerIsSound(h.pages[n - 1], h.events[n - 1].poll, h.views[n - 1], h.client);
      }
    }
  }

  /** A poll keeps the cursor it asked with. */
  lemma {:induction false} AskedStays<T>(h: History<T>, p: nat, n: nat)
    requires IsHistory(h) && p < n <= |h.events| && h.events[p].Ask?
    ensures var i := h.events[p].poll; i in h.pages[n].asked && h.pages[n].asked[i] == h.pages[p].cursor
  {
    assert NextPage(h, n - 1);
    if p < n - 1 {
      AskedStays(h, p, n - 1);
      assert h.events[p] != h.events[n - 1];
    }
  }

  /** A poll keeps what it was served. */
  lemma {:induction false} ServedStays<T>(h: History<T>, p: nat, s: nat, n: nat)
    requires IsHistory(h) && p < s < n <= |h.events|
    requires h.events[p].Ask? && h.events[s] == Serve(h.events[p].poll)
    ensures var i := h.events[p].poll;
            i in h.pages[n].served && h.pages[n].served[i] == Answered(h.client, h.pages[p].cursor, h.views[s])
  {
    assert NextPage(h, n - 1);
    if s < n - 1 {
      ServedStays(h, p, s, n - 1);
      assert h.events[s] != h.events[n - 1];
    } else {
      AskedStays(h, p, s);
    }
  }

  /** A poll that asks at `p`, is served at `s` and answered at `a`. */
  predicate IsPoll(events: seq<Event>, p: nat, s: nat, a: nat) {
    p < s < a < |events| && events[a].Answer? && events[p] == Ask(events[a].poll) && events[s] == Serve(events[a].poll)
  }

  lemma PollAnsweredAt(events: seq<Event>, a: nat) returns (p: nat, s: nat)
    requires Schedule(events) && a < |events| && events[a].Answer?
    ensures IsPoll(events, p, s, a)
  {
    var i := events[a].poll;
    assert Before(events, Serve(i), a);
    s :| 0 <= s < a && events[s] == Serve(i);
    assert Before(events, Ask(i), s);
    p :| 0 <= p < s && events[p] == Ask(i);
  }

  /** What the page displays, and its cursor, only grow. */
  lemma {:induction false} ReceivedGrows<T>(h: History<T>, m: nat, n: nat)
    requires IsHistory(h) && m <= n <= |h.events|
    ensures h.pages[m].received <= h.pages[n].received && h.pages[m].cursor <= h.pages[n].cursor
  {
    if m < n {
      ReceivedGrows(h, m, n - 1);
      assert NextPage(h, n - 1);
    }
  }

  /** What an answer adds to the display. */
  function Shown<T>(h: History<T>, p: nat, s: nat, a: nat): seq<Rec<T>>
    requires p < |h.pages| && s < |h.views| && a < |h.pages|
  {
    Displayed(h.client, h.pages[a].cursor, Answered(h.client, h.pages[p].cursor, h.views[s]))
  }

  lemma AnswerArrives<T>(h: History<T>, p: nat, s: nat, a: nat)
    requires IsHistory(h) && IsPoll(h.events, p, s, a)
    ensures h.pages[a + 1].received == h.pages[a].received + Shown(h, p, s, a)
    ensures h.pages[a + 1].cursor == Advanced(h.pages[a].cursor, Shown(h, p, s, a))
  {
    ServedStays(h, p, s, a);
    assert NextPage(h, a);
  }

  lemma NothingArrives<T>(h: History<T>, k: nat)
    requires IsHistory(h) && k < |h.events| && !h.events[k].Answer?
    ensures h.pages[k + 1].received == h.pages[k].received && h.pages[k + 1].cursor == h.pages[k].cursor
  {
    assert NextPage(h, k);
  }

  // ------------------------------------------------------------ at most once

  /** Nothing arrives between the asking and the answer of a poll that overlaps none. */
  lemma {:induction false} CursorStays<T>(h: History<T>, p: nat, s: nat, a: nat, n: nat)
    requires IsHistory(h) && !Overlapping(h.events) && IsPoll(h.events, p, s, a) && p < n <= a
    ensures h.pages[n].cursor == h.pages[p].cursor
  {
    if p < n - 1 {
      CursorStays(h, p, s, a, n - 1);
    }
    NoAnswerBetween(h.events, p, s, a, n - 1);
    NothingArrives(h, n - 1);
  }

  lemma NoAnswerBetween(events: seq<Event>, p: nat, s: nat, a: nat, k: nat)
    requires Schedule(events) && !Overlapping(events) && IsPoll(events, p, s, a) && p <= k < a
    ensures !events[k].Answer?
  {
    if events[k].Answer? {
      var q, t := PollAnsweredAt(events, k);
      assert events[k] != events[a];
      assert q < p ==> Overlap(events, events[k].poll, events[a].poll, q, p, k);
      assert p < q ==> Overlap(events, events[a].poll, events[k].poll, p, q, a);
    }
  }

  lemma {:induction false} DisplayIsIncreasing<T(!new)>(h: History<T>, n: nat)
    requires IsHistory(h) && AreViews(h.views) && n <= |h.events|
    requires h.client == TracesPage || !Overlapping(h.events)
    ensures Increasing(h.pages[n].received)
  {
    if n > 0 {
      var a := n - 1;
      DisplayIsIncreasing(h, a);
      if h.events[a].Answer? {
        var p, s := PollAnsweredAt(h.events, a);
        AnswerArrives(h, p, s, a);
        RunIsSound(h, a);
        if h.client == LogsPage {
          CursorStays(h, p, s, a, a);
        }
        ShownIsNewer(h.views[s], h.pages[p].cursor, h.pages[a].cursor, h.client);
        AppendIncreasing(h.pages[a].received, Shown(h, p, s, a), h.pages[a].cursor);
      } else {
        NothingArrives(h, a);
      }
    }
  }

  lemma ShownIsNewer<T>(view: seq<Rec<T>>, asked: nat, cursor: nat, client: Client)
    requires Increasing(view) && (client == TracesPage || asked == cursor)
    ensures var shown := Displayed(client, cursor, Answered(client, asked, view));
            Increasing(shown) && forall r :: r in shown ==> r.seqNo > cursor
  {
    var shown := Displayed(client, cursor, Answered(client, asked, view));
    NewerIsIncreasing(view, cursor);
    forall r | r in shown ensures r.seqNo > cursor {
      NewerExactly(view, cursor, r);
    }
  }

  lemma AppendIncreasing<T>(received: seq<Rec<T>>, shown: seq<Rec<T>>, cursor: nat)
    requires Increasing(received) && Increasing(shown)
    requires forall r :: r in received ==> r.seqNo <= cursor
    requires forall r :: r in shown ==> r.seqNo > cursor
    ensures Increasing(received + shown)
  {
    var all := received + shown;
    forall i, j | 0 <= i < j < |all| ensures all[i].seqNo < all[j].seqNo {
      assert i < |received| ==> all[i] in received;
      assert j >= |received| ==> all[j] in shown;
      assert i >= |received| ==> all[i] == shown[i - |received|] && all[j] == shown[j - |received|];
    }
  }

  // ------------------------------------------------------------ runs with one or two records

  /** A record is pushed right before event `s`; right before event `t` it is cleared and
      another one is pushed. */
  function PushThenReplace<T>(n: nat, s: nat, t: nat, x: T): (gaps: seq<seq<Action<T>>>)
    ensures |gaps| == n && forall k :: 0 <= k < n ==> gaps[k] == GapAt(s, t, x, k)
  {
    seq(n, k requires 0 <= k => GapAt(s, t, x, k))
  }

  function GapAt<T>(s: nat, t: nat, x: T, k: nat): seq<Action<T>> {
    if k == s then [Push(x)] else if k == t then [Clear, Push(x)] else []
  }

  function ActionsBefore<T>(s: nat, t: nat, x: T, k: nat): seq<Action<T>> {
    if k <= s then [] else if k <= t then [Push(x)] else [Push(x), Clear, Push(x)]
  }

  lemma NextActions<T>(s: nat, t: nat, x: T, k: nat)
    requires s < t
    ensures ActionsBefore(s, t, x, k) + GapAt(s, t, x, k) == ActionsBefore(s, t, x, k + 1)
  {
  }

  lemma {:induction false} ReplaceFlattened<T>(gaps: seq<seq<Action<T>>>, s: nat, t: nat, x: T, k: nat)
    requires s < t && k <= |gaps| && forall k :: 0 <= k < |gaps| ==> gaps[k] == GapAt(s, t, x, k)
    ensures Flatten(gaps[..k]) == ActionsBefore(s, t, x, k)
  {
    if k > 0 {
      ReplaceFlattened(gaps, s, t, x, k - 1);
      FlattenNext(gaps, k - 1);
      NextActions(s, t, x, k - 1);
    }
  }

  lemma OnePushIsHeld<T>(x: T, max: nat)
    requires max >= 1
    ensures After([Push(x)], max).records == [Rec(x, 1)] && After<T>([], max).records == []
  {
    assert [Push(x)][..0] == [];
    assert After<T>([Push(x)][..0], max) == State([], 1);
  }

  lemma ReplacedIsHeld<T>(x: T, max: nat)
    requires max >= 1
    ensures After([Push(x), Clear, Push(x)], max).records == [Rec(x, 2)]
  {
    var all: seq<Action<T>> := [Push(x), Clear, Push(x)];
    OnePushIsHeld(x, max);
    assert all[..2][..1] == [Push(x)];
    assert After([Push(x)], max).nextSeq == 2 by {
      assert [Push(x)][..0] == [];
    }
    assert After(all[..2], max) == State([], 2);
  }

  lemma HeldAfterReplace<T>(s: nat, t: nat, x: T, max: nat, k: nat)
    requires max >= 1 && s < t
    ensures After(ActionsBefore(s, t, x, k + 1), max).records == RecordsAt(s, t, x, k)
  {
    OnePushIsHeld(x, max);
    ReplacedIsHeld(x, max);
  }

  function RecordsAt<T>(s: nat, t: nat, x: T, k: nat): seq<Rec<T>> {
    if k < s then [] else if k < t then [Rec(x, 1)] else [Rec(x, 2)]
  }

  /** The views of such a run. */
  predicate ShowsTwo<T(==)>(views: seq<seq<Rec<T>>>, s: nat, t: nat, x: T) {
    forall k :: 0 <= k < |views| ==> views[k] == RecordsAt(s, t, x, k)
  }

  lemma ReplaceView<T>(gaps: seq<seq<Action<T>>>, s: nat, t: nat, x: T, max: nat, k: nat)
    requires max >= 1 && s < t && k < |gaps| && forall k :: 0 <= k < |gaps| ==> gaps[k] == GapAt(s, t, x, k)
    ensures After(Flatten(gaps[..k + 1]), max).records == RecordsAt(s, t, x, k)
  {
    ReplaceFlattened(gaps, s, t, x, k + 1);
    HeldAfterReplace(s, t, x, max, k);
  }

  lemma ReplaceViews<T>(n: nat, s: nat, t: nat, x: T, max: nat)
    requires max >= 1 && s < t
    ensures ShowsTwo(Views(PushThenReplace(n, s, t, x), max), s, t, x)
  {
    var gaps := PushThenReplace(n, s, t, x);
    forall k | 0 <= k < n ensures Views(gaps, max)[k] == RecordsAt(s, t, x, k) {
      ReplaceView(gaps, s, t, x, max, k);
    }
  }

  /** One record is pushed right before event `p`, and nothing else happens. */
  function OnePush<T>(n: nat, p: nat, x: T): (gaps: seq<seq<Action<T>>>)
    ensures |gaps| == n && forall k :: 0 <= k < n ==> gaps[k] == if k == p then [Push(x)] else []
  {
    PushThenReplace(n, p, n, x)
  }

  predicate ShowsOne<T(==)>(views: seq<seq<Rec<T>>>, p: nat, r: Rec<T>) {
    forall k :: 0 <= k < |views| ==> views[k] == if k < p then [] else [r]
  }

  lemma OnePushViews<T>(n: nat, p: nat, x: T, max: nat)
    requires max >= 1 && p < n
    ensures ShowsOne(Views(OnePush(n, p, x), max), p, Rec(x, 1))
  {
    ReplaceViews(n, p, n, x, max);
    var views := Views(OnePush(n, p, x), max);
    forall k | 0 <= k < |views| ensures views[k] == if k < p then [] else [Rec(x, 1)] {
      assert views[k] == RecordsAt(p, n, x, k);
    }
  }

  // ------------------------------------------------------------ twice

  predicate Only<T(==)>(records: seq<Rec<T>>, r: Rec<T>) {
    forall k :: 0 <= k < |records| ==> records[k] == r
  }

  lemma NewerOfOne<T>(r: Rec<T>, since: int)
    ensures Newer([r], since) == (if r.seqNo > since then [r] else []) && Newer<T>([], since) == []
  {
    var f := (r: Rec<T>) => if r.seqNo > since then Some(r) else None;
    assert [r][..0] == [];
    assert Collected([r][..0], f) == [];
    assert Collected([r], f) == [] + if r.seqNo > since then [r] else [];
  }

  /** Every answer and the display hold copies of the record, and the cursor moves only when
      one arrives. */
  ghost predicate CopiesOnly<T>(page: Page<T>, r: Rec<T>) {
    && Only(page.received, r)
    && (forall i :: i in page.served ==> Only(page.served[i], r))
    && (page.received == [] ==> page.cursor == 0)
  }

  lemma StepCopiesOnly<T>(page: Page<T>, event: Event, view: seq<Rec<T>>, r: Rec<T>)
    requires CopiesOnly(page, r) && (view == [] || view == [r])
    ensures CopiesOnly(Step(page, event, view, LogsPage), r)
  {
    if event.Serve? && event.poll in page.asked {
      NewerOfOne(r, page.asked[event.poll]);
    }
  }

  lemma {:induction false} OnlyCopies<T>(h: History<T>, p: nat, r: Rec<T>, n: nat)
    requires IsHistory(h) && h.client == LogsPage && ShowsOne(h.views, p, r) && n <= |h.events|
    ensures CopiesOnly(h.pages[n], r)
  {
    if n > 0 {
      OnlyCopies(h, p, r, n - 1);
      assert NextPage(h, n - 1);
      StepCopiesOnly(h.pages[n - 1], h.events[n - 1], h.views[n - 1], r);
    }
  }

  ghost predicate Blank<T>(page: Page<T>) {
    page.received == [] && page.cursor == 0 && forall i :: i in page.served ==> page.served[i] == []
  }

  lemma {:induction false} BlankBefore<T>(h: History<T>, p: nat, r: Rec<T>, n: nat)
    requires IsHistory(h) && ShowsOne(h.views, p, r) && n <= p <= |h.events|
    ensures Blank(h.pages[n])
  {
    if n > 0 {
      BlankBefore(h, p, r, n - 1);
      assert NextPage(h, n - 1);
      var page, event := h.pages[n - 1], h.events[n - 1];
      if event.Serve? && event.poll in page.asked {
        NewerOfOne(r, page.asked[event.poll]);
      }
      if event.Answer? && event.poll in page.served {
        NewerOfOne(r, page.cursor);
      }
    }
  }

  /** The answer to a poll that asked with the cursor 0 brings the record. */
  lemma AnswerCounts<T>(h: History<T>, base: nat, r: Rec<T>, p: nat, s: nat, a: nat)
    requires IsHistory(h) && h.client == LogsPage && ShowsOne(h.views, base, r) && r.seqNo > 0
    requires IsPoll(h.events, p, s, a) && base <= p && h.pages[p].cursor == 0
    ensures |h.pages[a + 1].received| == |h.pages[a].received| + 1
  {
    AnswerArrives(h, p, s, a);
    NewerOfOne(r, 0);
  }

  lemma Longer<T>(h: History<T>, m: nat, n: nat)
    requires IsHistory(h) && m <= n <= |h.events|
    ensures |h.pages[m].received| <= |h.pages[n].received|
  {
    ReceivedGrows(h, m, n);
  }

  /** Both polls ask with the cursor 0: both answers bring the record. */
  lemma BothAnswersCount<T>(h: History<T>, base: nat, r: Rec<T>, p: nat, s: nat, a: nat, q: nat, t: nat, b: nat)
    requires IsHistory(h) && h.client == LogsPage && ShowsOne(h.views, base, r) && r.seqNo > 0
    requires IsPoll(h.events, p, s, a) && base <= p && h.pages[p].cursor == 0
    requires IsPoll(h.events, q, t, b) && base <= q && h.pages[q].cursor == 0
    requires a < b
    ensures |h.pages[|h.events|].received| >= 2
  {
    AnswerCounts(h, base, r, p, s, a);
    AnswerCounts(h, base, r, q, t, b);
    Longer(h, a + 1, b);
    Longer(h, b + 1, |h.events|);
  }

  /** One of them asks after the record has arrived: the other still brings it. */
  lemma LateAnswerCounts<T>(h: History<T>, r: Rec<T>, p: nat, s: nat, a: nat, q: nat)
    requires IsHistory(h) && h.client == LogsPage && ShowsOne(h.views, p, r) && r.seqNo > 0
    requires IsPoll(h.events, p, s, a) && h.pages[p].cursor == 0 && q < a && h.pages[q].received != []
    ensures |h.pages[|h.events|].received| >= 2
  {
    AnswerCounts(h, p, r, p, s, a);
    Longer(h, q, a);
    Longer(h, a + 1, |h.events|);
  }

  /** A record pushed right before a poll that another one overlaps is displayed twice. */
  lemma OverlapRepeats<T>(h: History<T>, r: Rec<T>, i: nat, j: nat, p: nat, q: nat, a: nat)
    requires IsHistory(h) && h.client == LogsPage && ShowsOne(h.views, p, r) && r.seqNo > 0
    requires Overlap(h.events, i, j, p, q, a)
    ensures var received := h.pages[|h.events|].received; |received| >= 2 && received[0] == received[1] == r
  {
    BlankBefore(h, p, r, p);
    OnlyCopies(h, p, r, q);
    OnlyCopies(h, p, r, |h.events|);
    var p', s := PollAnsweredAt(h.events, a);
    assert p' == p;
    if h.pages[q].received == [] {
      var b :| 0 <= b < |h.events| && h.events[b] == Answer(j);
      var q', t := PollAnsweredAt(h.events, b);
      assert q' == q && h.events[a] != h.events[b];
      if a < b {
        BothAnswersCount(h, p, r, p, s, a, q, t, b);
      } else {
        BothAnswersCount(h, p, r, q, t, b, p, s, a);
      }
    } else {
      LateAnswerCounts(h, r, p, s, a, q);
    }
  }

  /** Wherever records are pushed and the buffer is cleared, the log page displays each record
      at most once exactly when no two of its answered polls overlap; and then in order. */
  lemma LogsEachOnceExactlyWhenSequential<T(!new)>(events: seq<Event>, max: nat, x: T)
    requires Schedule(events) && max >= 1
    ensures !Overlapping(events) <==>
            forall gaps: seq<seq<Action<T>>> :: |gaps| == |events| ==> NoRepeat(Received(events, gaps, max, LogsPage))
    ensures !Overlapping(events) <==>
            forall gaps: seq<seq<Action<T>>> :: |gaps| == |events| ==> Increasing(Received(events, gaps, max, LogsPage))
  {
    if i, j, p, q, a :| Overlap(events, i, j, p, q, a) {
      var gaps := OnePush(|events|, p, x);
      OnePushViews(|events|, p, x, max);
      var h := HistoryOf(events, gaps, max, LogsPage);
      OverlapRepeats(h, Rec(x, 1), i, j, p, q, a);
      var received := Received(events, gaps, max, LogsPage);
      assert |gaps| == |events| && received[0] == received[1];
    } else {
      forall gaps: seq<seq<Action<T>>> | |gaps| == |events| ensures Increasing(Received(events, gaps, max, LogsPage)) {
        BufferGivesViews(gaps, max);
        var h := HistoryOf(events, gaps, max, LogsPage);
        DisplayIsIncreasing(h, |events|);
      }
    }
  }

  function TwoTicks(): seq<Event> {
    [Ask(0), Ask(1), Serve(0), Serve(1), Answer(0), Answer(1)]
  }

  lemma TwoTicksAreScheduled()
    ensures Schedule(TwoTicks()) && Overlap(TwoTicks(), 0, 1, 0, 1, 4)
  {
    var events := TwoTicks();
    assert events[0] == Ask(0) && events[1] == Ask(1) && events[2] == Serve(0) && events[3] == Serve(1);
    assert events[4] == Answer(0) && events[5] == Answer(1);
  }

  /** Two polls with one cursor: the record is displayed twice. */
  lemma OverlappingTicksRepeat<T>(x: T, max: nat)
    requires max >= 1
    ensures var received := Received(TwoTicks(), OnePush(6, 0, x), max, LogsPage);
            |received| >= 2 && received[0] == received[1] == Rec(x, 1)
  {
    TwoTicksAreScheduled();
    OnePushViews(6, 0, x, max);
    var h := HistoryOf(TwoTicks(), OnePush(6, 0, x), max, LogsPage);
    OverlapRepeats(h, Rec(x, 1), 0, 1, 0, 1, 4);
  }

  /** The trace page displays each record at most once and in order, however its polls overlap. */
  lemma TracesEachOnce<T(!new)>(events: seq<Event>, gaps: seq<seq<Action<T>>>, max: nat)
    requires Schedule(events) && |gaps| == |events|
    ensures Increasing(Received(events, gaps, max, TracesPage))
  {
    BufferGivesViews(gaps, max);
    var h := HistoryOf(events, gaps, max, TracesPage);
    DisplayIsIncreasing(h, |events|);
  }

  // ------------------------------------------------------------ at least once

  /** A poll that is answered first was not served first. */
  ghost predicate Reversed(events: seq<Event>, p: nat, s: nat, a: nat, q: nat, t: nat, b: nat) {
    IsPoll(events, p, s, a) && IsPoll(events, q, t, b) && a < b && t <= s
  }

  /** The answers of the polls arrive in the order in which the polls were served. */
  ghost predicate AnswersInOrder(events: seq<Event>) {
    forall p: nat, s: nat, a: nat, q: nat, t: nat, b: nat :: !Reversed(events, p, s, a, q, t, b)
  }

  /** A record on display came with some answer. */
  lemma {:induction false} DisplayedCameWith<T>(h: History<T>, n: nat, m: Rec<T>) returns (p: nat, s: nat, a: nat)
    requires IsHistory(h) && n <= |h.events| && m in h.pages[n].received
    ensures IsPoll(h.events, p, s, a) && a < n && m in h.views[s]
  {
    var k := n - 1;
    if m in h.pages[k].received {
      p, s, a := DisplayedCameWith(h, k, m);
    } else if h.events[k].Answer? {
      p, s := PollAnsweredAt(h.events, k);
      a := k;
      AnswerArrives(h, p, s, a);
      ShownComesFrom(h.views[s], h.pages[p].cursor, h.pages[a].cursor, h.client, m);
    } else {
      NothingArrives(h, k);
    }
  }

  lemma ShownComesFrom<T>(view: seq<Rec<T>>, asked: nat, cursor: nat, client: Client, r: Rec<T>)
    ensures r in Displayed(client, cursor, Answered(client, asked, view)) <==>
            r in view && r.seqNo > if client == LogsPage then asked else cursor
  {
    NewerExactly(view, asked, r);
    NewerExactly(view, cursor, r);
  }

  /** A held record that an answer does not display was held when an earlier answered poll
      was served. */
  lemma HeldEarlier<T(!new)>(h: History<T>, p: nat, s: nat, a: nat, r: Rec<T>) returns (q: nat, t: nat, b: nat)
    requires IsHistory(h) && AreViews(h.views) && (h.client == LogsPage || AnswersInOrder(h.events))
    requires IsPoll(h.events, p, s, a) && r in h.views[s] && r.seqNo > 0 && r !in Shown(h, p, s, a)
    ensures IsPoll(h.events, q, t, b) && b < a && r in h.views[t]
  {
    ShownComesFrom(h.views[s], h.pages[p].cursor, h.pages[a].cursor, h.client, r);
    var n := if h.client == LogsPage then p else a;
    RunIsSound(h, n);
    var m :| m in h.pages[n].received && m.seqNo == h.pages[n].cursor;
    q, t, b := DisplayedCameWith(h, n, m);
    if h.client == TracesPage {
      assert !Reversed(h.events, q, t, b, p, s, a);
    }
  }

  lemma AnswerBrings<T>(h: History<T>, p: nat, s: nat, a: nat, r: Rec<T>)
    requires IsHistory(h) && IsPoll(h.events, p, s, a) && r in Shown(h, p, s, a)
    ensures r in h.pages[a + 1].received
  {
    AnswerArrives(h, p, s, a);
  }

  lemma StaysOnDisplay<T>(h: History<T>, m: nat, n: nat, r: Rec<T>)
    requires IsHistory(h) && m <= n <= |h.events| && r in h.pages[m].received
    ensures r in h.pages[n].received
  {
    ReceivedGrows(h, m, n);
  }

  /** Whatever the buffer holds when an answered poll is served reaches the display: on the log
      page always, on the trace page if the answers arrive in the order they were served. */
  lemma {:induction false} HeldRecordsArrive<T(!new)>(h: History<T>, p: nat, s: nat, a: nat, r: Rec<T>)
    requires IsHistory(h) && AreViews(h.views) && (h.client == LogsPage || AnswersInOrder(h.events))
    requires IsPoll(h.events, p, s, a) && r in h.views[s] && r.seqNo > 0
    ensures r in h.pages[a + 1].received
    decreases a
  {
    if r in Shown(h, p, s, a) {
      AnswerBrings(h, p, s, a, r);
    } else {
      var q, t, b := HeldEarlier(h, p, s, a, r);
      HeldRecordsArrive(h, q, t, b, r);
      StaysOnDisplay(h, b + 1, a + 1, r);
    }
  }

  /** Every record the buffer holds when an answered poll is served is on display at the end. */
  ghost predicate LosesNothing<T>(events: seq<Event>, gaps: seq<seq<Action<T>>>, max: nat, client: Client)
    requires |gaps| == |events|
  {
    forall p: nat, s: nat, a: nat, r: Rec<T> ::
      IsPoll(events, p, s, a) && r in Views(gaps, max)[s] ==> r in Received(events, gaps, max, client)
  }

  lemma NumbersArePositive<T>(gaps: seq<seq<Action<T>>>, max: nat, s: nat, r: Rec<T>)
    requires s < |gaps| && r in Views(gaps, max)[s]
    ensures r.seqNo > 0
  {
    var actions := Flatten(gaps[..s + 1]);
    BufferIsTailOfHistory(actions, max);
    TailOfLiveIsOrdered(actions, 0, max);
  }

  lemma HeldRecordsStay<T(!new)>(h: History<T>, p: nat, s: nat, a: nat, r: Rec<T>)
    requires IsHistory(h) && AreViews(h.views) && (h.client == LogsPage || AnswersInOrder(h.events))
    requires IsPoll(h.events, p, s, a) && r in h.views[s] && r.seqNo > 0
    ensures r in h.pages[|h.events|].received
  {
    HeldRecordsArrive(h, p, s, a, r);
    StaysOnDisplay(h, a + 1, |h.events|, r);
  }

  lemma RunLosesNothing<T(!new)>(events: seq<Event>, gaps: seq<seq<Action<T>>>, max: nat, client: Client)
    requires Schedule(events) && |gaps| == |events| && (client == LogsPage || AnswersInOrder(events))
    ensures LosesNothing(events, gaps, max, client)
  {
    BufferGivesViews(gaps, max);
    var h := HistoryOf(events, gaps, max, client);
    forall p: nat, s: nat, a: nat, r: Rec<T> | IsPoll(events, p, s, a) && r in Views(gaps, max)[s]
      ensures r in Received(events, gaps, max, client)
    {
      NumbersArePositive(gaps, max, s, r);
      HeldRecordsStay(h, p, s, a, r);
    }
  }

  /** The log page loses nothing that is there to be served, however its polls overlap. */
  lemma LogsLoseNothing<T(!new)>(events: seq<Event>, gaps: seq<seq<Action<T>>>, max: nat)
    requires Schedule(events) && |gaps| == |events|
    ensures LosesNothing(events, gaps, max, LogsPage)
  {
    RunLosesNothing(events, gaps, max, LogsPage);
  }

  // ------------------------------------------------------------ what the trace page loses

  /** Two polls served at `s` and `t` whose answers come the other way round, with no answered
      poll served in between. */
  ghost predicate Crossed(events: seq<Event>, p: nat, s: nat, a: nat, q: nat, t: nat, b: nat) {
    && IsPoll(events, p, s, a) && IsPoll(events, q, t, b) && s < t && b < a
    && forall p': nat, s': nat, a': nat :: IsPoll(events, p', s', a') ==> s' <= s || t <= s'
  }

  lemma SameAnswerSamePoll(events: seq<Event>, p: nat, s: nat, a: nat, q: nat, t: nat)
    requires Schedule(events) && IsPoll(events, p, s, a) && IsPoll(events, q, t, a)
    ensures p == q && s == t
  {
  }

  lemma {:induction false} CrossedPolls(events: seq<Event>, p: nat, s: nat, a: nat, q: nat, t: nat, b: nat)
    returns (p': nat, s': nat, a': nat, q': nat, t': nat, b': nat)
    requires Schedule(events) && IsPoll(events, p, s, a) && IsPoll(events, q, t, b) && s < t && b < a
    ensures Crossed(events, p', s', a', q', t', b')
    decreases t - s
  {
    if x: nat, y: nat, z: nat :| IsPoll(events, x, y, z) && s < y < t {
      if z == a {
        SameAnswerSamePoll(events, p, s, a, x, y);
      }
      if z < a {
        p', s', a', q', t', b' := CrossedPolls(events, p, s, a, x, y, z);
      } else {
        p', s', a', q', t', b' := CrossedPolls(events, x, y, z, q, t, b);
      }
    } else {
      p', s', a', q', t', b' := p, s, a, q, t, b;
    }
  }

  /** Once the later poll has been answered the cursor has passed the first record. */
  lemma CursorHasPassed<T>(h: History<T>, s: nat, t: nat, b: nat, q: nat, x: T)
    requires IsHistory(h) && s < t && ShowsTwo(h.views, s, t, x) && IsPoll(h.events, q, t, b)
    ensures h.pages[b + 1].cursor >= 2
  {
    AnswerArrives(h, q, t, b);
    ReceivedGrows(h, q, b);
    ShownComesFrom(h.views[t], h.pages[q].cursor, h.pages[b].cursor, h.client, Rec(x, 2));
    var shown := Shown(h, q, t, b);
    if Rec(x, 2) in shown {
      var k :| 0 <= k < |shown| && shown[k] == Rec(x, 2);
    }
  }

  lemma FirstIsNotShown<T>(h: History<T>, p: nat, s: nat, a: nat, q: nat, t: nat, b: nat, x: T, c: nat)
    requires IsHistory(h) && h.client == TracesPage && Crossed(h.events, p, s, a, q, t, b)
    requires ShowsTwo(h.views, s, t, x) && c < |h.events| && h.events[c].Answer?
    requires Rec(x, 1) !in h.pages[c].received
    ensures Rec(x, 1) !in h.pages[c + 1].received
  {
    var p', s' := PollAnsweredAt(h.events, c);
    AnswerArrives(h, p', s', c);
    ShownComesFrom(h.views[s'], h.pages[p'].cursor, h.pages[c].cursor, h.client, Rec(x, 1));
    if s' == s {
      assert c == a;
      CursorHasPassed(h, s, t, b, q, x);
      ReceivedGrows(h, b + 1, c);
    }
  }

  lemma {:induction false} FirstNeverArrives<T>(h: History<T>, p: nat, s: nat, a: nat, q: nat, t: nat, b: nat, x: T, n: nat)
    requires IsHistory(h) && h.client == TracesPage && Crossed(h.events, p, s, a, q, t, b)
    requires ShowsTwo(h.views, s, t, x) && n <= |h.events|
    ensures Rec(x, 1) !in h.pages[n].received
  {
    if n > 0 {
      FirstNeverArrives(h, p, s, a, q, t, b, x, n - 1);
      if h.events[n - 1].Answer? {
        FirstIsNotShown(h, p, s, a, q, t, b, x, n - 1);
      } else {
        NothingArrives(h, n - 1);
      }
    }
  }

  /** The trace page loses nothing that is there to be served, wherever records are pushed and
      cleared, exactly when the answers to its polls arrive in the order they were served. */
  lemma TracesLoseNothingExactlyWhenInOrder<T(!new)>(events: seq<Event>, max: nat, x: T)
    requires Schedule(events) && max >= 1
    ensures AnswersInOrder(events) <==>
            forall gaps: seq<seq<Action<T>>> :: |gaps| == |events| ==> LosesNothing(events, gaps, max, TracesPage)
  {
    if AnswersInOrder(events) {
      forall gaps: seq<seq<Action<T>>> | |gaps| == |events| ensures LosesNothing(events, gaps, max, TracesPage) {
        RunLosesNothing(events, gaps, max, TracesPage);
      }
    } else {
      var p: nat, s: nat, a: nat, q: nat, t: nat, b: nat :| Reversed(events, p, s, a, q, t, b);
      ServedApart(events, p, s, a, q, t, b);
      var p', s', a', q', t', b' := CrossedPolls(events, q, t, b, p, s, a);
      CrossingLosesARecord(events, max, x, p', s', a', q', t', b');
    }
  }

  lemma ServedApart(events: seq<Event>, p: nat, s: nat, a: nat, q: nat, t: nat, b: nat)
    requires Schedule(events) && IsPoll(events, p, s, a) && IsPoll(events, q, t, b) && a < b
    ensures s != t
  {
    assert events[a] != events[b];
  }

  lemma CrossingLosesARecord<T(!new)>(events: seq<Event>, max: nat, x: T, p: nat, s: nat, a: nat, q: nat, t: nat, b: nat)
    requires Schedule(events) && max >= 1 && Crossed(events, p, s, a, q, t, b)
    ensures exists gaps: seq<seq<Action<T>>> :: |gaps| == |events| && !LosesNothing(events, gaps, max, TracesPage)
  {
    var gaps := PushThenReplace(|events|, s, t, x);
    ReplaceViews(|events|, s, t, x, max);
    var h := HistoryOf(events, gaps, max, TracesPage);
    FirstNeverArrives(h, p, s, a, q, t, b, x, |events|);
    assert Rec(x, 1) in Views(gaps, max)[s];
    assert !LosesNothing(events, gaps, max, TracesPage);
  }

  // ------------------------------------------------------------ the cursor of a trace poll

  lemma NewerAppend<T>(records: seq<Rec<T>>, r: Rec<T>, since: int)
    ensures Newer(records + [r], since) == Newer(records, since) + if r.seqNo > since then [r] else []
  {
    assert (records + [r])[..|records|] == records;
  }

  lemma {:induction false} NewerOfNewer<T>(records: seq<Rec<T>>, asked: nat, cursor: nat)
    requires asked <= cursor
    ensures Newer(Newer(records, asked), cursor) == Newer(records, cursor)
  {
    if records != [] {
      var n := |records| - 1;
      NewerOfNewer(records[..n], asked, cursor);
      assert records == records[..n] + [records[n]];
      NewerAppend(records[..n], records[n], asked);
      NewerAppend(records[..n], records[n], cursor);
      if records[n].seqNo > asked {
        NewerAppend(Newer(records[..n], asked), records[n], cursor);
      } else {
        assert Newer(records[..n], asked) + [] == Newer(records[..n], asked);
      }
    }
  }

  /** The answer to a trace poll is what is newer than its cursor exactly when all that is held
      is newer. The display never shows the difference: the cursor has only moved on when the
      answer arrives. */
  lemma TraceAnswerIsNewerExactlyWhen<T>(view: seq<Rec<T>>, asked: nat, cursor: nat)
    requires asked <= cursor
    ensures Answered(TracesPage, asked, view) == Newer(view, asked) <==>
            forall k :: 0 <= k < |view| ==> view[k].seqNo > asked
    ensures Displayed(TracesPage, cursor, Answered(TracesPage, asked, view)) ==
            Displayed(TracesPage, cursor, Newer(view, asked))
  {
    NewerOfNewer(view, asked, cursor);
    if forall k :: 0 <= k < |view| ==> view[k].seqNo > asked {
      NewerIsAll(view, asked);
    } else {
      var k :| 0 <= k < |view| && view[k].seqNo <= asked;
      NewerExactly(view, asked, view[k]);
    }
  }

  lemma {:induction false} NewerIsAll<T>(records: seq<Rec<T>>, since: int)
    requires forall k :: 0 <= k < |records| ==> records[k].seqNo > since
    ensures Newer(records, since) == records
  {
    if records != [] {
      var n := |records| - 1;
      NewerIsAll(records[..n], since);
      assert records == records[..n] + [records[n]];
      NewerAppend(records[..n], records[n], since);
    }
  }

  // ------------------------------------------------------------ polls that do not overlap

  /** Polls one after another: each asks, is served and is answered before the next one asks. */
  function OneByOne(n: nat): (events: seq<Event>)
    ensures |events| == 3 * n && forall k :: 0 <= k < |events| ==> events[k] == EventAt(k)
  {
    seq(3 * n, k requires 0 <= k => EventAt(k))
  }

  function EventAt(k: nat): Event {
    if k % 3 == 0 then Ask(k / 3) else if k % 3 == 1 then Serve(k / 3) else Answer(k / 3)
  }

  /** What happens between the serving of one poll and that of the next. */
  function BetweenServings<T>(gaps: seq<seq<Action<T>>>, n: nat): (between: seq<seq<Action<T>>>)
    requires |gaps| == 3 * n
    ensures |between| == n
    ensures forall i :: 0 <= i < n ==>
              between[i] == (if i == 0 then [] else gaps[3 * i - 1]) + gaps[3 * i] + gaps[3 * i + 1]
  {
    seq(n, i requires 0 <= i < n => (if i == 0 then [] else gaps[3 * i - 1]) + gaps[3 * i] + gaps[3 * i + 1])
  }

  lemma OneByOneIsScheduled(n: nat)
    ensures Schedule(OneByOne(n))
  {
    var events := OneByOne(n);
    forall j, k | 0 <= j < k < |events| ensures events[j] != events[k] {
      assert events[j] == EventAt(j) && events[k] == EventAt(k);
    }
    forall k | 0 <= k < |events| && events[k].Serve? ensures Before(events, Ask(events[k].poll), k) {
      assert events[k] == EventAt(k) && events[k - 1] == EventAt(k - 1);
    }
    forall k | 0 <= k < |events| && events[k].Answer? ensures Before(events, Serve(events[k].poll), k) {
      assert events[k] == EventAt(k) && events[k - 1] == EventAt(k - 1);
    }
  }

  lemma PollAt(n: nat, k: nat)
    requires k < n
    ensures IsPoll(OneByOne(n), 3 * k, 3 * k + 1, 3 * k + 2)
  {
    var events := OneByOne(n);
    assert events[3 * k] == EventAt(3 * k) == Ask(k);
    assert events[3 * k + 1] == EventAt(3 * k + 1) == Serve(k);
    assert events[3 * k + 2] == EventAt(3 * k + 2) == Answer(k);
  }

  lemma TwoGaps<T>(gaps: seq<seq<T>>, k: nat)
    requires k + 2 <= |gaps|
    ensures Flatten(gaps[..k + 2]) == Flatten(gaps[..k]) + (gaps[k] + gaps[k + 1])
  {
    FlattenNext(gaps, k);
    FlattenNext(gaps, k + 1);
    assert (Flatten(gaps[..k]) + gaps[k]) + gaps[k + 1] == Flatten(gaps[..k]) + (gaps[k] + gaps[k + 1]);
  }

  lemma ThreeGaps<T>(gaps: seq<seq<T>>, k: nat)
    requires k + 3 <= |gaps|
    ensures Flatten(gaps[..k + 3]) == Flatten(gaps[..k]) + (gaps[k] + gaps[k + 1] + gaps[k + 2])
  {
    var two := gaps[k] + gaps[k + 1];
    TwoGaps(gaps, k);
    FlattenNext(gaps, k + 2);
    assert (Flatten(gaps[..k]) + two) + gaps[k + 2] == Flatten(gaps[..k]) + (two + gaps[k + 2]);
  }

  lemma FirstServing<T>(gaps: seq<seq<T>>, first: seq<seq<T>>)
    requires |gaps| >= 2 && |first| == 1 && first[0] == [] + gaps[0] + gaps[1]
    ensures Flatten(first) == Flatten(gaps[..2])
  {
    TwoGaps(gaps, 0);
    assert first[..0] == [] && gaps[..0] == [];
    assert [] + (gaps[0] + gaps[1]) == first[0];
    FlattenNext(first, 0);
    assert first[..1] == first && [] + first[0] == first[0];
  }

  lemma {:induction false} ServingsFlattened<T>(gaps: seq<seq<Action<T>>>, n: nat, k: nat)
    requires |gaps| == 3 * n && k < n
    ensures Flatten(BetweenServings(gaps, n)[..k + 1]) == Flatten(gaps[..3 * k + 2])
  {
    var between := BetweenServings(gaps, n);
    if k == 0 {
      FirstServing(gaps, between[..1]);
    } else {
      ServingsFlattened(gaps, n, k - 1);
      FlattenNext(between, k);
      ThreeGaps(gaps, 3 * k - 1);
    }
  }

  lemma PollReceives<T>(h: History<T>, n: nat, k: nat)
    requires IsHistory(h) && h.events == OneByOne(n) && k < n
    ensures |h.events| == |h.views| == 3 * n
    ensures var answer := Newer(h.views[3 * k + 1], h.pages[3 * k].cursor);
            && h.pages[3 * k + 3].received == h.pages[3 * k].received + answer
            && h.pages[3 * k + 3].cursor == Advanced(h.pages[3 * k].cursor, answer)
  {
    PollAt(n, k);
    NothingArrives(h, 3 * k);
    NothingArrives(h, 3 * k + 1);
    AnswerArrives(h, 3 * k, 3 * k + 1, 3 * k + 2);
  }

  lemma PolledNext<T>(gaps: seq<seq<Action<T>>>, max: nat, k: nat)
    requires k < |gaps|
    ensures Polled(gaps[..k + 1], max) == PolledOnce(Polled(gaps[..k], max), After(Flatten(gaps[..k + 1]), max).records)
  {
    assert gaps[..k + 1][..k] == gaps[..k];
  }

  function PolledOnce<T>(poller: Poller<T>, view: seq<Rec<T>>): Poller<T> {
    var answer := Newer(view, poller.cursor);
    Poller(Advanced(poller.cursor, answer), poller.received + answer)
  }

  /** Pollers that are served these views one after another. */
  ghost predicate ArePolled<T>(pollers: seq<Poller<T>>, views: seq<seq<Rec<T>>>, n: nat) {
    && |views| == 3 * n && |pollers| == n + 1 && pollers[0] == Poller(0, [])
    && forall i :: 0 <= i < n ==> pollers[i + 1] == PolledOnce(pollers[i], views[3 * i + 1])
  }

  lemma ServedView<T>(gaps: seq<seq<Action<T>>>, max: nat, n: nat, k: nat)
    requires |gaps| == 3 * n && k < n
    ensures Views(gaps, max)[3 * k + 1] == After(Flatten(BetweenServings(gaps, n)[..k + 1]), max).records
  {
    ServingsFlattened(gaps, n, k);
    assert gaps[..(3 * k + 1) + 1] == gaps[..3 * k + 2];
  }

  lemma PollersOf<T>(gaps: seq<seq<Action<T>>>, max: nat, n: nat) returns (pollers: seq<Poller<T>>)
    requires |gaps| == 3 * n
    ensures ArePolled(pollers, Views(gaps, max), n) && pollers[n] == Polled(BetweenServings(gaps, n), max)
  {
    var between := BetweenServings(gaps, n);
    pollers := seq(n + 1, i requires 0 <= i <= n => Polled(between[..i], max));
    forall i | 0 <= i < n ensures pollers[i + 1] == PolledOnce(pollers[i], Views(gaps, max)[3 * i + 1]) {
      ServedView(gaps, max, n, i);
      PolledNext(between, max, i);
    }
    assert between[..n] == between;
  }

  lemma {:induction false} OneByOnePages<T>(h: History<T>, pollers: seq<Poller<T>>, n: nat, k: nat)
    requires IsHistory(h) && h.events == OneByOne(n) && k <= n && ArePolled(pollers, h.views, n)
    ensures |h.events| == 3 * n && pollers[k] == Poller(h.pages[3 * k].cursor, h.pages[3 * k].received)
  {
    if k > 0 {
      OneByOnePages(h, pollers, n, k - 1);
      PollReceives(h, n, k - 1);
    }
  }

  lemma OneByOneDoesNotOverlap(n: nat)
    ensures !Overlapping(OneByOne(n))
  {
    var events := OneByOne(n);
    forall i: nat, j: nat, p: nat, q: nat, r: nat ensures !Overlap(events, i, j, p, q, r) {
    }
  }

  lemma OneByOneReceives<T>(events: seq<Event>, gaps: seq<seq<Action<T>>>, max: nat, client: Client, n: nat)
    requires events == OneByOne(n) && Schedule(events) && |gaps| == |events| == 3 * n
    ensures Received(events, gaps, max, client) == Polled(BetweenServings(gaps, n), max).received
  {
    var h := HistoryOf(events, gaps, max, client);
    var pollers := PollersOf(gaps, max, n);
    OneByOnePages(h, pollers, n, n);
  }

  /** The runs of whole polls in `RingBuffers` are those whose polls do not overlap. */
  lemma OneByOneIsPolled<T>(gaps: seq<seq<Action<T>>>, max: nat, client: Client, n: nat)
    requires |gaps| == 3 * n
    ensures Schedule(OneByOne(n)) && !Overlapping(OneByOne(n))
    ensures Received(OneByOne(n), gaps, max, client) == Polled(BetweenServings(gaps, n), max).received
  {
    OneByOneIsScheduled(n);
    OneByOneDoesNotOverlap(n);
    OneByOneReceives(OneByOne(n), gaps, max, client, n);
  }
}
