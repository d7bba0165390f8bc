/** The two bounded buffers of the development hub: `LogBuffer` (src/core/dx/log-buffer.ts)
    and `TraceBuffer` (src/core/dx/trace-buffer.ts). Both keep the newest records and number
    every record they ever took. */
module RingBuffers {
  import opened Lists
  import opened Text

  datatype Rec<T> = Rec(value: T, seqNo: nat)

  /** The last `n` elements, or all of them when there are fewer. */
  function Tail<T>(s: seq<T>, n: int): seq<T> {
    if n >= |s| then s else if n <= 0 then [] else s[|s| - n..]
  }

  function Newer<T>(records: seq<Rec<T>>, sinceSeq: int): seq<Rec<T>> {
    Collected(records, (r: Rec<T>) => if r.seqNo > sinceSeq then Some(r) else None)
  }

  /** `count >= length ? all : slice(-count)`, for every integer. */
  function Recent<T>(records: seq<T>, count: int): seq<T> {
    if count >= |records| then records
    else if count > 0 then records[|records| - count..]
    else if -count < |records| then records[-count..]
    else []
  }

  /** `recent` returns the newest `count` records exactly when some are asked for or there are
      none to return: asking for 0 returns all, and a small negative count cuts off the oldest. */
  lemma RecentIsTailExactlyWhen<T>(records: seq<T>, count: int)
    ensures Recent(records, count) == Tail(records, count) <==>
            count > 0 || records == [] || -count >= |records|
  {
  }

  class LogBuffer<T> {
    const max: int
    var records: seq<Rec<T>>
    var nextSeq: nat

    constructor (maxRecords: int)
      ensures max == (if maxRecords < 1 then 1 else maxRecords) && records == [] && nextSeq == 1
    {
      max := if maxRecords < 1 then 1 else maxRecords;
      records := [];
      nextSeq := 1;
    }

    method Push(record: T)
      requires max >= 1
      modifies this
      ensures records == Tail(old(records) + [Rec(record, old(nextSeq))], max)
      ensures nextSeq == old(nextSeq) + 1
    {
      records := records + [Rec(record, nextSeq)];
      nextSeq := nextSeq + 1;
      if |records| > max {
        records := records[|records| - max..];
      }
    }

    method RecentRecords(count: int) returns (r: seq<Rec<T>>)
      ensures r == Recent(records, count)
    {
      if count >= |records| { return records; }
      r := if count > 0 then records[|records| - count..] else if -count < |records| then records[-count..] else [];
    }

    method Since(sinceSeq: int) returns (r: seq<Rec<T>>)
      ensures r == Newer(records, sinceSeq)
    {
      r := Newer(records, sinceSeq);
    }

    method Clear()
      modifies this
      ensures records == [] && nextSeq == old(nextSeq)
    {
      records := [];
    }
  }

  datatype Trace = Trace(requestId: string, status: int, durationMs: int)

  function Matching(records: seq<Rec<Trace>>, requestId: Option<string>): seq<Rec<Trace>> {
    if requestId.None? || requestId.value == "" then records
    else Collected(records, (r: Rec<Trace>) => if Includes(r.value.requestId, requestId.value) then Some(r) else None)
  }

  /** Which of the first `n` records are server errors. */
  function ServerErrors(records: seq<Rec<Trace>>, n: nat): set<int>
    requires n <= |records|
  {
    set k | 0 <= k < n && records[k].value.status >= 500
  }

  lemma OneMoreChecked(records: seq<Rec<Trace>>, n: nat)
    requires n < |records|
    ensures |ServerErrors(records, n + 1)| == |ServerErrors(records, n)| + if records[n].value.status >= 500 then 1 else 0
  {
    var before := ServerErrors(records, n);
    assert ServerErrors(records, n + 1) == if records[n].value.status >= 500 then before + {n} else before;
  }

  class TraceBuffer {
    const capacity: nat
    var buffer: seq<Rec<Trace>>
    var nextSeq: nat

    constructor (capacity: nat)
      ensures this.capacity == capacity && buffer == [] && nextSeq == 1
    {
      this.capacity := capacity;
      buffer := [];
      nextSeq := 1;
    }

    method Record(trace: Trace)
      modifies this
      ensures buffer == Tail(old(buffer) + [Rec(trace, old(nextSeq))], capacity)
      ensures nextSeq == old(nextSeq) + 1
    {
      buffer := buffer + [Rec(trace, nextSeq)];
      nextSeq := nextSeq + 1;
      ghost var all := buffer;
      while |buffer| > capacity
        invariant nextSeq == old(nextSeq) + 1
        invariant |buffer| <= |all| && (|buffer| >= capacity || buffer == all)
        invariant buffer == all[|all| - |buffer|..]
      {
        buffer := buffer[1..];
      }
    }

    method Since(sinceSeq: int) returns (r: seq<Rec<Trace>>)
      ensures r == Newer(buffer, sinceSeq)
    {
      r := Newer(buffer, sinceSeq);
    }

    method RecentTraces(requestId: Option<string>, limit: Option<int>) returns (r: seq<Rec<Trace>>)
      ensures r == if limit.Some? then Tail(Matching(buffer, requestId), limit.value) else Matching(buffer, requestId)
    {
      var traces := Matching(buffer, requestId);
      if limit.Some? && limit.value < |traces| {
        traces := if limit.value < 0 then [] else traces[|traces| - limit.value..];
      }
      r := traces;
    }

    method Summary() returns (total: nat, errors: nat, slowestMs: int)
      ensures total == |buffer|
      ensures errors == |set k | 0 <= k < |buffer| && buffer[k].value.status >= 500|
      ensures slowestMs >= 0 && forall k :: 0 <= k < |buffer| ==> buffer[k].value.durationMs <= slowestMs
      ensures slowestMs > 0 ==> exists k :: 0 <= k < |buffer| && buffer[k].value.durationMs == slowestMs
    {
      errors, slowestMs := 0, 0;
      var i := 0;
      while i < |buffer|
        invariant 0 <= i <= |buffer|
        invariant errors == |ServerErrors(buffer, i)|
        invariant slowestMs >= 0 && forall k :: 0 <= k < i ==> buffer[k].value.durationMs <= slowestMs
        invariant slowestMs > 0 ==> exists k :: 0 <= k < i && buffer[k].value.durationMs == slowestMs
      {
        var t := buffer[i].value;
        OneMoreChecked(buffer, i);
        if t.status >= 500 { errors := errors + 1; }
        if t.durationMs > slowestMs { slowestMs := t.durationMs; }
        i := i + 1;
      }
      total := |buffer|;
    }

    method Clear()
      modifies this
      ensures buffer == [] && nextSeq == old(nextSeq)
    {
      buffer := [];
    }
  }

  // ------------------------------------------------------------ runs

  datatype Action<T> = Push(record: T) | Clear

  datatype State<T> = State(records: seq<Rec<T>>, nextSeq: nat)

  /** What `Push` (or `Record`) and `Clear` ensure, as a function. */
  function Act<T>(s: State<T>, a: Action<T>, max: nat): State<T> {
    match a
    case Push(x) => State(Tail(s.records + [Rec(x, s.nextSeq)], max), s.nextSeq + 1)
    case Clear => State([], s.nextSeq)
  }

  function After<T>(actions: seq<Action<T>>, max: nat): State<T> {
    if actions == [] then State([], 1) else Act(After(actions[..|actions| - 1], max), actions[|actions| - 1], max)
  }

  function Pushes<T>(actions: seq<Action<T>>): nat {
    if actions == [] then 0
    else Pushes(actions[..|actions| - 1]) + if actions[|actions| - 1].Push? then 1 else 0
  }

  /** Every record pushed, numbered from `base + 1`. */
  function AllPushed<T>(actions: seq<Action<T>>, base: nat): seq<Rec<T>> {
    if actions == [] then []
    else
      var before, a := actions[..|actions| - 1], actions[|actions| - 1];
      AllPushed(before, base) + if a.Push? then [Rec(a.record, base + Pushes(before) + 1)] else []
  }

  /** Those pushed after the last clear. */
  function Live<T>(actions: seq<Action<T>>, base: nat): seq<Rec<T>> {
    if actions == [] then []
    else
      var before, a := actions[..|actions| - 1], actions[|actions| - 1];
      if a.Push? then Live(before, base) + [Rec(a.record, base + Pushes(before) + 1)] else []
  }

  lemma TailOfTails<T>(s: seq<T>, y: seq<T>, max: nat)
    ensures Tail(Tail(s, max) + y, max) == Tail(s + y, max)
  {
  }

  /** After any pushes and clears the buffer is the last records since the last clear, as many
      as fit, each with the number of its push. */
  lemma {:induction false} BufferIsTailOfHistory<T>(actions: seq<Action<T>>, max: nat)
    ensures After(actions, max) == State(Tail(Live(actions, 0), max), Pushes(actions) + 1)
  {
    if actions != [] {
      var before, a := actions[..|actions| - 1], actions[|actions| - 1];
      BufferIsTailOfHistory(before, max);
      if a.Push? {
        TailOfTails(Live(before, 0), [Rec(a.record, Pushes(before) + 1)], max);
      }
    }
  }

  /** Numbers are contiguous and never reused, clears or not. */
  lemma {:induction false} NumbersAreContiguous<T>(actions: seq<Action<T>>, base: nat)
    ensures |AllPushed(actions, base)| == Pushes(actions)
    ensures forall k :: 0 <= k < Pushes(actions) ==> AllPushed(actions, base)[k].seqNo == base + 1 + k
  {
    if actions != [] {
      NumbersAreContiguous(actions[..|actions| - 1], base);
    }
  }

  /** What is live are the last records pushed. */
  lemma {:induction false} LiveIsTailOfPushed<T>(actions: seq<Action<T>>, base: nat)
    ensures |Live(actions, base)| <= |AllPushed(actions, base)|
    ensures Live(actions, base) == Tail(AllPushed(actions, base), |Live(actions, base)|)
  {
    if actions != [] {
      var before, a := actions[..|actions| - 1], actions[|actions| - 1];
      LiveIsTailOfPushed(before, base);
      if a.Push? {
        TailAndOne(AllPushed(before, base), |Live(before, base)|, Rec(a.record, base + Pushes(before) + 1));
      }
    }
  }

  lemma TailAndOne<T>(s: seq<T>, n: nat, x: T)
    ensures Tail(s, n) + [x] == Tail(s + [x], n + 1)
  {
  }

  // ------------------------------------------------------------ polling

  predicate Clears<T>(actions: seq<Action<T>>) {
    exists k :: 0 <= k < |actions| && actions[k].Clear?
  }

  lemma {:induction false} PushesAdd<T>(a: seq<Action<T>>, b: seq<Action<T>>)
    ensures Pushes(a + b) == Pushes(a) + Pushes(b)
  {
    if b == [] {
      assert a + b == a;
    } else {
      PushesAdd(a, b[..|b| - 1]);
      assert (a + b)[..|a + b| - 1] == a + b[..|b| - 1];
    }
  }

  lemma {:induction false} LiveContinues<T>(a: seq<Action<T>>, b: seq<Action<T>>)
    ensures Live(a + b, 0) == (if Clears(b) then [] else Live(a, 0)) + Live(b, Pushes(a))
  {
    if b == [] {
      assert a + b == a;
    } else {
      var n := |b| - 1;
      LiveContinues(a, b[..n]);
      PushesAdd(a, b[..n]);
      assert (a + b)[..|a + b| - 1] == a + b[..n];
      if b[n].Push? && Clears(b) {
        var k :| 0 <= k < |b| && b[k].Clear?;
        assert b[..n][k].Clear?;
      }
    }
  }

  lemma {:induction false} NewerConcat<T>(x: seq<Rec<T>>, y: seq<Rec<T>>, since: int)
    ensures Newer(x + y, since) == Newer(x, since) + Newer(y, since)
  {
    if y == [] {
      assert x + y == x;
    } else {
      var n := |y| - 1;
      NewerConcat(x, y[..n], since);
      assert (x + y)[..|x| + n] == x + y[..n];
    }
  }

  lemma {:induction false} NewerAllOrNone<T>(x: seq<Rec<T>>, since: int)
    ensures (forall k :: 0 <= k < |x| ==> x[k].seqNo > since) ==> Newer(x, since) == x
    ensures (forall k :: 0 <= k < |x| ==> x[k].seqNo <= since) ==> Newer(x, since) == []
  {
    if x != [] {
      NewerAllOrNone(x[..|x| - 1], since);
    }
  }

  lemma TailOfConcat<T>(x: seq<T>, y: seq<T>, n: nat)
    ensures Tail(x + y, n) == Tail(x, n - |y|) + Tail(y, n)
  {
  }

  lemma TailFrom<T>(s: seq<T>, n: int)
    ensures forall x :: x in Tail(s, n) ==> x in s
  {
  }

  lemma NewerOfTail<T>(x: seq<Rec<T>>, y: seq<Rec<T>>, since: int, max: nat)
    requires forall r :: r in x ==> r.seqNo <= since
    requires forall r :: r in y ==> r.seqNo > since
    ensures Newer(Tail(x + y, max), since) == Tail(y, max)
  {
    var known, unseen := Tail(x, max - |y|), Tail(y, max);
    TailOfConcat(x, y, max);
    TailFrom(x, max - |y|);
    TailFrom(y, max);
    NewerConcat(known, unseen, since);
    NewerAllOrNone(known, since);
    NewerAllOrNone(unseen, since);
  }

  lemma {:induction false} LiveNumbers<T>(actions: seq<Action<T>>, base: nat)
    ensures forall k :: 0 <= k < |Live(actions, base)| ==> base < Live(actions, base)[k].seqNo <= base + Pushes(actions)
  {
    if actions != [] {
      LiveNumbers(actions[..|actions| - 1], base);
    }
  }

  /** What the buffer holds is known to a poller with this cursor. */
  ghost predicate Seen<T>(a: seq<Action<T>>, max: nat, cursor: nat) {
    && cursor <= Pushes(a)
    && var held := After(a, max).records; forall k :: 0 <= k < |held| ==> held[k].seqNo <= cursor
  }

  /** A poller that has seen what the buffer holds gets, at its next poll, the records pushed
      since that are still in the buffer. */
  lemma PollSeesNewRecords<T>(a: seq<Action<T>>, b: seq<Action<T>>, max: nat, cursor: nat)
    requires Seen(a, max, cursor)
    ensures Newer(After(a + b, max).records, cursor) == Tail(Live(b, Pushes(a)), max)
  {
    BufferIsTailOfHistory(a, max);
    BufferIsTailOfHistory(a + b, max);
    LiveContinues(a, b);
    LiveNumbers(b, Pushes(a));
    var live := Live(b, Pushes(a));
    if Clears(b) {
      NewerOfTail([], live, cursor, max);
      assert [] + live == live;
    } else {
      TailOfTails(Live(a, 0), live, max);
      NewerOfTail(Tail(Live(a, 0), max), live, cursor, max);
    }
  }

  /** The buffer after the gap holds what was known, unless a clear discarded it, and what the
      poll returns. */
  lemma HeldIsKnownOrNew<T>(a: seq<Action<T>>, b: seq<Action<T>>, max: nat, r: Rec<T>)
    requires r in After(a + b, max).records
    ensures r in After(a, max).records || r in Tail(Live(b, Pushes(a)), max)
  {
    BufferIsTailOfHistory(a, max);
    BufferIsTailOfHistory(a + b, max);
    LiveContinues(a, b);
    if !Clears(b) {
      TailOfTails(Live(a, 0), Live(b, Pushes(a)), max);
      var held, live := Tail(Live(a, 0), max), Live(b, Pushes(a));
      TailOfConcat(held, live, max);
      TailFrom(held, max - |live|);
    } else {
      assert [] + Live(b, Pushes(a)) == Live(b, Pushes(a));
    }
  }

  // ------------------------------------------------------------ runs of polls

  /** The page's cursor: the greatest number it has received. */
  function Advanced<T>(cursor: nat, records: seq<Rec<T>>): (c: nat)
    ensures c >= cursor
    ensures forall k :: 0 <= k < |records| ==> records[k].seqNo <= c
  {
    if records == [] then cursor
    else
      var before, last := Advanced(cursor, records[..|records| - 1]), records[|records| - 1].seqNo;
      if last > before then last else before
  }

  lemma {:induction false} AdvancedAtMost<T>(cursor: nat, records: seq<Rec<T>>, bound: nat)
    requires cursor <= bound && forall k :: 0 <= k < |records| ==> records[k].seqNo <= bound
    ensures Advanced(cursor, records) <= bound
  {
    if records != [] {
      AdvancedAtMost(cursor, records[..|records| - 1], bound);
    }
  }

  datatype Poller<T> = Poller(cursor: nat, received: seq<Rec<T>>)

  /** A page that polls after each of these stretches of pushes and clears. */
  function Polled<T>(gaps: seq<seq<Action<T>>>, max: nat): Poller<T> {
    if gaps == [] then Poller(0, [])
    else
      var before := Polled(gaps[..|gaps| - 1], max);
      var answer := Newer(After(Flatten(gaps), max).records, before.cursor);
      Poller(Advanced(before.cursor, answer), before.received + answer)
  }

  lemma {:induction false} PollerHasSeen<T>(gaps: seq<seq<Action<T>>>, max: nat)
    ensures Seen(Flatten(gaps), max, Polled(gaps, max).cursor)
  {
    if gaps != [] {
      var n := |gaps| - 1;
      var a, b := Flatten(gaps[..n]), gaps[n];
      PollerHasSeen(gaps[..n], max);
      PollKeepsSeen(a, b, max, Polled(gaps[..n], max).cursor);
      PollSeesNewRecords(a, b, max, Polled(gaps[..n], max).cursor);
    }
  }

  lemma PollKeepsSeen<T>(a: seq<Action<T>>, b: seq<Action<T>>, max: nat, cursor: nat)
    requires Seen(a, max, cursor)
    ensures Seen(a + b, max, Advanced(cursor, Tail(Live(b, Pushes(a)), max)))
  {
    var answer, held := Tail(Live(b, Pushes(a)), max), After(a + b, max).records;
    PushesAdd(a, b);
    LiveNumbers(b, Pushes(a));
    AdvancedAtMost(cursor, answer, Pushes(a + b));
    forall k | 0 <= k < |held| ensures held[k].seqNo <= Advanced(cursor, answer) {
      HeldIsKnownOrNew(a, b, max, held[k]);
    }
  }

  lemma {:induction false} AllPushedContinues<T>(a: seq<Action<T>>, b: seq<Action<T>>)
    ensures AllPushed(a + b, 0) == AllPushed(a, 0) + AllPushed(b, Pushes(a))
  {
    if b == [] {
      assert a + b == a;
    } else {
      var n := |b| - 1;
      AllPushedContinues(a, b[..n]);
      PushesAdd(a, b[..n]);
      assert (a + b)[..|a + b| - 1] == a + b[..n];
    }
  }

  /** One poll more: what it returns, and what there was to return. */
  lemma OnePollMore<T>(gaps: seq<seq<Action<T>>>, max: nat)
    requires gaps != []
    ensures var n := |gaps| - 1;
            var base := Pushes(Flatten(gaps[..n]));
            && Polled(gaps, max).received == Polled(gaps[..n], max).received + Tail(Live(gaps[n], base), max)
            && AllPushed(Flatten(gaps), 0) == AllPushed(Flatten(gaps[..n]), 0) + AllPushed(gaps[n], base)
  {
    var n := |gaps| - 1;
    PollerHasSeen(gaps[..n], max);
    PollSeesNewRecords(Flatten(gaps[..n]), gaps[n], max, Polled(gaps[..n], max).cursor);
    AllPushedContinues(Flatten(gaps[..n]), gaps[n]);
  }

  /** However polls, pushes and clears interleave, the page receives pushed records only, each
      at most once and in the order they were pushed. */
  lemma {:induction false} PollsReceiveEachOnce<T>(gaps: seq<seq<Action<T>>>, max: nat)
    ensures var received := Polled(gaps, max).received;
            && (forall r :: r in received ==> r in AllPushed(Flatten(gaps), 0))
            && (forall i, j :: 0 <= i < j < |received| ==> received[i].seqNo < received[j].seqNo)
            && (forall i :: 0 <= i < |received| ==> received[i].seqNo <= Pushes(Flatten(gaps)))
  {
    if gaps != [] {
      var n := |gaps| - 1;
      var base := Pushes(Flatten(gaps[..n]));
      PollsReceiveEachOnce(gaps[..n], max);
      OnePollMore(gaps, max);
      PushesAdd(Flatten(gaps[..n]), gaps[n]);
      TailOfLiveIsOrdered(gaps[n], base, max);
      InOrder(Polled(gaps[..n], max).received, Tail(Live(gaps[n], base), max), base);
    }
  }

  lemma TailOfTail<T>(s: seq<T>, l: nat, n: nat)
    ensures Tail(Tail(s, l), n) == Tail(s, if l < n then l else n)
  {
  }

  lemma TailIsOrdered<T>(all: seq<Rec<T>>, n: nat, base: nat)
    requires forall k :: 0 <= k < |all| ==> all[k].seqNo == base + 1 + k
    ensures var answer := Tail(all, n);
            && (forall r :: r in answer ==> r in all)
            && (forall i, j :: 0 <= i < j < |answer| ==> answer[i].seqNo < answer[j].seqNo)
            && (forall i :: 0 <= i < |answer| ==> base < answer[i].seqNo <= base + |all|)
  {
    var answer := Tail(all, n);
    assert forall k :: 0 <= k < |answer| ==> answer[k] == all[|all| - |answer| + k];
  }

  lemma TailOfLiveIsOrdered<T>(b: seq<Action<T>>, base: nat, max: nat)
    ensures var answer := Tail(Live(b, base), max);
            && (forall r :: r in answer ==> r in AllPushed(b, base))
            && (forall i, j :: 0 <= i < j < |answer| ==> answer[i].seqNo < answer[j].seqNo)
            && (forall i :: 0 <= i < |answer| ==> base < answer[i].seqNo <= base + Pushes(b))
  {
    NumbersAreContiguous(b, base);
    LiveIsTailOfPushed(b, base);
    var l := |Live(b, base)|;
    TailOfTail(AllPushed(b, base), l, max);
    TailIsOrdered(AllPushed(b, base), if l < max then l else max, base);
  }

  lemma InOrder<T>(x: seq<Rec<T>>, y: seq<Rec<T>>, bound: nat)
    requires forall i, j :: 0 <= i < j < |x| ==> x[i].seqNo < x[j].seqNo
    requires forall i, j :: 0 <= i < j < |y| ==> y[i].seqNo < y[j].seqNo
    requires forall i :: 0 <= i < |x| ==> x[i].seqNo <= bound
    requires forall i :: 0 <= i < |y| ==> y[i].seqNo > bound
    ensures forall i, j :: 0 <= i < j < |x + y| ==> (x + y)[i].seqNo < (x + y)[j].seqNo
  {
  }

  /** No clear of the gap discards a record pushed in it. */
  predicate NoPushCleared<T>(b: seq<Action<T>>) {
    forall i, j :: 0 <= i < j < |b| && b[i].Push? ==> b[j].Push?
  }

  lemma {:induction false} NoPushes<T>(b: seq<Action<T>>)
    ensures Pushes(b) == 0 <==> forall i :: 0 <= i < |b| ==> b[i].Clear?
  {
    if b != [] {
      NoPushes(b[..|b| - 1]);
      assert forall i :: 0 <= i < |b| - 1 ==> b[..|b| - 1][i] == b[i];
    }
  }

  /** Everything pushed is still live exactly when no clear follows a push. */
  lemma {:induction false} AllIsLiveExactlyWhen<T>(b: seq<Action<T>>, base: nat)
    ensures |Live(b, base)| == |AllPushed(b, base)| <==> NoPushCleared(b)
  {
    if b != [] {
      var n := |b| - 1;
      AllIsLiveExactlyWhen(b[..n], base);
      NumbersAreContiguous(b[..n], base);
      NoPushes(b[..n]);
      assert forall i :: 0 <= i < n ==> b[..n][i] == b[i];
    }
  }

  /** Nothing pushed in this stretch is lost before the poll at its end. */
  predicate IsKept<T>(b: seq<Action<T>>, max: nat) {
    Pushes(b) <= max && NoPushCleared(b)
  }

  lemma GapIsReceivedExactlyWhen<T>(b: seq<Action<T>>, base: nat, max: nat)
    ensures |Tail(Live(b, base), max)| <= |AllPushed(b, base)|
    ensures Tail(Live(b, base), max) == AllPushed(b, base) <==> IsKept(b, max)
  {
    NumbersAreContiguous(b, base);
    LiveIsTailOfPushed(b, base);
    AllIsLiveExactlyWhen(b, base);
  }

  /** The page receives every record exactly when, in each gap between its polls, no clear
      discards a record pushed in the gap and no more are pushed than the buffer holds. */
  lemma {:induction false} PollsAreCompleteExactlyWhen<T>(gaps: seq<seq<Action<T>>>, max: nat)
    ensures |Polled(gaps, max).received| <= |AllPushed(Flatten(gaps), 0)|
    ensures Polled(gaps, max).received == AllPushed(Flatten(gaps), 0) <==>
            forall k :: 0 <= k < |gaps| ==> IsKept(gaps[k], max)
  {
    if gaps != [] {
      var n := |gaps| - 1;
      PollsAreCompleteExactlyWhen(gaps[..n], max);
      LastPollIsCompleteExactlyWhen(gaps, max);
      assert forall k :: 0 <= k < n ==> gaps[..n][k] == gaps[k];
    }
  }

  lemma LastPollIsCompleteExactlyWhen<T>(gaps: seq<seq<Action<T>>>, max: nat)
    requires gaps != []
    requires |Polled(gaps[..|gaps| - 1], max).received| <= |AllPushed(Flatten(gaps[..|gaps| - 1]), 0)|
    ensures |Polled(gaps, max).received| <= |AllPushed(Flatten(gaps), 0)|
    ensures Polled(gaps, max).received == AllPushed(Flatten(gaps), 0) <==>
            && Polled(gaps[..|gaps| - 1], max).received == AllPushed(Flatten(gaps[..|gaps| - 1]), 0)
            && IsKept(gaps[|gaps| - 1], max)
  {
    var before, gap := gaps[..|gaps| - 1], gaps[|gaps| - 1];
    var base := Pushes(Flatten(before));
    OnePollMore(gaps, max);
    GapIsReceivedExactlyWhen(gap, base, max);
    SameWhole(Polled(before, max).received, AllPushed(Flatten(before), 0),
              Tail(Live(gap, base), max), AllPushed(gap, base));
  }

  lemma SameWhole<T>(x: seq<T>, x': seq<T>, y: seq<T>, y': seq<T>)
    requires |x| <= |x'| && |y| <= |y'|
    ensures x + y == x' + y' <==> x == x' && y == y'
  {
    if x + y == x' + y' {
      assert |x| + |y| == |x'| + |y'|;
      assert x == (x + y)[..|x|] && x' == (x' + y')[..|x'|];
      assert y == (x + y)[|x|..] && y' == (x' + y')[|x'|..];
    }
  }
}
