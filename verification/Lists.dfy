/** Options and the list operations shared by the planners. */
module Lists {

  datatype Option<T> = None | Some(value: T)

  function Mapped<T, U>(s: seq<T>, f: T -> U): (r: seq<U>)
    ensures |r| == |s|
    ensures forall k :: 0 <= k < |s| ==> r[k] == f(s[k])
  {
    seq(|s|, k requires 0 <= k < |s| => f(s[k]))
  }

  /** Applies a partial conversion to every element and keeps the results, in order. */
  function Collected<T, U>(s: seq<T>, f: T -> Option<U>): seq<U> {
    if s == [] then []
    else
      var i := |s| - 1;
      Collected(s[..i], f) + if f(s[i]).Some? then [f(s[i]).value] else []
  }

  lemma {:induction false} CollectedExactly<T, U>(s: seq<T>, f: T -> Option<U>, u: U)
    ensures u in Collected(s, f) <==> exists k :: 0 <= k < |s| && f(s[k]) == Some(u)
  {
    if s != [] {
      var i := |s| - 1;
      CollectedExactly(s[..i], f, u);
      if u in Collected(s[..i], f) {
        var k :| 0 <= k < i && f(s[..i][k]) == Some(u);
        assert f(s[k]) == Some(u);
      }
      if k :| 0 <= k < i && f(s[k]) == Some(u) {
        assert f(s[..i][k]) == Some(u);
      }
    }
  }

  /** `at` are the places the results come from: in order, and all that yield one. */
  ghost predicate ArePlaces<T, U>(at: seq<nat>, s: seq<T>, f: T -> Option<U>, results: seq<U>) {
    && |at| == |results|
    && (forall i, j :: 0 <= i < j < |at| ==> at[i] < at[j])
    && (forall i :: 0 <= i < |at| ==> at[i] < |s| && f(s[at[i]]) == Some(results[i]))
    && forall k :: 0 <= k < |s| && f(s[k]).Some? ==> k in at
  }

  lemma NextPlace<T, U>(at: seq<nat>, s: seq<T>, f: T -> Option<U>, results: seq<U>) returns (next: seq<nat>)
    requires s != [] && ArePlaces(at, s[..|s| - 1], f, results)
    ensures var last := f(s[|s| - 1]); ArePlaces(next, s, f, results + if last.Some? then [last.value] else [])
  {
    var n := |s| - 1;
    next := at + if f(s[n]).Some? then [n] else [];
    forall i | 0 <= i < |at| ensures at[i] < |s| && f(s[at[i]]) == Some(results[i]) {
      assert s[at[i]] == s[..n][at[i]];
    }
    forall k | 0 <= k < |s| && f(s[k]).Some? ensures k in next {
      if k < n {
        assert s[k] == s[..n][k];
      }
    }
  }

  lemma {:induction false} CollectedFrom<T, U>(s: seq<T>, f: T -> Option<U>) returns (at: seq<nat>)
    ensures ArePlaces(at, s, f, Collected(s, f))
  {
    at := [];
    if s != [] {
      at := CollectedFrom(s[..|s| - 1], f);
      at := NextPlace(at, s, f, Collected(s[..|s| - 1], f));
    }
  }

  function Kept<T>(s: seq<T>, keep: T -> bool): seq<T> {
    if s == [] then [] else (if keep(s[0]) then [s[0]] else []) + Kept(s[1..], keep)
  }

  lemma {:induction false} KeptConcat<T>(a: seq<T>, b: seq<T>, keep: T -> bool)
    ensures Kept(a + b, keep) == Kept(a, keep) + Kept(b, keep)
  {
    if a == [] {
      assert a + b == b;
    } else {
      assert (a + b)[1..] == a[1..] + b;
      KeptConcat(a[1..], b, keep);
      var head, x, y := if keep(a[0]) then [a[0]] else [], Kept(a[1..], keep), Kept(b, keep);
      assert head + (x + y) == (head + x) + y;
    }
  }

  lemma {:induction false} KeptAllOrNone<T>(s: seq<T>, keep: T -> bool)
    ensures (forall k :: 0 <= k < |s| ==> keep(s[k])) ==> Kept(s, keep) == s
    ensures (forall k :: 0 <= k < |s| ==> !keep(s[k])) ==> Kept(s, keep) == []
  {
    if s != [] {
      KeptAllOrNone(s[1..], keep);
    }
  }

  lemma {:induction false} KeptExactly<T>(s: seq<T>, keep: T -> bool)
    ensures forall x :: x in Kept(s, keep) <==> x in s && keep(x)
  {
    if s != [] {
      KeptExactly(s[1..], keep);
      assert s == [s[0]] + s[1..];
    }
  }

  function Flatten<T>(ss: seq<seq<T>>): seq<T> {
    if ss == [] then [] else Flatten(ss[..|ss| - 1]) + ss[|ss| - 1]
  }

  // ------------------------------------------------------------ runs of a step function

  /** The state after the inputs `xs`, taken one by one. */
  function Run<S, T>(s: S, xs: seq<T>, step: (S, T) -> S): S {
    if xs == [] then s else step(Run(s, xs[..|xs| - 1], step), xs[|xs| - 1])
  }

  /** What the steps of a run emit, in order. */
  function Emitted<S, T, U>(s: S, xs: seq<T>, step: (S, T) -> S, emit: (S, T) -> seq<U>): seq<U> {
    if xs == [] then []
    else
      var n := |xs| - 1;
      Emitted(s, xs[..n], step, emit) + emit(Run(s, xs[..n], step), xs[n])
  }

  lemma RunOfOne<S, T>(s: S, x: T, step: (S, T) -> S)
    ensures Run(s, [x], step) == step(s, x)
  {
    assert [x][..0] == [];
    assert Run(s, [x][..0], step) == s;
  }

  lemma {:induction false} RunConcatenates<S, T>(s: S, xs: seq<T>, ys: seq<T>, step: (S, T) -> S)
    ensures Run(s, xs + ys, step) == Run(Run(s, xs, step), ys, step)
  {
    if ys == [] {
      assert xs + ys == xs;
    } else {
      var n := |ys| - 1;
      RunConcatenates(s, xs, ys[..n], step);
      assert (xs + ys)[..|xs| + n] == xs + ys[..n];
    }
  }

  lemma Associates<T>(x: seq<T>, y: seq<T>, z: seq<T>)
    ensures (x + y) + z == x + (y + z)
  {
  }

  lemma {:induction false} EmittedConcatenates<S, T, U>(s: S, xs: seq<T>, ys: seq<T>,
                                                        step: (S, T) -> S, emit: (S, T) -> seq<U>)
    ensures Emitted(s, xs + ys, step, emit) == Emitted(s, xs, step, emit) + Emitted(Run(s, xs, step), ys, step, emit)
  {
    if ys == [] {
      assert xs + ys == xs;
    } else {
      var n := |ys| - 1;
      var m := Run(s, xs, step);
      EmittedConcatenates(s, xs, ys[..n], step, emit);
      RunConcatenates(s, xs, ys[..n], step);
      assert (xs + ys)[..|xs| + n] == xs + ys[..n] && (xs + ys)[|xs| + n] == ys[n];
      Associates(Emitted(s, xs, step, emit), Emitted(m, ys[..n], step, emit), emit(Run(m, ys[..n], step), ys[n]));
    }
  }

  ghost predicate EmitsAt<S, T, U>(s: S, xs: seq<T>, step: (S, T) -> S, emit: (S, T) -> seq<U>, k: nat, u: U)
    requires k < |xs|
  {
    u in emit(Run(s, xs[..k], step), xs[k])
  }

  lemma {:induction false} EmittedExactly<S, T, U>(s: S, xs: seq<T>, step: (S, T) -> S, emit: (S, T) -> seq<U>, u: U)
    ensures u in Emitted(s, xs, step, emit) <==> exists k: nat :: k < |xs| && EmitsAt(s, xs, step, emit, k, u)
  {
    if xs != [] {
      var n := |xs| - 1;
      EmittedExactly(s, xs[..n], step, emit, u);
      forall k: nat | k < n ensures EmitsAt(s, xs[..n], step, emit, k, u) == EmitsAt(s, xs, step, emit, k, u) {
        assert xs[..n][..k] == xs[..k];
      }
      assert EmitsAt(s, xs, step, emit, n, u) == (u in emit(Run(s, xs[..n], step), xs[n]));
    }
  }
}
