/** The bounded edit distance behind the command palette's fuzzy matching
    (src/core/dx/palette-search-planner.ts): optimal string alignment, computed over a
    mutable table with two early exits.

    Three descriptions of the distance are connected here: the recurrence `Dist`, the least
    cost of an edit script that turns one string into the other, and the table-filling
    method `EditDistance` with its early exits. */
module Alignment {

  // ------------------------------------------------------------ the recurrence

  function Min(x: nat, y: nat): nat {
    if x < y then x else y
  }

  predicate Swapped(a: string, b: string, i: nat, j: nat)
    requires i <= |a| && j <= |b|
  {
    i > 1 && j > 1 && a[i - 1] == b[j - 2] && a[i - 2] == b[j - 1]
  }

  /** Optimal string alignment distance between the first `i` characters of `a` and the
      first `j` characters of `b`. */
  function Dist(a: string, b: string, i: nat, j: nat): nat
    requires i <= |a| && j <= |b|
    decreases i + j
  {
    if i == 0 then j
    else if j == 0 then i
    else
      var cost := if a[i - 1] == b[j - 1] then 0 else 1;
      var base := Min(Min(Dist(a, b, i - 1, j) + 1, Dist(a, b, i, j - 1) + 1),
                      Dist(a, b, i - 1, j - 1) + cost);
      if Swapped(a, b, i, j) then Min(base, Dist(a, b, i - 2, j - 2) + 1) else base
  }

  function Distance(a: string, b: string): nat {
    Dist(a, b, |a|, |b|)
  }

  // ------------------------------------------------------------ edit scripts

  /** One step of an alignment, with the text it consumes and the text it produces. */
  datatype Edit =
    | Keep(c: char)
    | Replace(c: char, d: char)
    | Insert(d: char)
    | Delete(c: char)
    | Swap(c: char, d: char)
  {
    function From(): string {
      match this
      case Keep(c) => [c]
      case Replace(c, _) => [c]
      case Insert(_) => []
      case Delete(c) => [c]
      case Swap(c, d) => [c, d]
    }

    function To(): string {
      match this
      case Keep(c) => [c]
      case Replace(_, d) => [d]
      case Insert(d) => [d]
      case Delete(_) => []
      case Swap(c, d) => [d, c]
    }

    /** How many characters the edit consumes. */
    function Used(): (n: nat)
      ensures n == |From()|
    {
      match this
      case Insert(_) => 0
      case Swap(_, _) => 2
      case _ => 1
    }

    /** How many characters the edit produces. */
    function Made(): (n: nat)
      ensures n == |To()|
    {
      match this
      case Delete(_) => 0
      case Swap(_, _) => 2
      case _ => 1
    }

    function Cost(): nat {
      if Keep? then 0 else 1
    }

    function Inverse(): Edit {
      match this
      case Keep(c) => Keep(c)
      case Replace(c, d) => Replace(d, c)
      case Insert(d) => Delete(d)
      case Delete(c) => Insert(c)
      case Swap(c, d) => Swap(d, c)
    }
  }

  /** An alignment, read from left to right. */
  datatype Script = Empty | Then(front: Script, last: Edit)
  {
    function Source(): string {
      match this
      case Empty => []
      case Then(front, e) => front.Source() + e.From()
    }

    function Target(): string {
      match this
      case Empty => []
      case Then(front, e) => front.Target() + e.To()
    }

    function Cost(): nat {
      match this
      case Empty => 0
      case Then(front, e) => front.Cost() + e.Cost()
    }

    function Inverse(): Script {
      match this
      case Empty => Empty
      case Then(front, e) => Then(front.Inverse(), e.Inverse())
    }

    function Append(t: Script): Script {
      match t
      case Empty => this
      case Then(front, e) => Then(Append(front), e)
    }
  }

  ghost predicate Turns(s: Script, a: string, b: string) {
    s.Source() == a && s.Target() == b
  }

  /** No script beats the recurrence. */
  lemma {:induction false} ScriptCostsAtLeastDist(s: Script, a: string, b: string, i: nat, j: nat)
    requires i <= |a| && j <= |b|
    requires Turns(s, a[..i], b[..j])
    ensures Dist(a, b, i, j) <= s.Cost()
  {
    match s
    case Empty =>
    case Then(front, e) =>
      var i', j' := i - e.Used(), j - e.Made();
      Ending(a, i, front.Source(), e.From());
      Ending(b, j, front.Target(), e.To());
      ScriptCostsAtLeastDist(front, a, b, i', j');
      EndsWithText(e, a, b, i, j);
      LastEdit(e, a, b, i, j);
  }

  lemma Ending(a: string, i: nat, front: string, tail: string)
    requires i <= |a| && a[..i] == front + tail
    ensures |tail| <= i && front == a[..i - |tail|] && tail == a[i - |tail|..i]
  {
    var k := i - |tail|;
    assert front == (front + tail)[..k] && tail == (front + tail)[k..];
    assert a[..i][..k] == a[..k] && a[..i][k..] == a[k..i];
  }

  /** `e` consumes the last characters of the first prefix and produces those of the second. */
  predicate EndsWith(e: Edit, a: string, b: string, i: nat, j: nat)
    requires i <= |a| && j <= |b|
  {
    match e
    case Keep(c) => i > 0 && j > 0 && a[i - 1] == c == b[j - 1]
    case Replace(c, d) => i > 0 && j > 0 && a[i - 1] == c && b[j - 1] == d
    case Insert(d) => j > 0 && b[j - 1] == d
    case Delete(c) => i > 0 && a[i - 1] == c
    case Swap(c, d) =>
      i > 1 && j > 1 && a[i - 2] == c == b[j - 1] && a[i - 1] == d == b[j - 2]
  }

  lemma LastCharacter(a: string, i: nat, c: char)
    requires 0 < i <= |a|
    ensures [c] == a[i - 1..i] <==> a[i - 1] == c
  {
    assert a[i - 1..i] == [a[i - 1]];
  }

  lemma LastTwoCharacters(a: string, i: nat, c: char, d: char)
    requires 1 < i <= |a|
    ensures [c, d] == a[i - 2..i] <==> a[i - 2] == c && a[i - 1] == d
  {
    assert a[i - 2..i] == [a[i - 2], a[i - 1]];
  }

  lemma EndsWithText(e: Edit, a: string, b: string, i: nat, j: nat)
    requires i <= |a| && j <= |b|
    ensures EndsWith(e, a, b, i, j) <==>
            && e.Used() <= i && e.From() == a[i - e.Used()..i]
            && e.Made() <= j && e.To() == b[j - e.Made()..j]
  {
    if e.Used() <= i && e.Made() <= j {
      match e
      case Keep(c) => LastCharacter(a, i, c); LastCharacter(b, j, c);
      case Replace(c, d) => LastCharacter(a, i, c); LastCharacter(b, j, d);
      case Insert(d) => LastCharacter(b, j, d);
      case Delete(c) => LastCharacter(a, i, c);
      case Swap(c, d) => LastTwoCharacters(a, i, c, d); LastTwoCharacters(b, j, d, c);
    }
  }

  /** One edit at the end of the alignment costs at least the step of the recurrence. */
  lemma LastEdit(e: Edit, a: string, b: string, i: nat, j: nat)
    requires i <= |a| && j <= |b| && EndsWith(e, a, b, i, j)
    ensures Dist(a, b, i, j) <= Dist(a, b, i - e.Used(), j - e.Made()) + e.Cost()
  {
  }

  /** `t` is the finished table: entry (i, j) is the distance between the two prefixes. */
  ghost predicate IsTable(t: seq<seq<nat>>, a: string, b: string) {
    && |t| == |a| + 1
    && (forall x :: 0 <= x <= |a| ==> |t[x]| == |b| + 1)
    && forall x: nat, y: nat {:trigger Dist(a, b, x, y)} :: x <= |a| && y <= |b| ==> t[x][y] == Dist(a, b, x, y)
  }

  ghost function Table(a: string, b: string): (t: seq<seq<nat>>)
    ensures IsTable(t, a, b)
  {
    seq(|a| + 1, x requires 0 <= x <= |a| => seq(|b| + 1, y requires 0 <= y <= |b| => Dist(a, b, x, y)))
  }

  lemma TableBorder(t: seq<seq<nat>>, a: string, b: string)
    requires IsTable(t, a, b)
    ensures forall y :: 0 <= y <= |b| ==> t[0][y] == y
    ensures forall x :: 0 <= x <= |a| ==> t[x][0] == x
  {
    assert forall y: nat :: y <= |b| ==> t[0][y] == Dist(a, b, 0, y);
    assert forall x: nat :: x <= |a| ==> t[x][0] == Dist(a, b, x, 0);
  }

  lemma TableStep(t: seq<seq<nat>>, a: string, b: string, i: nat, j: nat)
    requires IsTable(t, a, b)
    requires 1 <= i <= |a| && 1 <= j <= |b|
    ensures t[i][j] ==
            var cost := if a[i - 1] == b[j - 1] then 0 else 1;
            var base := Min(Min(t[i - 1][j] + 1, t[i][j - 1] + 1), t[i - 1][j - 1] + cost);
            if Swapped(a, b, i, j) then Min(base, t[i - 2][j - 2] + 1) else base
  {
    assert t[i][j] == Dist(a, b, i, j);
  }

  /** Some edit at the end of the two prefixes accounts for the step of the recurrence. */
  lemma BestLast(t: seq<seq<nat>>, a: string, b: string, i: nat, j: nat) returns (e: Edit)
    requires IsTable(t, a, b) && i <= |a| && j <= |b| && i + j > 0
    ensures EndsWith(e, a, b, i, j)
    ensures t[i][j] == t[i - e.Used()][j - e.Made()] + e.Cost()
  {
    TableBorder(t, a, b);
    if i == 0 {
      e := Insert(b[j - 1]);
    } else if j == 0 {
      e := Delete(a[i - 1]);
    } else {
      TableStep(t, a, b, i, j);
      if t[i][j] == t[i - 1][j] + 1 {
        e := Delete(a[i - 1]);
      } else if t[i][j] == t[i][j - 1] + 1 {
        e := Insert(b[j - 1]);
      } else if Swapped(a, b, i, j) && t[i][j] == t[i - 2][j - 2] + 1 {
        e := Swap(a[i - 2], a[i - 1]);
      } else if a[i - 1] == b[j - 1] {
        e := Keep(a[i - 1]);
      } else {
        e := Replace(a[i - 1], b[j - 1]);
      }
    }
  }

  /** A script that costs exactly what the recurrence says. */
  lemma {:induction false} BestScript(t: seq<seq<nat>>, a: string, b: string, i: nat, j: nat) returns (s: Script)
    requires IsTable(t, a, b) && i <= |a| && j <= |b|
    ensures Turns(s, a[..i], b[..j])
    ensures s.Cost() == t[i][j]
    decreases i + j
  {
    if i == 0 && j == 0 {
      s := Empty;
      TableBorder(t, a, b);
    } else {
      var e := BestLast(t, a, b, i, j);
      EndsWithText(e, a, b, i, j);
      var front := BestScript(t, a, b, i - e.Used(), j - e.Made());
      s := Then(front, e);
      Extended(a, i - e.Used(), i);
      Extended(b, j - e.Made(), j);
    }
  }

  lemma Extended(a: string, i: nat, j: nat)
    requires i <= j <= |a|
    ensures a[..j] == a[..i] + a[i..j]
  {
  }

  /** The recurrence is the least cost of a script that turns `a` into `b`. */
  lemma DistanceIsLeastScriptCost(a: string, b: string)
    ensures exists s :: Turns(s, a, b) && s.Cost() == Distance(a, b)
    ensures forall s :: Turns(s, a, b) ==> Distance(a, b) <= s.Cost()
  {
    assert a[..|a|] == a && b[..|b|] == b;
    var t := Table(a, b);
    assert t[|a|][|b|] == Dist(a, b, |a|, |b|);
    var s := BestScript(t, a, b, |a|, |b|);
    assert Turns(s, a, b);
    forall s | Turns(s, a, b) ensures Distance(a, b) <= s.Cost() {
      ScriptCostsAtLeastDist(s, a, b, |a|, |b|);
    }
  }

  lemma {:induction false} InverseTurnsBack(s: Script)
    ensures Turns(s.Inverse(), s.Target(), s.Source())
    ensures s.Inverse().Cost() == s.Cost()
  {
    match s
    case Empty =>
    case Then(front, _) => InverseTurnsBack(front);
  }

  lemma DistanceIsSymmetric(a: string, b: string)
    ensures Distance(a, b) == Distance(b, a)
  {
    DistanceAtMostMirrored(a, b);
    DistanceAtMostMirrored(b, a);
  }

  lemma DistanceAtMostMirrored(a: string, b: string)
    ensures Distance(a, b) <= Distance(b, a)
  {
    DistanceIsLeastScriptCost(a, b);
    DistanceIsLeastScriptCost(b, a);
    var s :| Turns(s, b, a) && s.Cost() == Distance(b, a);
    InverseTurnsBack(s);
    assert Turns(s.Inverse(), a, b);
  }

  // ------------------------------------------------------------ one edit

  ghost predicate OneEditApart(a: string, b: string) {
    exists p: string, e: Edit, q: string :: !e.Keep? && Around(p, e, q, a, b)
  }

  ghost predicate Around(p: string, e: Edit, q: string, a: string, b: string) {
    a == p + e.From() + q && b == p + e.To() + q
  }

  function Keeps(p: string): (s: Script)
    ensures Turns(s, p, p) && s.Cost() == 0
  {
    if p == [] then Empty
    else
      var k := |p| - 1;
      assert p == p[..k] + [p[k]];
      Then(Keeps(p[..k]), Keep(p[k]))
  }

  lemma {:induction false} CostlessScriptKeeps(s: Script)
    requires s.Cost() == 0
    ensures s.Source() == s.Target()
  {
    match s
    case Empty =>
    case Then(front, _) => CostlessScriptKeeps(front);
  }

  lemma {:induction false} Appended(s: Script, t: Script)
    ensures s.Append(t).Source() == s.Source() + t.Source()
    ensures s.Append(t).Target() == s.Target() + t.Target()
    ensures s.Append(t).Cost() == s.Cost() + t.Cost()
  {
    match t
    case Empty =>
    case Then(front, e) =>
      Appended(s, front);
      Associates(s.Source(), front.Source(), e.From());
      Associates(s.Target(), front.Target(), e.To());
  }

  lemma Associates(x: string, y: string, z: string)
    ensures (x + y) + z == x + (y + z)
  {
  }

  /** A script of cost one keeps a prefix, edits once and keeps the rest. */
  lemma {:induction false} CostOneScriptIsOneEdit(s: Script)
    requires s.Cost() == 1
    ensures OneEditApart(s.Source(), s.Target())
  {
    var front, e := s.front, s.last;
    if e.Keep? {
      CostOneScriptIsOneEdit(front);
      var p: string, f: Edit, q: string :| !f.Keep? && Around(p, f, q, front.Source(), front.Target());
      Associates(p + f.From(), q, [e.c]);
      Associates(p + f.To(), q, [e.c]);
      assert Around(p, f, q + [e.c], s.Source(), s.Target());
    } else {
      CostlessScriptKeeps(front);
      assert Around(front.Source(), e, [], s.Source(), s.Target());
    }
  }

  lemma DistanceZeroIsEquality(a: string, b: string)
    ensures Distance(a, b) == 0 <==> a == b
  {
    DistanceIsLeastScriptCost(a, b);
    if a == b {
      assert Turns(Keeps(a), a, b);
    }
    var s :| Turns(s, a, b) && s.Cost() == Distance(a, b);
    if s.Cost() == 0 {
      CostlessScriptKeeps(s);
    }
  }

  lemma DistanceOneIsOneEdit(a: string, b: string)
    ensures Distance(a, b) == 1 <==> a != b && OneEditApart(a, b)
  {
    DistanceZeroIsEquality(a, b);
    DistanceIsLeastScriptCost(a, b);
    if Distance(a, b) == 1 {
      var s :| Turns(s, a, b) && s.Cost() == 1;
      CostOneScriptIsOneEdit(s);
    }
    if OneEditApart(a, b) {
      var p: string, e: Edit, q: string :| !e.Keep? && Around(p, e, q, a, b);
      Appended(Then(Keeps(p), e), Keeps(q));
      assert Turns(Then(Keeps(p), e).Append(Keeps(q)), a, b);
    }
  }

  // ------------------------------------------------------------ Levenshtein distance

  /** The script inserts, deletes, replaces and keeps, but does not swap. */
  predicate SwapFree(s: Script) {
    match s
    case Empty => true
    case Then(front, e) => !e.Swap? && SwapFree(front)
  }

  /** The Levenshtein distance: the least cost of a script that does not swap. */
  ghost predicate IsLevenshtein(a: string, b: string, n: nat) {
    && (exists s :: Turns(s, a, b) && SwapFree(s) && s.Cost() == n)
    && forall s :: Turns(s, a, b) && SwapFree(s) ==> n <= s.Cost()
  }

  /** The same alignment with two replacements in place of every swap. */
  function Unswapped(s: Script): (t: Script)
    ensures SwapFree(t) && t.Cost() <= 2 * s.Cost()
  {
    match s
    case Empty => Empty
    case Then(front, Swap(c, d)) => Then(Then(Unswapped(front), Replace(c, d)), Replace(d, c))
    case Then(front, e) => Then(Unswapped(front), e)
  }

  lemma {:induction false} UnswappedTurnsAlike(s: Script)
    ensures Turns(Unswapped(s), s.Source(), s.Target())
  {
    match s
    case Empty =>
    case Then(front, e) =>
      UnswappedTurnsAlike(front);
      if e.Swap? {
        Associates(front.Source(), [e.c], [e.d]);
        Associates(front.Target(), [e.d], [e.c]);
        assert [e.c] + [e.d] == e.From() && [e.d] + [e.c] == e.To();
      }
  }

  /** The distance is at most the Levenshtein distance, and that at most twice the distance. */
  lemma LevenshteinWithinTwice(a: string, b: string, n: nat)
    requires IsLevenshtein(a, b, n)
    ensures Distance(a, b) <= n <= 2 * Distance(a, b)
  {
    DistanceIsLeastScriptCost(a, b);
    var s :| Turns(s, a, b) && s.Cost() == Distance(a, b);
    UnswappedTurnsAlike(s);
  }

  ghost predicate PlainEditApart(a: string, b: string) {
    exists p: string, e: Edit, q: string :: !e.Keep? && !e.Swap? && Around(p, e, q, a, b)
  }

  lemma {:induction false} CostOneSwapFreeScriptIsPlainEdit(s: Script)
    requires s.Cost() == 1 && SwapFree(s)
    ensures PlainEditApart(s.Source(), s.Target())
  {
    var front, e := s.front, s.last;
    if e.Keep? {
      CostOneSwapFreeScriptIsPlainEdit(front);
      var p: string, f: Edit, q: string :| !f.Keep? && !f.Swap? && Around(p, f, q, front.Source(), front.Target());
      Associates(p + f.From(), q, [e.c]);
      Associates(p + f.To(), q, [e.c]);
      assert Around(p, f, q + [e.c], s.Source(), s.Target());
    } else {
      CostlessScriptKeeps(front);
      assert Around(front.Source(), e, [], s.Source(), s.Target());
    }
  }

  lemma {:induction false} KeepsIsSwapFree(p: string)
    ensures SwapFree(Keeps(p))
  {
    if p != [] {
      KeepsIsSwapFree(p[..|p| - 1]);
    }
  }

  lemma {:induction false} AppendIsSwapFree(s: Script, t: Script)
    requires SwapFree(s) && SwapFree(t)
    ensures SwapFree(s.Append(t))
  {
    match t
    case Empty =>
    case Then(front, _) => AppendIsSwapFree(s, front);
  }

  lemma PlainEditScript(p: string, e: Edit, q: string) returns (s: Script)
    requires !e.Keep? && !e.Swap?
    ensures Turns(s, p + e.From() + q, p + e.To() + q) && SwapFree(s) && s.Cost() == 1
  {
    s := Then(Keeps(p), e).Append(Keeps(q));
    Appended(Then(Keeps(p), e), Keeps(q));
    KeepsIsSwapFree(p);
    KeepsIsSwapFree(q);
    AppendIsSwapFree(Then(Keeps(p), e), Keeps(q));
  }

  lemma LevenshteinOneIsPlainEdit(a: string, b: string)
    ensures IsLevenshtein(a, b, 1) <==> a != b && PlainEditApart(a, b)
  {
    if IsLevenshtein(a, b, 1) {
      var s :| Turns(s, a, b) && SwapFree(s) && s.Cost() == 1;
      CostOneSwapFreeScriptIsPlainEdit(s);
      KeepsIsSwapFree(a);
      assert Turns(Keeps(a), a, a);
    }
    if a != b && PlainEditApart(a, b) {
      var p: string, e: Edit, q: string :| !e.Keep? && !e.Swap? && Around(p, e, q, a, b);
      var s := PlainEditScript(p, e, q);
      forall t | Turns(t, a, b) && SwapFree(t) ensures 1 <= t.Cost() {
        if t.Cost() == 0 {
          CostlessScriptKeeps(t);
        }
      }
    }
  }

  /** Two different neighbouring characters have changed places. */
  ghost predicate SwapApart(a: string, b: string) {
    exists p: string, c: char, d: char, q: string :: c != d && Around(p, Swap(c, d), q, a, b)
  }

  lemma SwapIsNoPlainEdit(p: string, c: char, d: char, q: string, p': string, e: Edit, q': string)
    requires c != d && !e.Keep? && !e.Swap?
    requires p + [c, d] + q == p' + e.From() + q'
    ensures p + [d, c] + q != p' + e.To() + q'
  {
    var a, b, b' := p + [c, d] + q, p + [d, c] + q, p' + e.To() + q';
    assert a[|p|] == c && b[|p|] == d && a[|p| + 1] == d && b[|p| + 1] == c;
    if e.Replace? {
      var k := if |p'| == |p| then |p| + 1 else |p|;
      assert b'[k] == a[k];
    } else {
      assert |b'| != |a|;
    }
  }

  /** Distance one is Levenshtein distance one, or one swap; never both, and a swap is
      Levenshtein distance two. */
  lemma DistanceOneIsLevenshteinOneOrSwap(a: string, b: string)
    ensures Distance(a, b) == 1 <==> IsLevenshtein(a, b, 1) || SwapApart(a, b)
    ensures !(IsLevenshtein(a, b, 1) && SwapApart(a, b))
    ensures SwapApart(a, b) ==> IsLevenshtein(a, b, 2)
  {
    DistanceOneIsOneEdit(a, b);
    LevenshteinOneIsPlainEdit(a, b);
    if a != b && OneEditApart(a, b) && !PlainEditApart(a, b) {
      var p: string, e: Edit, q: string :| !e.Keep? && Around(p, e, q, a, b);
      assert e.Swap? && Around(p, Swap(e.c, e.d), q, a, b);
      assert e.c != e.d;
    }
    if SwapApart(a, b) {
      var p: string, c: char, d: char, q: string :| c != d && Around(p, Swap(c, d), q, a, b);
      SwapIsDistanceTwo(p, c, d, q);
    }
  }

  lemma SwapIsDistanceTwo(p: string, c: char, d: char, q: string)
    requires c != d
    ensures var a, b := p + [c, d] + q, p + [d, c] + q;
            && a != b && OneEditApart(a, b) && !PlainEditApart(a, b) && IsLevenshtein(a, b, 2)
  {
    var a, b := p + [c, d] + q, p + [d, c] + q;
    assert a[|p|] != b[|p|];
    assert Around(p, Swap(c, d), q, a, b);
    if PlainEditApart(a, b) {
      var p': string, e: Edit, q': string :| !e.Keep? && !e.Swap? && Around(p', e, q', a, b);
      SwapIsNoPlainEdit(p, c, d, q, p', e, q');
    }
    var s := SwapScript(p, c, d, q);
    forall t | Turns(t, a, b) && SwapFree(t) ensures 2 <= t.Cost() {
      if t.Cost() == 0 {
        CostlessScriptKeeps(t);
      } else if t.Cost() == 1 {
        CostOneSwapFreeScriptIsPlainEdit(t);
      }
    }
  }

  lemma SwapScript(p: string, c: char, d: char, q: string) returns (s: Script)
    ensures Turns(s, p + [c, d] + q, p + [d, c] + q) && SwapFree(s) && s.Cost() == 2
  {
    var front := Then(Then(Keeps(p), Replace(c, d)), Replace(d, c));
    s := front.Append(Keeps(q));
    Appended(front, Keeps(q));
    Associates(p, [c], [d]);
    Associates(p, [d], [c]);
    assert [c] + [d] == [c, d] && [d] + [c] == [d, c];
    KeepsIsSwapFree(p);
    KeepsIsSwapFree(q);
    AppendIsSwapFree(front, Keeps(q));
  }

  // ------------------------------------------------------------ why the early exits are safe

  lemma {:induction false} ScriptCostsLengthGap(s: Script)
    ensures |s.Source()| <= |s.Target()| + s.Cost()
    ensures |s.Target()| <= |s.Source()| + s.Cost()
  {
    match s
    case Empty =>
    case Then(front, _) => ScriptCostsLengthGap(front);
  }

  lemma DistanceAtLeastLengthGap(a: string, b: string)
    ensures |a| <= |b| + Distance(a, b) && |b| <= |a| + Distance(a, b)
  {
    DistanceIsLeastScriptCost(a, b);
    var s :| Turns(s, a, b) && s.Cost() == Distance(a, b);
    ScriptCostsLengthGap(s);
  }

  /** Least of the first `n` entries of a row. */
  function RowMin(row: seq<nat>, n: nat): nat
    requires 1 <= n <= |row|
  {
    if n == 1 then row[0] else Min(RowMin(row, n - 1), row[n - 1])
  }

  lemma {:induction false} RowMinIsLeast(row: seq<nat>, n: nat)
    requires 1 <= n <= |row|
    ensures forall k :: 0 <= k < n ==> RowMin(row, n) <= row[k]
    ensures exists k :: 0 <= k < n && RowMin(row, n) == row[k]
  {
    if n > 1 {
      RowMinIsLeast(row, n - 1);
      var k :| 0 <= k < n - 1 && RowMin(row, n - 1) == row[k];
      var w := if RowMin(row, n - 1) < row[n - 1] then k else n - 1;
      assert RowMin(row, n) == row[w];
    }
  }

  /** No entry of a row lies below the minimum `m` of the row before it. The transposition
      reads two rows back; that row's entry is at most one below the row in between. */
  lemma {:induction false} RowBoundsNextRow(t: seq<seq<nat>>, a: string, b: string, i: nat, j: nat, m: nat)
    requires IsTable(t, a, b) && i < |a| && j <= |b|
    requires forall y :: 0 <= y <= j ==> m <= t[i][y]
    ensures m <= t[i + 1][j]
    decreases j
  {
    assert m <= t[i][j];
    if j == 0 {
      TableBorder(t, a, b);
      assert t[i + 1][0] == i + 1;
    } else {
      assert m <= t[i][j - 1];
      RowBoundsNextRow(t, a, b, i, j - 1, m);
      TableStep(t, a, b, i + 1, j);
      if Swapped(a, b, i + 1, j) {
        assert m <= t[i][j - 2];
        RowsDifferByAtMostOne(t, a, b, i, j - 2);
      }
    }
  }

  lemma RowsDifferByAtMostOne(t: seq<seq<nat>>, a: string, b: string, i: nat, j: nat)
    requires IsTable(t, a, b) && 0 < i <= |a| && j <= |b|
    ensures t[i][j] <= t[i - 1][j] + 1
  {
    if j == 0 {
      TableBorder(t, a, b);
    } else {
      TableStep(t, a, b, i, j);
    }
  }

  /** Row minima never decrease, so a row above the cap stays above it. */
  lemma {:induction false} RowMinimaNonDecreasing(t: seq<seq<nat>>, a: string, b: string, i: nat, k: nat)
    requires IsTable(t, a, b)
    requires i <= k <= |a|
    ensures RowMin(t[i], |b| + 1) <= RowMin(t[k], |b| + 1)
    decreases k
  {
    if i < k {
      RowMinimaNonDecreasing(t, a, b, i, k - 1);
      RowMinIsLeast(t[k], |b| + 1);
      RowMinIsLeast(t[k - 1], |b| + 1);
      var y :| 0 <= y <= |b| && t[k][y] == RowMin(t[k], |b| + 1);
      RowBoundsNextRow(t, a, b, k - 1, y, RowMin(t[k - 1], |b| + 1));
    }
  }

  // ------------------------------------------------------------ the table

  const MAX_DIST: nat := 2

  /** Column 0, the rows above row `i` and the first `j` entries of row `i` are final. */
  ghost predicate Filled(d: array2<nat>, t: seq<seq<nat>>, a: string, b: string, i: nat, j: nat)
    requires IsTable(t, a, b) && d.Length0 == |a| + 1 && d.Length1 == |b| + 1
    reads d
  {
    forall x: nat, y: nat {:trigger d[x, y]} ::
      x <= |a| && y <= |b| && (y == 0 || x < i || (x == i && y < j)) ==> d[x, y] == t[x][y]
  }

  /** The method the palette calls: exact up to the cap, above the cap otherwise. */
  method EditDistance(a: string, b: string) returns (r: nat)
    ensures Distance(a, b) <= 2 ==> r == Distance(a, b)
    ensures Distance(a, b) > 2 ==> r > 2
  {
    DistanceZeroIsEquality(a, b);
    if a == b { return 0; }
    if |a| == 0 { return |b|; }
    if |b| == 0 { return |a|; }
    DistanceAtLeastLengthGap(a, b);
    if |a| > |b| + MAX_DIST || |b| > |a| + MAX_DIST { return MAX_DIST + 1; }

    var d := new nat[|a| + 1, |b| + 1]((i: nat, j: nat) => if i == 0 then j else if j == 0 then i else 0);
    ghost var t := Table(a, b);
    TableBorder(t, a, b);
    assert t[|a|][|b|] == Distance(a, b);
    var i := 1;
    while i <= |a|
      invariant 1 <= i <= |a| + 1
      invariant Filled(d, t, a, b, i, 1)
    {
      var rowMin := FillRow(d, t, a, b, i);
      if rowMin > MAX_DIST {
        RowMinimaNonDecreasing(t, a, b, i, |a|);
        RowMinIsLeast(t[|a|], |b| + 1);
        return MAX_DIST + 1;
      }
      i := i + 1;
    }
    r := d[|a|, |b|];
  }

  /** The inner loop: fills row `i` and returns its minimum. */
  method FillRow(d: array2<nat>, ghost t: seq<seq<nat>>, a: string, b: string, i: nat) returns (rowMin: nat)
    requires IsTable(t, a, b) && d.Length0 == |a| + 1 && d.Length1 == |b| + 1
    requires 1 <= i <= |a| && Filled(d, t, a, b, i, 1)
    modifies d
    ensures Filled(d, t, a, b, i + 1, 1)
    ensures rowMin == RowMin(t[i], |b| + 1)
  {
    rowMin := d[i, 0];
    var j := 1;
    while j <= |b|
      invariant 1 <= j <= |b| + 1
      invariant Filled(d, t, a, b, i, j)
      invariant rowMin == RowMin(t[i], j)
    {
      TableStep(t, a, b, i, j);
      var cost := if a[i - 1] == b[j - 1] then 0 else 1;
      d[i, j] := Min(Min(d[i - 1, j] + 1, d[i, j - 1] + 1), d[i - 1, j - 1] + cost);
      if i > 1 && j > 1 && a[i - 1] == b[j - 2] && a[i - 2] == b[j - 1] {
        d[i, j] := Min(d[i, j], d[i - 2, j - 2] + 1);
      }
      if d[i, j] < rowMin { rowMin := d[i, j]; }
      j := j + 1;
    }
  }

  /** The comparison the fuzzy branch makes: the length guard in front of the distance never
      rejects a word at distance one. */
  lemma LengthGuardIsRedundant(word: string, query: string)
    requires Distance(word, query) == 1
    ensures |word| <= |query| + 1 && |query| <= |word| + 1
  {
    DistanceAtLeastLengthGap(word, query);
  }
}
