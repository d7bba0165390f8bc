/** The JavaScript string operations the planners are written with. */
module Text {
  import opened Lists

  /** What the regular expression class for white space matches, and what trimming removes. */
  predicate IsSpace(c: char) {
    || '\U{9}' <= c <= '\U{D}' || c == ' ' || c == '\U{A0}' || c == '\U{1680}'
    || '\U{2000}' <= c <= '\U{200A}' || c == '\U{2028}' || c == '\U{2029}' || c == '\U{202F}'
    || c == '\U{205F}' || c == '\U{3000}' || c == '\U{FEFF}'
  }

  function TrimStart(s: string): (r: string)
    ensures |r| <= |s|
  {
    if s != [] && IsSpace(s[0]) then TrimStart(s[1..]) else s
  }

  function TrimEnd(s: string): string {
    if s != [] && IsSpace(s[|s| - 1]) then TrimEnd(s[..|s| - 1]) else s
  }

  function Trim(s: string): string {
    TrimEnd(TrimStart(s))
  }

  /** How many characters at the front of `s` are not white space. */
  function WordLength(s: string): (n: nat)
    ensures n <= |s|
    ensures forall k :: 0 <= k < n ==> !IsSpace(s[k])
    ensures n < |s| ==> IsSpace(s[n])
  {
    if s == [] || IsSpace(s[0]) then 0 else 1 + WordLength(s[1..])
  }

  /** Splitting at every run of white space. */
  function Words(s: string): (words: seq<string>)
    ensures |words| > 0
    decreases |s|
  {
    var n := WordLength(s);
    if n == |s| then [s] else [s[..n]] + Words(TrimStart(s[n + 1..]))
  }

  predicate AllSpace(s: string) {
    forall k :: 0 <= k < |s| ==> IsSpace(s[k])
  }

  lemma SpaceInFront(c: char, gap: string)
    requires IsSpace(c) && AllSpace(gap)
    ensures AllSpace([c] + gap)
  {
  }

  lemma FrontBehind(s: string, front: string, rest: string)
    requires s != [] && s[1..] == front + rest
    ensures s == ([s[0]] + front) + rest
  {
    assert s == [s[0]] + s[1..];
  }

  lemma {:induction false} TrimStartCut(s: string) returns (front: string)
    ensures s == front + TrimStart(s) && AllSpace(front)
    ensures TrimStart(s) != [] ==> !IsSpace(TrimStart(s)[0])
  {
    if s != [] && IsSpace(s[0]) {
      var space := TrimStartCut(s[1..]);
      front := [s[0]] + space;
      FrontBehind(s, space, TrimStart(s[1..]));
      SpaceInFront(s[0], space);
    } else {
      front := [];
    }
  }

  lemma BackBehind(s: string, rest: string, back: string)
    requires s != [] && s[..|s| - 1] == rest + back
    ensures s == rest + (back + [s[|s| - 1]])
  {
    assert s == s[..|s| - 1] + [s[|s| - 1]];
  }

  lemma {:induction false} TrimEndCut(s: string) returns (back: string)
    ensures s == TrimEnd(s) + back && AllSpace(back)
    ensures TrimEnd(s) != [] ==> !IsSpace(TrimEnd(s)[|TrimEnd(s)| - 1])
  {
    if s != [] && IsSpace(s[|s| - 1]) {
      var n := |s| - 1;
      var space := TrimEndCut(s[..n]);
      back := space + [s[n]];
      BackBehind(s, TrimEnd(s[..n]), space);
      assert forall k :: 0 <= k < |back| ==> back[k] == if k < |space| then space[k] else s[n];
    } else {
      back := [];
    }
  }

  /** Trimming cuts white space off both ends, all of it and nothing else. */
  lemma TrimCutsSpaceOnly(s: string) returns (front: string, back: string)
    ensures s == front + Trim(s) + back && AllSpace(front) && AllSpace(back)
    ensures Trim(s) != [] ==> !IsSpace(Trim(s)[0]) && !IsSpace(Trim(s)[|Trim(s)| - 1])
  {
    front := TrimStartCut(s);
    back := TrimEndCut(TrimStart(s));
    assert front + (Trim(s) + back) == front + Trim(s) + back;
  }

  lemma {:induction false} TrimStartBehind(front: string, s: string)
    requires AllSpace(front) && (s == [] || !IsSpace(s[0]))
    ensures TrimStart(front + s) == s
  {
    if front == [] {
      assert [] + s == s;
    } else {
      TrimStartBehind(front[1..], s);
      assert (front + s)[1..] == front[1..] + s;
    }
  }

  lemma {:induction false} TrimEndBefore(s: string, back: string)
    requires AllSpace(back) && (s == [] || !IsSpace(s[|s| - 1]))
    ensures TrimEnd(s + back) == s
  {
    if back == [] {
      assert s + [] == s;
    } else {
      TrimEndBefore(s, back[..|back| - 1]);
      assert (s + back)[..|s + back| - 1] == s + back[..|back| - 1];
    }
  }

  /** White space around a text that begins and ends in none is what trimming cuts. */
  lemma TrimOfSpaced(front: string, s: string, back: string)
    requires AllSpace(front) && AllSpace(back) && s != [] && !IsSpace(s[0]) && !IsSpace(s[|s| - 1])
    ensures Trim(front + s + back) == s
  {
    assert front + s + back == front + (s + back);
    TrimStartBehind(front, s + back);
    TrimEndBefore(s, back);
  }

  lemma BlankExactlyWhen(s: string)
    ensures Trim(s) == "" <==> AllSpace(s)
  {
    var front, back := TrimCutsSpaceOnly(s);
    if Trim(s) != "" {
      assert s[|front|] == Trim(s)[0];
    } else {
      assert s == front + back;
    }
  }

  predicate IsInk(c: char) {
    !IsSpace(c)
  }

  /** The characters that are not white space. */
  function Inked(s: string): string {
    Kept(s, IsInk)
  }

  lemma InkedGap(w: string, gap: string, rest: string)
    requires AllSpace(gap) && forall k :: 0 <= k < |w| ==> IsInk(w[k])
    ensures Inked(w) == w && Inked(w + gap + rest) == w + Inked(rest)
  {
    KeptAllOrNone(w, IsInk);
    KeptAllOrNone(gap, IsInk);
    KeptConcat(w + gap, rest, IsInk);
    KeptConcat(w, gap, IsInk);
  }

  lemma JoinPrepended(w: string, words: seq<string>)
    requires |words| > 0
    ensures Join([w] + words, "") == w + Join(words, "")
  {
    var all, tail := [w] + words, Join(words, "");
    assert all[1..] == words;
    assert Join(all, "") == w + "" + tail;
    assert w + "" == w;
  }

  predicate AllInk(w: string) {
    forall k :: 0 <= k < |w| ==> IsInk(w[k])
  }

  lemma Joined(s: string, n: nat, front: string, rest: string)
    requires n < |s| && s[n + 1..] == front + rest
    ensures s == s[..n] + ([s[n]] + front) + rest
  {
    assert s == s[..n] + [s[n]] + s[n + 1..];
  }

  lemma WordEnds(s: string)
    requires WordLength(s) < |s|
    ensures IsSpace(s[WordLength(s)]) && AllInk(s[..WordLength(s)])
  {
  }

  lemma WordsAreFirstAndRest(s: string, n: nat, rest: string)
    requires WordLength(s) == n < |s| && rest == TrimStart(s[n + 1..])
    ensures Words(s) == [s[..n]] + Words(rest)
  {
  }

  /** A text with white space in it is a word, a gap and the rest; its words are that word and
      the words of the rest. */
  lemma FirstWord(s: string) returns (w: string, gap: string, rest: string)
    requires WordLength(s) < |s|
    ensures s == w + gap + rest && Words(s) == [w] + Words(rest)
    ensures AllInk(w) && AllSpace(gap) && gap != []
    ensures rest != [] ==> IsInk(rest[0])
  {
    var n := WordLength(s);
    var front := TrimStartCut(s[n + 1..]);
    w, gap, rest := s[..n], [s[n]] + front, TrimStart(s[n + 1..]);
    WordsAreFirstAndRest(s, n, rest);
    Joined(s, n, front, rest);
    WordEnds(s);
    SpaceInFront(s[n], front);
  }

  lemma {:induction false} WordsAreInk(s: string)
    ensures forall k :: 0 <= k < |Words(s)| ==> AllInk(Words(s)[k])
    decreases |s|
  {
    if WordLength(s) < |s| {
      var w, gap, rest := FirstWord(s);
      WordsAreInk(rest);
    }
  }

  lemma {:induction false} WordsJoinToInk(s: string)
    ensures Join(Words(s), "") == Inked(s)
    decreases |s|
  {
    if WordLength(s) == |s| {
      KeptAllOrNone(s, IsInk);
    } else {
      var w, gap, rest := FirstWord(s);
      WordsJoinToInk(rest);
      InkedGap(w, gap, rest);
      JoinPrepended(w, Words(rest));
    }
  }

  /** Splitting at white space drops the white space and nothing else. */
  lemma WordsKeepInk(s: string)
    ensures forall k :: 0 <= k < |Words(s)| ==> Inked(Words(s)[k]) == Words(s)[k]
    ensures Join(Words(s), "") == Inked(s)
  {
    WordsJoinToInk(s);
    WordsAreInk(s);
    forall k | 0 <= k < |Words(s)| ensures Inked(Words(s)[k]) == Words(s)[k] {
      KeptAllOrNone(Words(s)[k], IsInk);
    }
  }

  lemma {:induction false} WordsComeFrom(s: string, x: string)
    requires x in Words(s)
    ensures forall c :: c in x ==> c in s
    decreases |s|
  {
    if WordLength(s) < |s| {
      var w, gap, rest := FirstWord(s);
      if x != w {
        WordsComeFrom(rest, x);
      }
    }
  }

  function Spaced(words: seq<string>, gaps: seq<string>): string
    requires |words| == |gaps| + 1
  {
    if gaps == [] then words[0] else words[0] + gaps[0] + Spaced(words[1..], gaps[1..])
  }

  /** A text is its words with a gap of white space between any two; no word holds white space
      and only the first and the last can be empty. */
  lemma {:induction false} WordsAndGaps(s: string) returns (gaps: seq<string>)
    ensures |Words(s)| == |gaps| + 1 && s == Spaced(Words(s), gaps)
    ensures forall k :: 0 <= k < |gaps| ==> AllSpace(gaps[k]) && gaps[k] != ""
    ensures forall k :: 0 <= k <= |gaps| ==> AllInk(Words(s)[k])
    ensures forall k :: 0 < k < |gaps| ==> Words(s)[k] != ""
    ensures s != "" && IsInk(s[0]) ==> Words(s)[0] != ""
    decreases |s|
  {
    gaps := [];
    WordsAreInk(s);
    if WordLength(s) < |s| {
      var w, gap, rest := FirstWord(s);
      var tail := WordsAndGaps(rest);
      gaps := [gap] + tail;
      GapInFront(s, w, gap, rest, tail);
    }
  }

  lemma GapInFront(s: string, w: string, gap: string, rest: string, tail: seq<string>)
    requires s == w + gap + rest && Words(s) == [w] + Words(rest) && AllSpace(gap) && gap != ""
    requires |Words(rest)| == |tail| + 1 && rest == Spaced(Words(rest), tail)
    requires forall k :: 0 < k < |tail| ==> Words(rest)[k] != ""
    requires rest != "" ==> Words(rest)[0] != ""
    requires tail != [] ==> rest != ""
    ensures var gaps := [gap] + tail;
            && |Words(s)| == |gaps| + 1 && s == Spaced(Words(s), gaps)
            && (forall k :: 0 < k < |gaps| ==> Words(s)[k] != "")
            && (s != "" && IsInk(s[0]) ==> Words(s)[0] != "")
  {
    var gaps := [gap] + tail;
    assert Words(s)[1..] == Words(rest) && gaps[1..] == tail;
    forall k | 0 < k < |gaps| ensures Words(s)[k] != "" {
      assert Words(s)[k] == Words(rest)[k - 1];
    }
  }

  lemma {:induction false} InkBefore(a: string, rest: string)
    requires AllInk(a) && rest != "" && IsSpace(rest[0])
    ensures WordLength(a + rest) == |a|
  {
    if a == "" {
      assert "" + rest == rest;
    } else {
      InkBefore(a[1..], rest);
      assert (a + rest)[1..] == a[1..] + rest;
    }
  }

  lemma PrintableIsInk(a: string)
    requires forall x :: x in a ==> '!' <= x <= '~'
    ensures AllInk(a)
  {
    forall k | 0 <= k < |a| ensures IsInk(a[k]) {
      assert a[k] in a;
    }
  }

  lemma SpaceSeparates(a: string, c: char, b: string)
    requires AllInk(a) && AllInk(b) && IsSpace(c)
    ensures Words(a + [c] + b) == [a, b]
  {
    var s := a + [c] + b;
    assert s == a + ([c] + b);
    InkBefore(a, [c] + b);
    assert s[|a| + 1..] == b && s[..|a|] == a;
    WordsAreFirstAndRest(s, |a|, b);
    InkIsOneWord(b);
  }

  /** Blanks, tabs and line breaks separate words; no printable character of ASCII does. */
  lemma WhiteSpaceSeparates(a: string, c: char, b: string)
    requires forall x :: x in a || x in b ==> '!' <= x <= '~'
    requires c in {' ', '\t', '\n', '\r', '\U{B}', '\U{C}', '\U{A0}', '\U{2028}', '\U{2029}', '\U{3000}', '\U{FEFF}'}
    ensures Words(a + [c] + b) == [a, b]
  {
    PrintableIsInk(a);
    PrintableIsInk(b);
    SpaceSeparates(a, c, b);
  }

  lemma InkIsOneWord(s: string)
    requires AllInk(s)
    ensures Words(s) == [s]
  {
    assert WordLength(s) == |s|;
  }

  predicate SpaceAtAnEnd(s: string) {
    s != [] && (IsSpace(s[0]) || IsSpace(s[|s| - 1]))
  }

  /** Splitting yields an empty word exactly for the empty text and for one with white space
      at an end. */
  lemma {:induction false} EmptyWordExactlyWhen(s: string)
    ensures "" in Words(s) <==> s == [] || SpaceAtAnEnd(s)
    decreases |s|
  {
    if WordLength(s) < |s| {
      var w, gap, rest := FirstWord(s);
      EmptyWordExactlyWhen(rest);
      EndsOfThree(w, gap, rest);
    }
  }

  /** A text begins with its first and ends with its last part that is not empty. */
  lemma EndsOfThree(a: string, b: string, c: string)
    requires b != []
    ensures var s := a + b + c;
            && s[0] == (if a == [] then b[0] else a[0])
            && s[|s| - 1] == (if c == [] then b[|b| - 1] else c[|c| - 1])
  {
  }

  predicate StandsAt(q: string, c: string, k: nat) {
    k + |q| <= |c| && c[k..k + |q|] == q
  }

  /** `c.includes(q)` */
  predicate Includes(c: string, q: string) {
    exists k :: 0 <= k <= |c| && StandsAt(q, c, k)
  }

  lemma IncludesExactlyWhen(c: string, q: string)
    ensures Includes(c, q) <==> exists front, rest :: c == front + q + rest
  {
    if k :| 0 <= k <= |c| && StandsAt(q, c, k) {
      assert c == c[..k] + q + c[k + |q|..];
    }
    if front, rest :| c == front + q + rest {
      assert StandsAt(q, c, |front|);
    }
  }

  /** A word of a text is included in it. */
  lemma {:induction false} WordsAreIncluded(s: string, x: string)
    requires x in Words(s)
    ensures Includes(s, x)
    decreases |s|
  {
    if WordLength(s) < |s| {
      var w, gap, rest := FirstWord(s);
      if x == w {
        assert StandsAt(x, s, 0);
      } else {
        WordsAreIncluded(rest, x);
        var k :| 0 <= k <= |rest| && StandsAt(x, rest, k);
        StandsBehind(w + gap, rest, x, k);
      }
    } else {
      assert StandsAt(x, s, 0);
    }
  }

  lemma StandsBehind(front: string, rest: string, x: string, k: nat)
    requires StandsAt(x, rest, k)
    ensures Includes(front + rest, x)
  {
    assert (front + rest)[|front| + k..|front| + k + |x|] == rest[k..k + |x|];
    assert StandsAt(x, front + rest, |front| + k);
  }

  // ------------------------------------------------------------ splitting and joining

  /** `s.split(sep)` for a one-character separator. */
  function Split(s: string, sep: char): (parts: seq<string>)
    ensures |parts| > 0
  {
    if s == [] then [[]]
    else
      var rest := Split(s[1..], sep);
      if s[0] == sep then [[]] + rest else [[s[0]] + rest[0]] + rest[1..]
  }

  /** `parts.join(sep)`. */
  function Join(parts: seq<string>, sep: string): string {
    if parts == [] then []
    else if |parts| == 1 then parts[0]
    else parts[0] + sep + Join(parts[1..], sep)
  }

  lemma {:induction false} SplitWord(s: string, sep: char)
    requires sep !in s
    ensures Split(s, sep) == [s]
  {
    if s != [] {
      SplitWord(s[1..], sep);
      assert [s[0]] + s[1..] == s;
    }
  }

  lemma {:induction false} SplitAtFirst(w: string, rest: string, sep: char)
    requires sep !in w
    ensures Split(w + [sep] + rest, sep) == [w] + Split(rest, sep)
  {
    var s := w + [sep] + rest;
    if w == [] {
      assert s[1..] == rest;
    } else {
      SplitAtFirst(w[1..], rest, sep);
      assert s[1..] == w[1..] + [sep] + rest;
      assert [w[0]] + w[1..] == w;
    }
  }

  /** Splitting undoes joining, when no part contains the separator. */
  lemma {:induction false} SplitOfJoin(parts: seq<string>, sep: char)
    requires |parts| > 0 && forall k :: 0 <= k < |parts| ==> sep !in parts[k]
    ensures Split(Join(parts, [sep]), sep) == parts
  {
    if |parts| == 1 {
      SplitWord(parts[0], sep);
    } else {
      SplitOfJoin(parts[1..], sep);
      SplitAtFirst(parts[0], Join(parts[1..], [sep]), sep);
      assert parts == [parts[0]] + parts[1..];
    }
  }

  /** Joining undoes splitting, always. */
  lemma {:induction false} JoinOfSplit(s: string, sep: char)
    ensures Join(Split(s, sep), [sep]) == s
  {
    if s != [] {
      JoinOfSplit(s[1..], sep);
      var rest := Split(s[1..], sep);
      var parts := Split(s, sep);
      if s[0] == sep {
        assert parts[1..] == rest;
        assert [] + [sep] + s[1..] == s;
      } else if |rest| == 1 {
        assert parts == [[s[0]] + rest[0]];
      } else {
        assert parts[1..] == rest[1..];
        assert [s[0]] + (rest[0] + [sep] + Join(rest[1..], [sep])) == parts[0] + [sep] + Join(parts[1..], [sep]);
      }
    }
  }

  lemma {:induction false} SplitPartsAvoid(s: string, sep: char, k: nat)
    requires k < |Split(s, sep)|
    ensures sep !in Split(s, sep)[k]
    ensures forall c :: c in Split(s, sep)[k] ==> c in s
  {
    if s != [] {
      var rest := Split(s[1..], sep);
      if s[0] == sep {
        if k > 0 {
          SplitPartsAvoid(s[1..], sep, k - 1);
        }
      } else {
        SplitPartsAvoid(s[1..], sep, k);
        assert Split(s, sep)[k] == if k == 0 then [s[0]] + rest[0] else rest[k];
      }
    }
  }

  /** Joining adds nothing but separators. */
  lemma {:induction false} JoinedCharacters(parts: seq<string>, sep: char, c: char)
    ensures c in Join(parts, [sep]) ==> c == sep || exists k :: 0 <= k < |parts| && c in parts[k]
  {
    if |parts| > 1 {
      JoinedCharacters(parts[1..], sep, c);
      if c in Join(parts[1..], [sep]) && c != sep {
        var k :| 0 <= k < |parts[1..]| && c in parts[1..][k];
        assert c in parts[k + 1];
      }
    }
  }

  /** Equal joins of separator-free parts have equal parts. */
  lemma JoinIsInjective(a: seq<string>, b: seq<string>, sep: char)
    requires |a| > 0 && |b| > 0
    requires forall k :: 0 <= k < |a| ==> sep !in a[k]
    requires forall k :: 0 <= k < |b| ==> sep !in b[k]
    requires Join(a, [sep]) == Join(b, [sep])
    ensures a == b
  {
    SplitOfJoin(a, sep);
    SplitOfJoin(b, sep);
  }

  /** How many characters follow the last separator. */
  function TailLength(s: string, sep: char): nat {
    if s == [] || s[|s| - 1] == sep then 0 else 1 + TailLength(s[..|s| - 1], sep)
  }

  lemma {:induction false} TailAfterLast(x: string, tail: string, sep: char)
    requires sep !in tail
    ensures TailLength(x + [sep] + tail, sep) == |tail|
  {
    var s := x + [sep] + tail;
    if tail == [] {
      assert s[|s| - 1] == sep;
    } else {
      TailAfterLast(x, tail[..|tail| - 1], sep);
      assert s[..|s| - 1] == x + [sep] + tail[..|tail| - 1];
    }
  }

  /** The last separator divides a text in one way only. */
  lemma LastSeparatorIsUnique(x: string, m: string, y: string, n: string, sep: char)
    requires sep !in m && sep !in n
    requires x + [sep] + m == y + [sep] + n
    ensures x == y && m == n
  {
    TailAfterLast(x, m, sep);
    TailAfterLast(y, n, sep);
    var s := x + [sep] + m;
    assert x == s[..|x|] && y == s[..|y|];
    assert m == s[|x| + 1..] && n == s[|y| + 1..];
  }

  /** So does the first one. */
  lemma FirstSeparatorIsUnique(x: string, m: string, y: string, n: string, sep: char)
    requires sep !in x && sep !in y
    requires x + [sep] + m == y + [sep] + n
    ensures x == y && m == n
  {
    SplitAtFirst(x, m, sep);
    SplitAtFirst(y, n, sep);
    assert x == Split(x + [sep] + m, sep)[0] && y == Split(x + [sep] + m, sep)[0];
    var s := x + [sep] + m;
    assert m == s[|x| + 1..] && n == s[|y| + 1..];
  }
}
