/** The command palette's page search (src/core/dx/palette-search-planner.ts): scoring a
    candidate text, scoring a page, ranking and capping.

    `lower` stands for the runtime's lower-casing and `atMost` for its locale comparison of
    titles; both are parameters. */
module Palette {
  import opened Alignment
  import opened Lists
  import opened Sorting
  import opened Text

  datatype MatchType = Exact | Prefix | Substring | Fuzzy

  datatype Match = Match(score: nat, matchType: MatchType)

  datatype Page = Page(id: string, title: string, href: string, aliases: seq<string>, category: string)

  datatype Found = Found(id: string, title: string, href: string, score: nat, matchType: MatchType, category: string)

  const SCORE_EXACT := 1000
  const SCORE_PREFIX := 100
  const SCORE_SUBSTRING := 10
  const SCORE_FUZZY := 1

  function ScoreOf(t: MatchType): nat {
    match t
    case Exact => SCORE_EXACT
    case Prefix => SCORE_PREFIX
    case Substring => SCORE_SUBSTRING
    case Fuzzy => SCORE_FUZZY
  }

  // ------------------------------------------------------------ one candidate

  ghost predicate OneEditFromAWord(c: string, q: string) {
    exists w :: w in Words(c) && w != q && OneEditApart(w, q)
  }

  /** What each tier claims about a lower-cased candidate and a lower-cased query. */
  ghost predicate Qualifies(t: MatchType, c: string, q: string) {
    match t
    case Exact => c == q
    case Prefix => q <= c
    case Substring => Includes(c, q)
    case Fuzzy => OneEditFromAWord(c, q)
  }

  /** `m` is the best tier for which the candidate qualifies; none when it qualifies for none. */
  ghost predicate IsBestTier(m: Option<Match>, candidate: string, query: string, lower: string -> string) {
    var c, q := lower(candidate), lower(query);
    match m
    case None => forall t :: !Qualifies(t, c, q)
    case Some(b) =>
      && b.score == ScoreOf(b.matchType)
      && Qualifies(b.matchType, c, q)
      && forall t :: Qualifies(t, c, q) ==> ScoreOf(t) <= b.score
  }

  /** The best tier, as a function: the conditions of the four tiers in order of score. */
  ghost function Tier(candidate: string, query: string, lower: string -> string): Option<Match> {
    var c, q := lower(candidate), lower(query);
    if Qualifies(Exact, c, q) then Some(Match(SCORE_EXACT, Exact))
    else if Qualifies(Prefix, c, q) then Some(Match(SCORE_PREFIX, Prefix))
    else if Qualifies(Substring, c, q) then Some(Match(SCORE_SUBSTRING, Substring))
    else if Qualifies(Fuzzy, c, q) then Some(Match(SCORE_FUZZY, Fuzzy))
    else None
  }

  lemma TierIsBestTier(candidate: string, query: string, lower: string -> string)
    ensures IsBestTier(Tier(candidate, query, lower), candidate, query, lower)
  {
    TiersNest(lower(candidate), lower(query));
  }

  /** An equal text scores 1000, one that begins with the query 100, one that contains it 10,
      and one with a word at distance one 1; another text does not match. */
  lemma TierIs(candidate: string, query: string, lower: string -> string)
    ensures var c, q := lower(candidate), lower(query);
            Tier(candidate, query, lower) ==
            if c == q then Some(Match(1000, Exact))
            else if exists rest :: c == q + rest then Some(Match(100, Prefix))
            else if exists front, rest :: c == front + q + rest then Some(Match(10, Substring))
            else if exists w :: w in Words(c) && Distance(w, q) == 1 then Some(Match(1, Fuzzy))
            else None
  {
    var c, q := lower(candidate), lower(query);
    PrefixExactlyWhen(c, q);
    IncludesExactlyWhen(c, q);
    forall w ensures Distance(w, q) == 1 <==> w != q && OneEditApart(w, q) {
      DistanceOneIsOneEdit(w, q);
    }
  }

  lemma PrefixExactlyWhen(c: string, q: string)
    ensures q <= c <==> exists rest :: c == q + rest
  {
    if q <= c {
      assert c == q + c[|q|..];
    }
  }

  method ScoreCandidate(candidate: string, query: string, lower: string -> string) returns (m: Option<Match>)
    ensures m == Tier(candidate, query, lower)
    ensures m.Some? ==> m.value.score == match m.value.matchType case Exact => 1000 case Prefix => 100 case Substring => 10 case Fuzzy => 1
  {
    var c, q := lower(candidate), lower(query);
    TiersNest(c, q);
    if c == q { return Some(Match(SCORE_EXACT, Exact)); }
    if q <= c { return Some(Match(SCORE_PREFIX, Prefix)); }
    if Includes(c, q) { return Some(Match(SCORE_SUBSTRING, Substring)); }
    var fuzzy := IsNearSomeWord(Words(c), q);
    m := if fuzzy then Some(Match(SCORE_FUZZY, Fuzzy)) else None;
  }

  /** The loop over the words: a length guard, then the bounded distance. */
  method IsNearSomeWord(words: seq<string>, q: string) returns (near: bool)
    ensures near <==> exists w :: w in words && w != q && OneEditApart(w, q)
  {
    var i := 0;
    while i < |words|
      invariant 0 <= i <= |words|
      invariant forall k :: 0 <= k < i ==> !(words[k] != q && OneEditApart(words[k], q))
    {
      var word := words[i];
      DistanceOneIsOneEdit(word, q);
      if Distance(word, q) == 1 {
        LengthGuardIsRedundant(word, q);
      }
      if |word| <= |q| + 1 && |q| <= |word| + 1 {
        var d := EditDistance(word, q);
        if d == 1 { return true; }
      }
      i := i + 1;
    }
    near := false;
  }

  lemma EditsToOneLetter(p: string, e: Edit, r: string, w: string, x: char)
    requires !e.Keep? && Around(p, e, r, w, [x])
    ensures |w| <= 2 && (|w| == 2 ==> x in w)
  {
    assert |[x]| == |p| + |e.To()| + |r|;
    assert |w| == |p| + |e.From()| + |r|;
    if e.Delete? {
      assert [x] == p + r && w == p + [e.c] + r;
      assert [x][0] == x;
      assert x in p || x in r;
    }
  }

  lemma EditToOneLetter(w: string, x: char) returns (p: string, e: Edit, r: string)
    requires w == [] || |w| == 1 || (|w| == 2 && x in w)
    ensures !e.Keep? && Around(p, e, r, w, [x])
  {
    if w == [] {
      p, e, r := [], Insert(x), [];
    } else if |w| == 1 {
      p, e, r := [], Replace(w[0], x), [];
    } else if w[0] == x {
      p, e, r := [x], Delete(w[1]), [];
    } else {
      p, e, r := [], Delete(w[0]), [x];
    }
  }

  /** What fuzzy matching means for a query of one letter: an empty word (the text begins or
      ends in white space), any other one-letter word, or a two-letter word with that letter. */
  lemma OneLetterQueryMatches(w: string, x: char)
    ensures w != [x] && OneEditApart(w, [x]) <==> w == [] || (|w| == 1 && w != [x]) || (|w| == 2 && x in w)
  {
    if OneEditApart(w, [x]) {
      var p: string, e: Edit, r: string :| !e.Keep? && Around(p, e, r, w, [x]);
      EditsToOneLetter(p, e, r, w, x);
    }
    if w == [] || |w| == 1 || (|w| == 2 && x in w) {
      var p, e, r := EditToOneLetter(w, x);
    }
  }

  /** Which texts a one-letter query matches in any tier: those that contain the letter, and,
      whatever the letter, the empty text, a text with white space at an end, and a text with
      a one-letter word. */
  lemma OneLetterQueryMatchesTexts(candidate: string, query: string, lower: string -> string, x: char)
    requires lower(query) == [x]
    ensures var c := lower(candidate);
            Tier(candidate, query, lower).Some? <==>
              x in c || c == [] || SpaceAtAnEnd(c) || exists w :: w in Words(c) && |w| == 1
  {
    var c := lower(candidate);
    IncludesLetter(c, x);
    TiersNest(c, [x]);
    if x !in c {
      EmptyWordExactlyWhen(c);
      forall w | w in Words(c)
        ensures (w != [x] && OneEditApart(w, [x])) <==> (w == [] || |w| == 1)
      {
        WordsComeFrom(c, w);
        OneLetterQueryMatches(w, x);
      }
      assert OneEditFromAWord(c, [x]) <==> exists w :: w in Words(c) && (w == [] || |w| == 1);
    }
  }

  lemma IncludesLetter(c: string, x: char)
    ensures Includes(c, [x]) <==> x in c
  {
    if x in c {
      var k :| 0 <= k < |c| && c[k] == x;
      assert StandsAt([x], c, k);
    }
    if k :| 0 <= k <= |c| && StandsAt([x], c, k) {
      assert c[k] == c[k..k + 1][0] == x;
    }
  }

  /** An exact match is also a prefix match, and a prefix match a substring match. */
  lemma TiersNest(c: string, q: string)
    ensures c == q ==> q <= c
    ensures q <= c ==> Includes(c, q)
  {
    if q <= c {
      assert StandsAt(q, c, 0);
    }
  }

  // ------------------------------------------------------------ the documented tier

  /** What the file's header says of the fuzzy tier: a word at Levenshtein distance at most 1. */
  ghost predicate LevenshteinOneFromAWord(c: string, q: string) {
    exists w :: w in Words(c) && (IsLevenshtein(w, q, 0) || IsLevenshtein(w, q, 1))
  }

  ghost predicate SwapFromAWord(c: string, q: string) {
    exists w :: w in Words(c) && SwapApart(w, q)
  }

  /** The best tier by that description. */
  ghost function DocumentedTier(candidate: string, query: string, lower: string -> string): Option<Match> {
    var c, q := lower(candidate), lower(query);
    if c == q then Some(Match(SCORE_EXACT, Exact))
    else if q <= c then Some(Match(SCORE_PREFIX, Prefix))
    else if Includes(c, q) then Some(Match(SCORE_SUBSTRING, Substring))
    else if LevenshteinOneFromAWord(c, q) then Some(Match(SCORE_FUZZY, Fuzzy))
    else None
  }

  lemma LevenshteinZeroIsEquality(a: string, b: string)
    requires IsLevenshtein(a, b, 0)
    ensures a == b
  {
    var s :| Turns(s, a, b) && SwapFree(s) && s.Cost() == 0;
    CostlessScriptKeeps(s);
  }

  /** Where the query is not part of the text, the fuzzy tier takes the words at Levenshtein
      distance 1 and those one swap away. */
  lemma FuzzyIsLevenshteinOrSwap(c: string, q: string)
    requires !Includes(c, q)
    ensures OneEditFromAWord(c, q) <==> LevenshteinOneFromAWord(c, q) || SwapFromAWord(c, q)
  {
    forall w | w in Words(c)
      ensures (w != q && OneEditApart(w, q)) <==>
              (IsLevenshtein(w, q, 0) || IsLevenshtein(w, q, 1)) || SwapApart(w, q)
    {
      DistanceOneIsOneEdit(w, q);
      DistanceOneIsLevenshteinOneOrSwap(w, q);
      if IsLevenshtein(w, q, 0) {
        LevenshteinZeroIsEquality(w, q);
        WordsAreIncluded(c, w);
      }
    }
  }

  /** The tier is the documented one unless only a swap brings the query to a word of the text;
      then the text matches fuzzily where the description has no match. */
  lemma TierIsDocumentedExactlyWhen(candidate: string, query: string, lower: string -> string)
    ensures var c, q := lower(candidate), lower(query);
            var bySwapOnly := !Includes(c, q) && SwapFromAWord(c, q) && !LevenshteinOneFromAWord(c, q);
            && (Tier(candidate, query, lower) == DocumentedTier(candidate, query, lower) <==> !bySwapOnly)
            && (bySwapOnly ==> Tier(candidate, query, lower) == Some(Match(SCORE_FUZZY, Fuzzy))
                               && DocumentedTier(candidate, query, lower) == None)
  {
    var c, q := lower(candidate), lower(query);
    TiersNest(c, q);
    if !Includes(c, q) {
      FuzzyIsLevenshteinOrSwap(c, q);
    }
  }

  /** Two neighbouring letters swapped in a one-word text make such a match. */
  lemma SwappedLettersMatch(candidate: string, query: string, lower: string -> string,
                            p: string, x: char, y: char, r: string)
    requires x != y && forall c :: c in lower(candidate) ==> !IsSpace(c)
    requires lower(candidate) == p + [x, y] + r && lower(query) == p + [y, x] + r
    ensures Tier(candidate, query, lower) == Some(Match(SCORE_FUZZY, Fuzzy))
    ensures DocumentedTier(candidate, query, lower) == None
  {
    var c, q := lower(candidate), lower(query);
    assert c[|p|] != q[|p|];
    NotIncluded(c, q);
    InkIsOneWord(c);
    assert Around(p, Swap(x, y), r, c, q);
    SwappedWord(c, q);
    TierIsDocumentedExactlyWhen(candidate, query, lower);
  }

  lemma NotIncluded(c: string, q: string)
    requires |c| == |q| && c != q
    ensures !Includes(c, q)
  {
    assert c[..|q|] == c;
    assert forall k :: 0 <= k <= |c| && StandsAt(q, c, k) ==> k == 0;
  }

  lemma SwappedWord(c: string, q: string)
    requires Words(c) == [c] && SwapApart(c, q) && c != q
    ensures SwapFromAWord(c, q) && !LevenshteinOneFromAWord(c, q)
  {
    assert c in Words(c);
    DistanceOneIsLevenshteinOneOrSwap(c, q);
    if IsLevenshtein(c, q, 0) {
      LevenshteinZeroIsEquality(c, q);
    }
  }

  /** `lgos` is found for `logs`, at Levenshtein distance two. */
  lemma LgosMatchesLogs(candidate: string, query: string, lower: string -> string)
    requires lower(candidate) == "logs" && lower(query) == "lgos"
    ensures Tier(candidate, query, lower) == Some(Match(SCORE_FUZZY, Fuzzy))
    ensures DocumentedTier(candidate, query, lower) == None
  {
    assert lower(candidate) == "l" + ['o', 'g'] + "s";
    assert lower(query) == "l" + ['g', 'o'] + "s";
    SwappedLettersMatch(candidate, query, lower, "l", 'o', 'g', "s");
  }

  // ------------------------------------------------------------ one page

  function Texts(page: Page): seq<string> {
    [page.title] + page.aliases
  }

  ghost function Tiers(texts: seq<string>, query: string, lower: string -> string): seq<Option<Match>> {
    seq(|texts|, k requires 0 <= k < |texts| => Tier(texts[k], query, lower))
  }

  /** Keeps the first match of the highest score. */
  function BestOf(matches: seq<Option<Match>>): Option<Match> {
    if matches == [] then None
    else
      var was, next := BestOf(matches[..|matches| - 1]), matches[|matches| - 1];
      if next.Some? && (was.None? || next.value.score > was.value.score) then next else was
  }

  /** The page's match: the best among its title and aliases. */
  ghost function BestMatch(texts: seq<string>, query: string, lower: string -> string): Option<Match> {
    BestOf(Tiers(texts, query, lower))
  }

  /** It is one of the matches and none scores higher; none when there is none. */
  lemma {:induction false} BestOfIsBest(matches: seq<Option<Match>>)
    ensures BestOf(matches).Some? ==> BestOf(matches) in matches
    ensures forall m :: m in matches && m.Some? ==> BestOf(matches).Some? && m.value.score <= BestOf(matches).value.score
  {
    if matches != [] {
      BestOfIsBest(matches[..|matches| - 1]);
      assert matches == matches[..|matches| - 1] + [matches[|matches| - 1]];
    }
  }

  /** A page's match is the best tier over its title and aliases: some text reaches it... */
  lemma BestMatchIsReached(texts: seq<string>, query: string, lower: string -> string)
    requires BestMatch(texts, query, lower).Some?
    ensures exists k :: 0 <= k < |texts| && Tier(texts[k], query, lower) == BestMatch(texts, query, lower)
  {
    var tiers, m := Tiers(texts, query, lower), BestMatch(texts, query, lower);
    BestOfIsBest(tiers);
    var k :| 0 <= k < |tiers| && tiers[k] == m;
    assert Tier(texts[k], query, lower) == m;
  }

  /** ...and no text qualifies for a tier of a higher score. */
  lemma BestMatchIsHighest(texts: seq<string>, query: string, lower: string -> string, k: nat, t: MatchType)
    requires k < |texts| && Qualifies(t, lower(texts[k]), lower(query))
    ensures BestMatch(texts, query, lower).Some?
    ensures ScoreOf(t) <= BestMatch(texts, query, lower).value.score
  {
    var tiers := Tiers(texts, query, lower);
    BestOfIsBest(tiers);
    TierIsBestTier(texts[k], query, lower);
    assert tiers[k] == Tier(texts[k], query, lower) && tiers[k] in tiers;
  }

  method ScorePage(page: Page, query: string, lower: string -> string) returns (best: Option<Match>)
    ensures best == BestMatch(Texts(page), query, lower)
  {
    best := BestCandidate(Texts(page), query, lower);
  }

  /** The loop over title and aliases. */
  method BestCandidate(candidates: seq<string>, query: string, lower: string -> string) returns (best: Option<Match>)
    ensures best == BestMatch(candidates, query, lower)
  {
    ghost var results: seq<Option<Match>> := [];
    best := None;
    for i := 0 to |candidates|
      invariant |results| == i && best == BestOf(results)
      invariant forall k :: 0 <= k < i ==> results[k] == Tier(candidates[k], query, lower)
    {
      var result := ScoreCandidate(candidates[i], query, lower);
      BestOfNext(results, result);
      results := results + [result];
      if result.Some? && (best.None? || result.value.score > best.value.score) {
        best := result;
      }
    }
    assert results == Tiers(candidates, query, lower);
  }

  lemma BestOfNext(matches: seq<Option<Match>>, next: Option<Match>)
    ensures BestOf(matches + [next]) ==
            var was := BestOf(matches);
            if next.Some? && (was.None? || next.value.score > was.value.score) then next else was
  {
    assert (matches + [next])[..|matches|] == matches;
  }

  // ------------------------------------------------------------ the specification of the search

  function Present(p: Page, m: Match): Found {
    Found(p.id, p.title, p.href, m.score, m.matchType, p.category)
  }

  ghost function PageMatch(p: Page, query: string, lower: string -> string): Option<Found> {
    var m := BestMatch(Texts(p), query, lower);
    if m.Some? then Some(Present(p, m.value)) else None
  }

  /** The pages that match, in page order, each with its best match. */
  ghost function Matching(pages: seq<Page>, query: string, lower: string -> string): seq<Found> {
    Collected(pages, p => PageMatch(p, query, lower))
  }

  /** What a blank query presents: every page, at a neutral score. */
  function Everything(pages: seq<Page>): seq<Found> {
    Mapped(pages, AtNeutralScore)
  }

  function AtNeutralScore(p: Page): Found {
    Present(p, Match(SCORE_SUBSTRING, Substring))
  }

  /** Score descending, then title ascending. */
  predicate RanksAtMost(x: Found, y: Found, atMost: (string, string) -> bool) {
    x.score > y.score || (x.score == y.score && atMost(x.title, y.title))
  }

  function Ranking(atMost: (string, string) -> bool): (Found, Found) -> bool {
    (x, y) => RanksAtMost(x, y, atMost)
  }

  /** How many of `n` results `slice(0, maxResults)` keeps. */
  function KeptCount(n: nat, maxResults: int): (k: nat)
    ensures k <= n
  {
    if maxResults >= 0 then (if maxResults < n then maxResults else n)
    else if n + maxResults > 0 then n + maxResults
    else 0
  }

  ghost function Candidates(query: string, pages: seq<Page>, lower: string -> string): seq<Found> {
    if Trim(query) == [] then Everything(pages) else Matching(pages, query, lower)
  }

  // ------------------------------------------------------------ the search

  method SearchPalettePages(query: string, pages: seq<Page>, maxResults: int,
                            lower: string -> string, atMost: (string, string) -> bool)
    returns (results: seq<Found>)
    ensures results == Top(Candidates(query, pages, lower), maxResults, atMost)
    ensures var n := |Candidates(query, pages, lower)|;
            |results| == if maxResults >= 0 then (if maxResults < n then maxResults else n)
                         else (if n + maxResults > 0 then n + maxResults else 0)
    ensures TotalPreorder(atMost) ==> forall i, j :: 0 <= i < j < |results| ==>
              || results[i].score > results[j].score
              || (results[i].score == results[j].score && atMost(results[i].title, results[j].title))
    ensures TotalPreorder(atMost) ==> forall i, j :: 0 <= i < j < |results| ==>
              && (results[j].matchType == Exact ==> results[i].matchType == Exact)
              && (results[j].matchType == Prefix ==> results[i].matchType in {Exact, Prefix})
              && (results[j].matchType == Substring ==> results[i].matchType in {Exact, Prefix, Substring})
  {
    TopHolds(query, pages, maxResults, lower, atMost);
    if Trim(query) == [] {
      results := TopOfEverything(pages, maxResults, atMost);
    } else {
      var scored := CollectMatches(pages, query, lower);
      SortKeepsLength(scored, Ranking(atMost));
      var sorted := StableSort(scored, Ranking(atMost));
      results := sorted[..KeptCount(|sorted|, maxResults)];
    }
  }

  /** The first of the ranked candidates, as many as the cap keeps. */
  function Top(all: seq<Found>, maxResults: int, atMost: (string, string) -> bool): seq<Found> {
    SortKeepsLength(all, Ranking(atMost));
    StableSort(all, Ranking(atMost))[..KeptCount(|all|, maxResults)]
  }

  /** A blank query: sort the pages by title, cap, then convert. */
  method TopOfEverything(pages: seq<Page>, maxResults: int, atMost: (string, string) -> bool) returns (results: seq<Found>)
    ensures results == Top(Everything(pages), maxResults, atMost)
  {
    var byTitle := (x: Page, y: Page) => atMost(x.title, y.title);
    var sorted := StableSort(pages, byTitle);
    SortKeepsLength(pages, byTitle);
    SortMapped(pages, AtNeutralScore, byTitle, Ranking(atMost));
    results := Mapped(sorted[..KeptCount(|sorted|, maxResults)], AtNeutralScore);
  }

  method CollectMatches(pages: seq<Page>, query: string, lower: string -> string) returns (scored: seq<Found>)
    ensures scored == Matching(pages, query, lower)
  {
    scored := [];
    for i := 0 to |pages|
      invariant scored == Matching(pages[..i], query, lower)
    {
      var m := ScorePage(pages[i], query, lower);
      assert pages[..i + 1][..i] == pages[..i];
      if m.Some? {
        scored := scored + [Present(pages[i], m.value)];
      }
    }
    assert pages[..|pages|] == pages;
  }

  /** `f` carries the page's own data and the match's score and type. */
  predicate Shows(f: Found, p: Page, m: Match) {
    && f.id == p.id && f.title == p.title && f.href == p.href && f.category == p.category
    && f.score == m.score && f.matchType == m.matchType
  }

  lemma MatchingIsExactlyMatchingPages(pages: seq<Page>, query: string, lower: string -> string, f: Found)
    ensures f in Matching(pages, query, lower) <==>
            exists k, m :: 0 <= k < |pages| && BestMatch(Texts(pages[k]), query, lower) == Some(m) && Shows(f, pages[k], m)
  {
    var matching := (p: Page) => PageMatch(p, query, lower);
    CollectedExactly(pages, matching, f);
    assert forall p :: matching(p) == PageMatch(p, query, lower);
    if f in Matching(pages, query, lower) {
      var k :| 0 <= k < |pages| && matching(pages[k]) == Some(f);
      assert Shows(f, pages[k], BestMatch(Texts(pages[k]), query, lower).value);
    }
    if k, m :| 0 <= k < |pages| && BestMatch(Texts(pages[k]), query, lower) == Some(m) && Shows(f, pages[k], m) {
      assert matching(pages[k]) == Some(f);
    }
  }

  /** `m` is what the page shows in the list: a neutral match for a blank query, otherwise its
      best one. */
  ghost predicate IsShownWith(p: Page, m: Match, query: string, lower: string -> string) {
    if AllSpace(query) then m == Match(10, Substring) else BestMatch(Texts(p), query, lower) == Some(m)
  }

  ghost predicate IsShown(p: Page, query: string, lower: string -> string) {
    exists m :: IsShownWith(p, m, query, lower)
  }

  ghost predicate IsEntryOf(f: Found, p: Page, query: string, lower: string -> string) {
    exists m :: IsShownWith(p, m, query, lower) && Shows(f, p, m)
  }

  /** The candidates are in page order, one for each page that a blank query shows or another
      query matches, with the page's own data. */
  lemma CandidatesInPageOrder(query: string, pages: seq<Page>, lower: string -> string) returns (at: seq<nat>)
    ensures var all := Candidates(query, pages, lower);
            && |at| == |all| && (forall i, j :: 0 <= i < j < |at| ==> at[i] < at[j])
            && (forall i :: 0 <= i < |at| ==> at[i] < |pages| && IsEntryOf(all[i], pages[at[i]], query, lower))
            && forall k :: 0 <= k < |pages| && IsShown(pages[k], query, lower) ==> k in at
  {
    BlankExactlyWhen(query);
    if AllSpace(query) {
      at := seq(|pages|, k requires 0 <= k => k);
      forall k | 0 <= k < |pages|
        ensures at[k] == k && k in at && IsEntryOf(Everything(pages)[k], pages[k], query, lower)
      {
        assert at[k] == k;
        assert IsShownWith(pages[k], Match(10, Substring), query, lower);
      }
    } else {
      at := MatchingInPageOrder(pages, query, lower);
    }
  }

  lemma MatchingInPageOrder(pages: seq<Page>, query: string, lower: string -> string) returns (at: seq<nat>)
    requires !AllSpace(query)
    ensures var all := Matching(pages, query, lower);
            && |at| == |all| && (forall i, j :: 0 <= i < j < |at| ==> at[i] < at[j])
            && (forall i :: 0 <= i < |at| ==> at[i] < |pages| && IsEntryOf(all[i], pages[at[i]], query, lower))
            && forall k :: 0 <= k < |pages| && IsShown(pages[k], query, lower) ==> k in at
  {
    var matching := (p: Page) => PageMatch(p, query, lower);
    at := CollectedFrom(pages, matching);
    assert forall p :: matching(p) == PageMatch(p, query, lower);
    var all := Matching(pages, query, lower);
    forall i | 0 <= i < |at| ensures IsEntryOf(all[i], pages[at[i]], query, lower) {
      assert matching(pages[at[i]]) == Some(all[i]);
      MatchIsEntry(all[i], pages[at[i]], query, lower);
    }
  }

  lemma MatchIsEntry(f: Found, p: Page, query: string, lower: string -> string)
    requires !AllSpace(query) && PageMatch(p, query, lower) == Some(f)
    ensures IsEntryOf(f, p, query, lower)
  {
    assert IsShownWith(p, BestMatch(Texts(p), query, lower).value, query, lower);
  }

  /** A blank query shows every page once, at the neutral score. */
  lemma EverythingShowsEveryPage(pages: seq<Page>)
    ensures |Everything(pages)| == |pages|
    ensures forall k :: 0 <= k < |pages| ==> Shows(Everything(pages)[k], pages[k], Match(SCORE_SUBSTRING, Substring))
  {
  }

  /** What the search promises: as many results as the cap allows, the higher score first and
      among equal scores the smaller title, ties in page order; they and the omitted candidates
      are together all candidates, and no omitted candidate ranks before a returned one. */
  lemma SearchReturnsTheBest(all: seq<Found>, maxResults: int, atMost: (string, string) -> bool,
                             le: (Found, Found) -> bool) returns (omitted: seq<Found>)
    requires TotalPreorder(atMost)
    requires forall x, y :: le(x, y) <==> x.score > y.score || (x.score == y.score && atMost(x.title, y.title))
    ensures var results := Top(all, maxResults, atMost);
            && |results| == (if maxResults >= 0 then (if maxResults < |all| then maxResults else |all|)
                             else (if |all| + maxResults > 0 then |all| + maxResults else 0))
            && multiset(results) + multiset(omitted) == multiset(all)
            && (forall i, j :: 0 <= i < j < |results| ==> le(results[i], results[j]))
            && (forall x, y :: x in results && y in omitted ==> le(x, y))
            && forall y :: Ties(results + omitted, y, le) == Ties(all, y, le)
  {
    RankingIsTotal(atMost);
    var results, k := Top(all, maxResults, atMost), KeptCount(|all|, maxResults);
    FirstOfSortedAreBest(all, k, Ranking(atMost));
    omitted :| IsRanking(results, omitted, all, Ranking(atMost));
    RanksAlike(atMost, le);
    forall y ensures Ties(results + omitted, y, le) == Ties(all, y, le) {
      TiesAgree(results + omitted, y, Ranking(atMost), le);
      TiesAgree(all, y, Ranking(atMost), le);
    }
    forall i, j | 0 <= i < j < |results| ensures le(results[i], results[j]) {
      assert Ranking(atMost)(results[i], results[j]);
    }
  }

  lemma RanksAlike(atMost: (string, string) -> bool, le: (Found, Found) -> bool)
    requires forall x, y :: le(x, y) <==> x.score > y.score || (x.score == y.score && atMost(x.title, y.title))
    ensures forall x, y :: Ranking(atMost)(x, y) <==> le(x, y)
  {
  }

  /** The score says which tier a candidate reached. */
  predicate ScoredByTier(f: Found) {
    f.score == match f.matchType case Exact => 1000 case Prefix => 100 case Substring => 10 case Fuzzy => 1
  }

  lemma CandidatesAreScored(query: string, pages: seq<Page>, lower: string -> string)
    ensures forall f :: f in Candidates(query, pages, lower) ==> ScoredByTier(f)
  {
    forall f | f in Candidates(query, pages, lower) ensures ScoredByTier(f) {
      if Trim(query) != [] {
        MatchingIsExactlyMatchingPages(pages, query, lower, f);
        var k, m :| 0 <= k < |pages| && BestMatch(Texts(pages[k]), query, lower) == Some(m) && Shows(f, pages[k], m);
        BestMatchIsReached(Texts(pages[k]), query, lower);
      }
    }
  }

  lemma TopHolds(query: string, pages: seq<Page>, maxResults: int, lower: string -> string, atMost: (string, string) -> bool)
    ensures var n, results := |Candidates(query, pages, lower)|, Top(Candidates(query, pages, lower), maxResults, atMost);
            && |results| == (if maxResults >= 0 then (if maxResults < n then maxResults else n)
                             else (if n + maxResults > 0 then n + maxResults else 0))
            && (TotalPreorder(atMost) ==> forall i, j :: 0 <= i < j < |results| ==>
                  RanksAtMost(results[i], results[j], atMost) && ScoredByTier(results[i]) && ScoredByTier(results[j]))
  {
    var all := Candidates(query, pages, lower);
    SortKeepsLength(all, Ranking(atMost));
    if TotalPreorder(atMost) {
      TopIsRanked(all, maxResults, atMost);
      CandidatesAreScored(query, pages, lower);
    }
  }

  lemma TopIsRanked(all: seq<Found>, maxResults: int, atMost: (string, string) -> bool)
    requires TotalPreorder(atMost)
    ensures var results := Top(all, maxResults, atMost);
            && (forall i, j :: 0 <= i < j < |results| ==> RanksAtMost(results[i], results[j], atMost))
            && forall i :: 0 <= i < |results| ==> results[i] in all
  {
    var results := Top(all, maxResults, atMost);
    RankingIsTotal(atMost);
    FirstOfSortedAreBest(all, KeptCount(|all|, maxResults), Ranking(atMost));
    var omitted :| IsRanking(results, omitted, all, Ranking(atMost));
    forall i, j | 0 <= i < j < |results| ensures RanksAtMost(results[i], results[j], atMost) {
      assert Ranking(atMost)(results[i], results[j]);
    }
    forall i | 0 <= i < |results| ensures results[i] in all {
      assert results[i] in multiset(results) && results[i] in multiset(all);
    }
  }

  lemma RankingIsTotal(atMost: (string, string) -> bool)
    requires TotalPreorder(atMost)
    ensures TotalPreorder(Ranking(atMost))
  {
    var le := Ranking(atMost);
    assert forall x, y :: le(x, y) == RanksAtMost(x, y, atMost);
    forall x, y ensures le(x, y) || le(y, x) {
      assert atMost(x.title, y.title) || atMost(y.title, x.title);
    }
    forall x, y, z | le(x, y) && le(y, z) ensures le(x, z) {
      assert atMost(x.title, y.title) && atMost(y.title, z.title) ==> atMost(x.title, z.title);
    }
  }
}
