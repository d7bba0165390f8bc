/** Stable sorting by a total preorder, as `Array.prototype.sort` does it. */
module Sorting {
  import opened Lists

  ghost predicate TotalPreorder<T(!new)>(le: (T, T) -> bool) {
    && (forall x, y :: le(x, y) || le(y, x))
    && (forall x, y, z :: le(x, y) && le(y, z) ==> le(x, z))
  }

  ghost predicate Ordered<T>(s: seq<T>, le: (T, T) -> bool) {
    forall i, j :: 0 <= i < j < |s| ==> le(s[i], s[j])
  }

  /** The elements that tie with `x`, in order. */
  function Ties<T>(s: seq<T>, x: T, le: (T, T) -> bool): seq<T> {
    if s == [] then []
    else (if le(x, s[0]) && le(s[0], x) then [s[0]] else []) + Ties(s[1..], x, le)
  }

  /** Puts `x` in front of the first element it may stand before. */
  function Insert<T>(x: T, s: seq<T>, le: (T, T) -> bool): seq<T> {
    if s == [] || le(x, s[0]) then [x] + s else [s[0]] + Insert(x, s[1..], le)
  }

  function StableSort<T>(s: seq<T>, le: (T, T) -> bool): seq<T> {
    if s == [] then [] else Insert(s[0], StableSort(s[1..], le), le)
  }

  lemma {:induction false} InsertKeepsElements<T>(x: T, s: seq<T>, le: (T, T) -> bool)
    ensures multiset(Insert(x, s, le)) == multiset{x} + multiset(s)
  {
    if s == [] || le(x, s[0]) {
    } else {
      InsertKeepsElements(x, s[1..], le);
      assert s == [s[0]] + s[1..];
    }
  }

  lemma {:induction false} InsertKeepsOrder<T(!new)>(x: T, s: seq<T>, le: (T, T) -> bool)
    requires TotalPreorder(le) && Ordered(s, le)
    ensures Ordered(Insert(x, s, le), le)
  {
    if s == [] || le(x, s[0]) {
    } else {
      InsertKeepsOrder(x, s[1..], le);
      var rest := Insert(x, s[1..], le);
      InsertKeepsElements(x, s[1..], le);
      forall j | 0 <= j < |rest| ensures le(s[0], rest[j]) {
        assert rest[j] in multiset(rest);
        assert rest[j] == x || rest[j] in s[1..];
      }
    }
  }

  lemma {:induction false} InsertKeepsTies<T(!new)>(x: T, s: seq<T>, le: (T, T) -> bool, y: T)
    requires TotalPreorder(le)
    ensures Ties(Insert(x, s, le), y, le) == Ties([x] + s, y, le)
  {
    assert ([x] + s)[1..] == s;
    if s == [] || le(x, s[0]) {
    } else {
      InsertKeepsTies(x, s[1..], le, y);
      assert ([x] + s[1..])[1..] == s[1..];
      var r := Insert(x, s, le);
      assert r[0] == s[0] && r[1..] == Insert(x, s[1..], le);
    }
  }

  lemma {:induction false} SortKeepsLength<T>(s: seq<T>, le: (T, T) -> bool)
    ensures |StableSort(s, le)| == |s|
  {
    if s != [] {
      SortKeepsLength(s[1..], le);
      InsertKeepsElements(s[0], StableSort(s[1..], le), le);
      assert |multiset(Insert(s[0], StableSort(s[1..], le), le))| == |s|;
    }
  }

  /** The sort is a reordering of its input, ordered, and keeps ties in their input order. */
  lemma {:induction false} StableSortSorts<T(!new)>(s: seq<T>, le: (T, T) -> bool)
    requires TotalPreorder(le)
    ensures multiset(StableSort(s, le)) == multiset(s)
    ensures Ordered(StableSort(s, le), le)
    ensures forall y :: Ties(StableSort(s, le), y, le) == Ties(s, y, le)
  {
    if s == [] {
    } else {
      var rest := StableSort(s[1..], le);
      StableSortSorts(s[1..], le);
      InsertKeepsElements(s[0], rest, le);
      InsertKeepsOrder(s[0], rest, le);
      assert s == [s[0]] + s[1..];
      forall y ensures Ties(StableSort(s, le), y, le) == Ties(s, y, le) {
        InsertKeepsTies(s[0], rest, le, y);
        assert ([s[0]] + rest)[1..] == rest;
      }
    }
  }

  /** `best` are the first `k` of all, ordered, ties in their input order: together with the
      omitted ones they are all, and no omitted element stands strictly before one of them. */
  ghost predicate AreBest<T(!new)>(best: seq<T>, k: nat, all: seq<T>, le: (T, T) -> bool) {
    exists omitted :: IsRanking(best, omitted, all, le) && |best| == k
  }

  ghost predicate IsRanking<T(!new)>(best: seq<T>, omitted: seq<T>, all: seq<T>, le: (T, T) -> bool) {
    && multiset(best) + multiset(omitted) == multiset(all)
    && Ordered(best, le)
    && (forall x, y :: x in best && y in omitted ==> le(x, y))
    && forall y :: Ties(best + omitted, y, le) == Ties(all, y, le)
  }

  lemma FirstOfSortedAreBest<T(!new)>(all: seq<T>, k: nat, le: (T, T) -> bool)
    requires TotalPreorder(le) && k <= |all|
    ensures |StableSort(all, le)| == |all| && AreBest(StableSort(all, le)[..k], k, all, le)
  {
    StableSortSorts(all, le);
    SortKeepsLength(all, le);
    var sorted := StableSort(all, le);
    assert sorted == sorted[..k] + sorted[k..];
    assert IsRanking(sorted[..k], sorted[k..], all, le);
  }

  /** Order and tie order leave no choice: two arrangements that agree on both are equal. */
  lemma {:induction false} OrderedArrangementIsUnique<T(!new)>(s: seq<T>, t: seq<T>, le: (T, T) -> bool)
    requires TotalPreorder(le) && Ordered(s, le) && Ordered(t, le)
    requires forall y :: Ties(s, y, le) == Ties(t, y, le)
    ensures s == t
  {
    if s != [] {
      TieIsMember(t, s[0], le);
      assert Ties(s, s[0], le) == Ties(t, s[0], le) != [];
    }
    if t != [] {
      TieIsMember(s, t[0], le);
      assert Ties(s, t[0], le) == Ties(t, t[0], le) != [];
    }
    if s != [] {
      assert s[0] == t[0];
      forall y ensures Ties(s[1..], y, le) == Ties(t[1..], y, le) {
        assert Ties(s, y, le) == Ties(t, y, le);
        if le(y, s[0]) && le(s[0], y) {
          assert Ties(s[1..], y, le) == Ties(s, y, le)[1..];
          assert Ties(t[1..], y, le) == Ties(t, y, le)[1..];
        } else {
          assert Ties(s[1..], y, le) == Ties(s, y, le);
          assert Ties(t[1..], y, le) == Ties(t, y, le);
        }
      }
      OrderedArrangementIsUnique(s[1..], t[1..], le);
      assert s == [s[0]] + s[1..] && t == [t[0]] + t[1..];
    }
  }

  lemma {:induction false} TiesAgree<T(!new)>(s: seq<T>, y: T, le: (T, T) -> bool, le': (T, T) -> bool)
    requires forall a, b :: le(a, b) <==> le'(a, b)
    ensures Ties(s, y, le) == Ties(s, y, le')
  {
    if s != [] {
      TiesAgree(s[1..], y, le, le');
    }
  }

  lemma {:induction false} TieIsMember<T(!new)>(s: seq<T>, y: T, le: (T, T) -> bool)
    ensures Ties(s, y, le) != [] ==>
              exists k :: 0 <= k < |s| && le(y, s[k]) && le(s[k], y) && Ties(s, y, le)[0] == s[k]
    ensures Ties(s, y, le) == [] ==> forall k :: 0 <= k < |s| ==> !(le(y, s[k]) && le(s[k], y))
  {
    if s == [] {
    } else {
      TieIsMember(s[1..], y, le);
      if le(y, s[0]) && le(s[0], y) {
      } else if Ties(s, y, le) != [] {
        var k :| 0 <= k < |s[1..]| && le(y, s[1..][k]) && le(s[1..][k], y) && Ties(s[1..], y, le)[0] == s[1..][k];
        assert s[k + 1] == s[1..][k];
      }
    }
  }

  lemma MappedPrepend<T, U>(x: T, s: seq<T>, f: T -> U)
    ensures Mapped([x] + s, f) == [f(x)] + Mapped(s, f)
  {
  }

  lemma {:induction false} InsertMapped<T(!new), U>(x: T, s: seq<T>, f: T -> U, le: (T, T) -> bool, leU: (U, U) -> bool)
    requires forall a, b :: le(a, b) <==> leU(f(a), f(b))
    ensures Mapped(Insert(x, s, le), f) == Insert(f(x), Mapped(s, f), leU)
  {
    if s == [] || le(x, s[0]) {
      MappedPrepend(x, s, f);
    } else {
      InsertMapped(x, s[1..], f, le, leU);
      MappedPrepend(s[0], Insert(x, s[1..], le), f);
      assert Mapped(s, f)[1..] == Mapped(s[1..], f);
    }
  }

  /** Sorting and then converting is converting and then sorting by the converted order. */
  lemma {:induction false} SortMapped<T(!new), U>(s: seq<T>, f: T -> U, le: (T, T) -> bool, leU: (U, U) -> bool)
    requires forall a, b :: le(a, b) <==> leU(f(a), f(b))
    ensures Mapped(StableSort(s, le), f) == StableSort(Mapped(s, f), leU)
  {
    if s != [] {
      SortMapped(s[1..], f, le, leU);
      InsertMapped(s[0], StableSort(s[1..], le), f, le, leU);
      assert Mapped(s, f)[1..] == Mapped(s[1..], f);
    }
  }
}
