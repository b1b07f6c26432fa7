/** The library's stable sort, by a relation `le` that says when one element may stand before another. */
module Sorting {

  /** Behind every element that may stand before it: elements that compare equal keep their order. */
  function Insert<T>(le: (T, T) -> bool, sorted: seq<T>, e: T): seq<T> {
    if sorted == [] || !le(sorted[0], e) then [e] + sorted else [sorted[0]] + Insert(le, sorted[1..], e)
  }

  function Sort<T>(le: (T, T) -> bool, s: seq<T>): seq<T> {
    if s == [] then [] else Insert(le, Sort(le, s[..|s| - 1]), s[|s| - 1])
  }

  ghost predicate TotalPreorder<T(!new)>(le: (T, T) -> bool) {
    && (forall a, b :: le(a, b) || le(b, a))
    && (forall a, b, c :: le(a, b) && le(b, c) ==> le(a, c))
  }

  ghost predicate SortedBy<T>(le: (T, T) -> bool, s: seq<T>) {
    s != [] ==> (forall x :: x in s[1..] ==> le(s[0], x)) && SortedBy(le, s[1..])
  }

  lemma {:induction false} InsertElements<T>(le: (T, T) -> bool, sorted: seq<T>, e: T)
    ensures forall x :: x in Insert(le, sorted, e) <==> x == e || x in sorted
    ensures multiset(Insert(le, sorted, e)) == multiset(sorted) + multiset{e}
  {
    if sorted != [] && le(sorted[0], e) {
      InsertElements(le, sorted[1..], e);
      assert sorted == [sorted[0]] + sorted[1..];
    }
  }

  /** Sorting rearranges. */
  lemma {:induction false} SortRearranges<T>(le: (T, T) -> bool, s: seq<T>)
    ensures multiset(Sort(le, s)) == multiset(s)
  {
    if s != [] {
      SortRearranges(le, s[..|s| - 1]);
      InsertElements(le, Sort(le, s[..|s| - 1]), s[|s| - 1]);
      assert s == s[..|s| - 1] + [s[|s| - 1]];
    }
  }

  lemma SortMember<T>(le: (T, T) -> bool, s: seq<T>, x: T)
    ensures x in Sort(le, s) <==> x in s
  {
    SortRearranges(le, s);
    assert x in Sort(le, s) <==> x in multiset(Sort(le, s));
    assert x in s <==> x in multiset(s);
  }

  lemma {:induction false} InsertSorts<T(!new)>(le: (T, T) -> bool, sorted: seq<T>, e: T)
    requires TotalPreorder(le) && SortedBy(le, sorted)
    ensures SortedBy(le, Insert(le, sorted, e))
  {
    if sorted == [] || !le(sorted[0], e) {
      assert ([e] + sorted)[1..] == sorted;
      forall x | x in sorted ensures le(e, x) {
        assert sorted == [sorted[0]] + sorted[1..];
        assert le(e, sorted[0]);
      }
    } else {
      InsertSorts(le, sorted[1..], e);
      InsertElements(le, sorted[1..], e);
      assert Insert(le, sorted, e)[1..] == Insert(le, sorted[1..], e);
    }
  }

  /** Sorting sorts. */
  lemma {:induction false} SortSorts<T(!new)>(le: (T, T) -> bool, s: seq<T>)
    requires TotalPreorder(le)
    ensures SortedBy(le, Sort(le, s))
  {
    if s != [] {
      SortSorts(le, s[..|s| - 1]);
      InsertSorts(le, Sort(le, s[..|s| - 1]), s[|s| - 1]);
    }
  }

  lemma {:induction false} SortedPairs<T>(le: (T, T) -> bool, s: seq<T>, i: nat, j: nat)
    requires SortedBy(le, s) && i < j < |s|
    ensures le(s[i], s[j])
  {
    if i > 0 {
      SortedPairs(le, s[1..], i - 1, j - 1);
    } else {
      assert s[j] == s[1..][j - 1];
    }
  }

  /** `rel` holds between `e` and every element, both ways. */
  ghost predicate RelatedToAll<T>(rel: (T, T) -> bool, s: seq<T>, e: T) {
    forall x :: x in s ==> rel(x, e) && rel(e, x)
  }

  /** Every two elements are related by `rel`, both ways. */
  ghost predicate Pairwise<T>(rel: (T, T) -> bool, s: seq<T>) {
    s != [] ==> RelatedToAll(rel, s[1..], s[0]) && Pairwise(rel, s[1..])
  }

  lemma {:induction false} InsertPairwise<T>(le: (T, T) -> bool, rel: (T, T) -> bool, sorted: seq<T>, e: T)
    requires Pairwise(rel, sorted) && RelatedToAll(rel, sorted, e)
    ensures Pairwise(rel, Insert(le, sorted, e))
  {
    if sorted == [] || !le(sorted[0], e) {
      assert ([e] + sorted)[1..] == sorted;
    } else {
      var tail := Insert(le, sorted[1..], e);
      InsertPairwise(le, rel, sorted[1..], e);
      InsertElements(le, sorted[1..], e);
      assert sorted[0] in sorted;
      assert RelatedToAll(rel, tail, sorted[0]);
      assert Insert(le, sorted, e)[1..] == tail;
    }
  }

  /** A relation between all pairs survives sorting. */
  lemma {:induction false} SortPairwise<T>(le: (T, T) -> bool, rel: (T, T) -> bool, s: seq<T>)
    requires forall i, j :: 0 <= i < j < |s| ==> rel(s[i], s[j]) && rel(s[j], s[i])
    ensures Pairwise(rel, Sort(le, s))
  {
    if s != [] {
      var front, last := s[..|s| - 1], s[|s| - 1];
      SortPairwise(le, rel, front);
      LastIsRelated(rel, s);
      forall x | x in Sort(le, front) ensures rel(x, last) && rel(last, x) {
        SortMember(le, front, x);
      }
      InsertPairwise(le, rel, Sort(le, front), last);
    }
  }

  lemma LastIsRelated<T>(rel: (T, T) -> bool, s: seq<T>)
    requires s != [] && forall i, j :: 0 <= i < j < |s| ==> rel(s[i], s[j]) && rel(s[j], s[i])
    ensures RelatedToAll(rel, s[..|s| - 1], s[|s| - 1])
  {
    var front := s[..|s| - 1];
    forall x | x in front ensures rel(x, s[|s| - 1]) && rel(s[|s| - 1], x) {
      var i :| 0 <= i < |front| && front[i] == x;
      assert s[i] == x;
    }
  }

  /** An element stops at the first that may not stand before it, and passes all those that may. */
  lemma {:induction false} InsertInto<T>(le: (T, T) -> bool, a: seq<T>, b: seq<T>, e: T)
    ensures (forall x :: x in b ==> !le(x, e)) ==> Insert(le, a + b, e) == Insert(le, a, e) + b
    ensures (forall x :: x in a ==> le(x, e)) ==> Insert(le, a + b, e) == a + Insert(le, b, e)
  {
    if a == [] {
      assert a + b == b;
    } else {
      assert (a + b)[1..] == a[1..] + b;
      InsertInto(le, a[1..], b, e);
    }
  }

  lemma InsertFront<T>(le: (T, T) -> bool, s: seq<T>, e: T)
    requires forall x :: x in s ==> !le(x, e)
    ensures Insert(le, s, e) == [e] + s
  {
  }

  lemma SortLast<T>(le: (T, T) -> bool, s: seq<T>, e: T)
    ensures Sort(le, s + [e]) == Insert(le, Sort(le, s), e)
  {
    assert (s + [e])[..|s|] == s;
  }

  /** What may not stand behind the later part of the input ends up behind it. */
  lemma {:induction false} SortConcat<T>(le: (T, T) -> bool, a: seq<T>, b: seq<T>)
    requires forall x, y :: x in a && y in b ==> !le(x, y)
    ensures Sort(le, a + b) == Sort(le, b) + Sort(le, a)
  {
    if b == [] {
      assert a + b == a;
    } else {
      var front, last := b[..|b| - 1], b[|b| - 1];
      assert (a + b)[..|a + b| - 1] == a + front && last in b;
      SortConcat(le, a, front);
      forall x | x in Sort(le, a) ensures !le(x, last) {
        SortMember(le, a, x);
      }
      InsertInto(le, Sort(le, front), Sort(le, a), last);
    }
  }

  lemma {:induction false} InsertBack<T>(le: (T, T) -> bool, s: seq<T>, e: T)
    requires forall i :: 0 <= i < |s| ==> le(s[i], e)
    ensures Insert(le, s, e) == s + [e]
  {
    if s != [] {
      InsertBack(le, s[1..], e);
    }
  }

  /** An input that is in order stays as it is. */
  lemma {:induction false} SortOrdered<T>(le: (T, T) -> bool, s: seq<T>)
    requires forall i, j :: 0 <= i < j < |s| ==> le(s[i], s[j])
    ensures Sort(le, s) == s
  {
    if s != [] {
      SortOrdered(le, s[..|s| - 1]);
      InsertBack(le, s[..|s| - 1], s[|s| - 1]);
    }
  }

  /** Only the answers about an earlier element and a later one count. */
  lemma {:induction false} SortsAgree<T>(le: (T, T) -> bool, other: (T, T) -> bool, s: seq<T>)
    requires forall i, j :: 0 <= i < j < |s| ==> le(s[i], s[j]) == other(s[i], s[j])
    ensures Sort(le, s) == Sort(other, s)
  {
    if s != [] {
      var front, last := s[..|s| - 1], s[|s| - 1];
      SortsAgree(le, other, front);
      forall x | x in Sort(le, front) ensures le(x, last) == other(x, last) {
        SortMember(le, front, x);
        var i :| 0 <= i < |front| && front[i] == x;
        assert s[i] == x;
      }
      InsertsAgree(le, other, Sort(le, front), last);
    }
  }

  lemma {:induction false} InsertsAgree<T>(le: (T, T) -> bool, other: (T, T) -> bool, sorted: seq<T>, e: T)
    requires forall x :: x in sorted ==> le(x, e) == other(x, e)
    ensures Insert(le, sorted, e) == Insert(other, sorted, e)
  {
    if sorted != [] && le(sorted[0], e) {
      InsertsAgree(le, other, sorted[1..], e);
    }
  }
}
