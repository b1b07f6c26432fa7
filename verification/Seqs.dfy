/** Counting and duplicate-freedom of sequences, shared by the modules of the model. */
module Seqs {

  ghost predicate NoDuplicates<T>(s: seq<T>) {
    forall i, j :: 0 <= i < j < |s| ==> s[i] != s[j]
  }

  /** The number of elements of `s` that satisfy `p`. */
  function Count<T>(s: seq<T>, p: T -> bool): (n: nat)
    ensures n <= |s|
  {
    if s == [] then 0 else Count(s[..|s| - 1], p) + (if p(s[|s| - 1]) then 1 else 0)
  }

  lemma CountAppend<T>(s: seq<T>, x: T, p: T -> bool)
    ensures Count(s + [x], p) == Count(s, p) + (if p(x) then 1 else 0)
  {
    assert (s + [x])[..|s|] == s;
  }

  lemma {:induction false} CountConcat<T>(s: seq<T>, t: seq<T>, p: T -> bool)
    ensures Count(s + t, p) == Count(s, p) + Count(t, p)
  {
    if t == [] {
      assert s + t == s;
    } else {
      var front, last := t[..|t| - 1], t[|t| - 1];
      assert s + t == (s + front) + [last];
      CountAppend(s + front, last, p);
      CountConcat(s, front, p);
    }
  }

  lemma {:induction false} CountUpdate<T>(s: seq<T>, k: nat, x: T, p: T -> bool)
    requires k < |s|
    ensures Count(s[k := x], p) == Count(s, p) - (if p(s[k]) then 1 else 0) + (if p(x) then 1 else 0)
  {
    assert s == s[..k] + [s[k]] + s[k + 1..];
    assert s[k := x] == s[..k] + [x] + s[k + 1..];
    CountConcat(s[..k] + [s[k]], s[k + 1..], p);
    CountConcat(s[..k] + [x], s[k + 1..], p);
    CountAppend(s[..k], s[k], p);
    CountAppend(s[..k], x, p);
  }

  lemma {:induction false} CountIsAll<T>(s: seq<T>, p: T -> bool)
    ensures Count(s, p) == |s| <==> forall i :: 0 <= i < |s| ==> p(s[i])
  {
    if s != [] {
      CountIsAll(s[..|s| - 1], p);
      assert forall i :: 0 <= i < |s| - 1 ==> s[..|s| - 1][i] == s[i];
    }
  }

  lemma {:induction false} CountIsZero<T>(s: seq<T>, p: T -> bool)
    ensures Count(s, p) == 0 <==> forall i :: 0 <= i < |s| ==> !p(s[i])
  {
    if s != [] {
      CountIsZero(s[..|s| - 1], p);
      assert forall i :: 0 <= i < |s| - 1 ==> s[..|s| - 1][i] == s[i];
    }
  }

  /** Two duplicate-free sequences with the same elements have the same length. */
  lemma SameElementsSameLength<T>(s: seq<T>, t: seq<T>)
    requires NoDuplicates(s) && NoDuplicates(t)
    requires forall x :: x in s <==> x in t
    ensures |s| == |t|
  {
    DistinctCardinality(s);
    DistinctCardinality(t);
    assert (set x | x in s) == (set x | x in t);
  }

  lemma {:induction false} DistinctCardinality<T>(s: seq<T>)
    requires NoDuplicates(s)
    ensures |set x | x in s| == |s|
  {
    if s == [] {
      assert (set x | x in s) == {};
    } else {
      var front, last := s[..|s| - 1], s[|s| - 1];
      DistinctCardinality(front);
      assert s == front + [last];
      assert (set x | x in s) == (set x | x in front) + {last};
      assert last !in front;
    }
  }

  /** A duplicate-free sequence is no longer than one that has all its elements, and as long only if it lacks none. */
  lemma SubsetLength<T>(s: seq<T>, t: seq<T>)
    requires NoDuplicates(s) && NoDuplicates(t) && forall x :: x in s ==> x in t
    ensures |s| <= |t|
    ensures |s| == |t| ==> forall x :: x in t ==> x in s
  {
    var ss, ts := set x | x in s, set x | x in t;
    DistinctCardinality(s);
    DistinctCardinality(t);
    SubsetCardinality(ss, ts);
    forall x | x in t && |s| == |t| ensures x in s {
      assert x in ts;
    }
  }

  lemma SubsetCardinality<T>(ss: set<T>, ts: set<T>)
    requires ss <= ts
    ensures |ss| <= |ts|
    ensures |ss| == |ts| ==> ss == ts
  {
    assert ts == ss + (ts - ss);
  }

  lemma {:induction false} CountMonotone<T>(s: seq<T>, p: T -> bool, q: T -> bool)
    requires forall i :: 0 <= i < |s| && p(s[i]) ==> q(s[i])
    ensures Count(s, p) <= Count(s, q)
  {
    if s != [] {
      var front := s[..|s| - 1];
      assert forall i :: 0 <= i < |front| ==> front[i] == s[i];
      CountMonotone(front, p, q);
    }
  }

  lemma RemoveFromBoth<T>(front: seq<T>, t: seq<T>, x: T, k: nat)
    requires k < |t| && t[k] == x && multiset(front + [x]) == multiset(t)
    ensures multiset(front) == multiset(t[..k] + t[k + 1..])
    ensures t == t[..k] + [x] + t[k + 1..]
  {
    assert t == t[..k] + [x] + t[k + 1..];
    assert multiset(front) + multiset{x} == multiset(t[..k] + t[k + 1..]) + multiset{x};
    assert multiset(front) == (multiset(front) + multiset{x}) - multiset{x};
  }

  /** A count does not depend on the order of the elements. */
  lemma {:induction false} CountPermutation<T>(s: seq<T>, t: seq<T>, p: T -> bool)
    requires multiset(s) == multiset(t)
    ensures Count(s, p) == Count(t, p)
  {
    if s == [] {
      assert |t| == |multiset(t)| == |multiset(s)| == 0;
    } else {
      var front, last := s[..|s| - 1], s[|s| - 1];
      assert s == front + [last];
      assert last in multiset(t);
      var k :| 0 <= k < |t| && t[k] == last;
      RemoveFromBoth(front, t, last, k);
      CountPermutation(front, t[..k] + t[k + 1..], p);
      CountConcat(t[..k], t[k + 1..], p);
      CountConcat(t[..k] + [last], t[k + 1..], p);
      CountAppend(t[..k], last, p);
    }
  }

  lemma {:induction false} CountAtLeast<T>(s: seq<T>, k: nat, p: T -> bool)
    requires k <= |s| && forall i :: 0 <= i < k ==> p(s[i])
    ensures Count(s, p) >= k
  {
    if k > 0 {
      CountAtLeast(s[..|s| - 1], if k < |s| then k else k - 1, p);
    }
  }

  lemma {:induction false} CountLimited<T>(s: seq<T>, k: nat, p: T -> bool)
    requires k <= |s| && forall i :: k <= i < |s| ==> !p(s[i])
    ensures Count(s, p) <= k
  {
    if k < |s| {
      CountLimited(s[..|s| - 1], k, p);
    }
  }

  lemma Associate<T>(a: seq<T>, b: seq<T>, c: seq<T>)
    ensures a + (b + c) == (a + b) + c
  {
  }

  /** A count is the number of indexes counted. */
  lemma {:induction false} CountIsCardinality<T>(s: seq<T>, p: T -> bool, counted: set<int>)
    requires forall i {:trigger i in counted} :: i in counted <==> 0 <= i < |s| && p(s[i])
    ensures Count(s, p) == |counted|
  {
    if s == [] {
      assert counted == {};
    } else {
      var k := |s| - 1;
      CountedBefore(s, p, counted);
      CountIsCardinality(s[..k], p, counted - {k});
      if p(s[k]) {
        assert counted == counted - {k} + {k};
      } else {
        assert counted == counted - {k};
      }
    }
  }

  lemma CountedBefore<T>(s: seq<T>, p: T -> bool, counted: set<int>)
    requires s != [] && forall i {:trigger i in counted} :: i in counted <==> 0 <= i < |s| && p(s[i])
    ensures forall i {:trigger i in counted - {|s| - 1}} ::
              i in counted - {|s| - 1} <==> 0 <= i < |s| - 1 && p(s[..|s| - 1][i])
  {
  }

  lemma {:induction false} RangeCardinality(n: nat, range: set<int>)
    requires forall i {:trigger i in range} :: i in range <==> 0 <= i < n
    ensures |range| == n
  {
    if n == 0 {
      assert forall i :: i !in range;
    } else {
      assert n - 1 in range;
      RangeCardinality(n - 1, range - {n - 1});
      assert range == range - {n - 1} + {n - 1};
    }
  }

  /** Two sets that share out the numbers below `n` have `n` members together. */
  lemma Complements(n: nat, some: set<int>, others: set<int>)
    requires forall i {:trigger i in some} :: i in some ==> 0 <= i < n
    requires forall i {:trigger i in others} :: i in others <==> 0 <= i < n && i !in some
    ensures |some| + |others| == n
  {
    forall i ensures i in some + others <==> 0 <= i < n {
      assert i in others <==> 0 <= i < n && i !in some;
    }
    RangeCardinality(n, some + others);
    assert some !! others;
  }

  function Flatten<T>(parts: seq<seq<T>>): seq<T> {
    if parts == [] then [] else Flatten(parts[..|parts| - 1]) + parts[|parts| - 1]
  }
}
