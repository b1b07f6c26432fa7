/**
 The splice loop of `applyFile`: edits sorted by descending start and applied one after the other to the whole text,
 against the simultaneous substitution of all of them.
 */
module Splice {
  import opened Sorting

  datatype Edit = Edit(start: nat, end: nat, text: string)

  // ----- The loop

  /** JavaScript's `s.slice(0, n)` and `s.slice(n)`: out-of-range bounds are clamped. */
  function Take(s: string, n: nat): string {
    if n <= |s| then s[..n] else s
  }

  function Drop(s: string, n: nat): string {
    if n <= |s| then s[n..] else ""
  }

  lemma SlicesMeaning(s: string, n: nat)
    ensures n <= |s| ==> |Take(s, n)| == n && Take(s, n) + Drop(s, n) == s
    ensures n > |s| ==> Take(s, n) == s && Drop(s, n) == []
  {
  }

  function ApplyEdit(s: string, e: Edit): string {
    Take(s, e.start) + e.text + Drop(s, e.end)
  }

  function ApplyInOrder(s: string, edits: seq<Edit>): string {
    if edits == [] then s else ApplyEdit(ApplyInOrder(s, edits[..|edits| - 1]), edits[|edits| - 1])
  }

  /** The source's comparator, `right.start - left.start`. */
  predicate NoEarlier(left: Edit, right: Edit) {
    left.start >= right.start
  }

  function SortDescending(edits: seq<Edit>): seq<Edit> {
    Sort(NoEarlier, edits)
  }

  lemma ApplyOneMore(source: string, edits: seq<Edit>, k: nat)
    requires k < |edits|
    ensures ApplyInOrder(source, edits[..k + 1]) == ApplyEdit(ApplyInOrder(source, edits[..k]), edits[k])
  {
    assert edits[..k + 1][..k] == edits[..k];
  }

  method ApplyEdits(source: string, edits: seq<Edit>) returns (updated: string)
    ensures updated == ApplyInOrder(source, SortDescending(edits))
  {
    updated := source;
    var sortedEdits := SortDescending(edits);
    for k := 0 to |sortedEdits|
      invariant updated == ApplyInOrder(source, sortedEdits[..k])
    {
      ApplyOneMore(source, sortedEdits, k);
      updated := ApplyEdit(updated, sortedEdits[k]);
    }
    assert sortedEdits[..|sortedEdits|] == sortedEdits;
  }

  // ----- Simultaneous substitution

  /** The edits lie in the text from `from` on, one behind the other. */
  ghost predicate Chain(edits: seq<Edit>, from: nat, length: nat)
    decreases |edits|
  {
    && from <= length
    && (edits != [] ==>
          from <= edits[0].start <= edits[0].end <= length && Chain(edits[1..], edits[0].end, length))
  }

  /** The text from `from` on, with every edit's range replaced by its text and everything else copied. */
  function Substitute(source: string, edits: seq<Edit>, from: nat): string
    requires Chain(edits, from, |source|)
    decreases |edits|
  {
    if edits == [] then source[from..]
    else source[from..edits[0].start] + edits[0].text + Substitute(source, edits[1..], edits[0].end)
  }

  function Reverse<T>(s: seq<T>): seq<T> {
    if s == [] then [] else Reverse(s[1..]) + [s[0]]
  }

  lemma SubstituteFromLater(source: string, edits: seq<Edit>, from: nat, to: nat)
    requires from <= to && Chain(edits, to, |source|)
    ensures Chain(edits, from, |source|)
    ensures Substitute(source, edits, from) == source[from..to] + Substitute(source, edits, to)
  {
    if edits == [] {
      assert source[from..] == source[from..to] + source[to..];
    } else {
      var e := edits[0];
      assert source[from..e.start] == source[from..to] + source[to..e.start];
      Regroup(source[from..to], source[to..e.start], e.text, Substitute(source, edits[1..], e.end));
    }
  }

  lemma Regroup<T>(a: seq<T>, b: seq<T>, c: seq<T>, d: seq<T>)
    ensures (a + b) + c + d == a + (b + c + d)
  {
  }

  lemma ApplyEditSplit(head: string, tail: string, e: Edit)
    requires e.start <= e.end == |head|
    ensures ApplyEdit(head + tail, e) == head[..e.start] + e.text + tail
  {
    assert (head + tail)[..e.start] == head[..e.start];
    assert (head + tail)[e.end..] == tail;
  }

  /** Applying the edits from the last to the first is the same as substituting them all at once. */
  lemma {:induction false} ReverseOrderSubstitutes(source: string, edits: seq<Edit>)
    requires Chain(edits, 0, |source|)
    ensures ApplyInOrder(source, Reverse(edits)) == Substitute(source, edits, 0)
  {
    if edits == [] {
      assert source[0..] == source;
    } else {
      var e, rest := edits[0], edits[1..];
      SubstituteFromLater(source, rest, 0, e.end);
      ReverseOrderSubstitutes(source, rest);
      assert source[0..e.end] == source[..e.end];
      ApplyEditSplit(source[..e.end], Substitute(source, rest, e.end), e);
      assert source[..e.end][..e.start] == source[0..e.start];
      assert Reverse(edits)[..|Reverse(edits)| - 1] == Reverse(rest);
    }
  }

  // ----- Edits in any order

  predicate IsInsertion(e: Edit) {
    e.start == e.end
  }

  predicate Disjoint(a: Edit, b: Edit) {
    a.end <= b.start || b.end <= a.start
  }

  /** No two edits overlap, in whatever order they come; insertions may share their start with another edit. */
  ghost predicate NonOverlapping(edits: seq<Edit>, length: nat) {
    && (forall e :: e in edits ==> e.start <= e.end <= length)
    && (forall i, j :: 0 <= i < j < |edits| ==> Disjoint(edits[i], edits[j]))
  }

  /** The source's order, but with a replacement before the insertions that share its start. */
  predicate ReplacesFirst(left: Edit, right: Edit) {
    left.start > right.start || (left.start == right.start && (!IsInsertion(left) || IsInsertion(right)))
  }

  /** The edits one behind the other in the text; insertions at one place stand in front of a replacement there. */
  function InPlace(edits: seq<Edit>): seq<Edit> {
    Reverse(Sort(ReplacesFirst, edits))
  }

  lemma {:induction false} ChainAppend(edits: seq<Edit>, e: Edit, from: nat, length: nat)
    requires Chain(edits, from, e.start) && e.start <= e.end <= length
    ensures Chain(edits + [e], from, length)
    decreases |edits|
  {
    if edits == [] {
      assert ([e])[1..] == [];
    } else {
      assert (edits + [e])[1..] == edits[1..] + [e];
      ChainAppend(edits[1..], e, edits[0].end, length);
    }
  }

  lemma {:induction false} DescendingIsChain(desc: seq<Edit>, length: nat)
    requires SortedBy(ReplacesFirst, desc) && Pairwise(Disjoint, desc)
    requires forall e :: e in desc ==> e.start <= e.end <= length
    ensures Chain(Reverse(desc), 0, length)
  {
    if desc != [] {
      var e, rest := desc[0], desc[1..];
      forall x | x in rest ensures x.end <= e.start {
        assert ReplacesFirst(e, x) && Disjoint(x, e);
      }
      DescendingIsChain(rest, e.start);
      ChainAppend(Reverse(rest), e, 0, length);
    }
  }

  lemma InPlaceIsChain(edits: seq<Edit>, length: nat)
    requires NonOverlapping(edits, length)
    ensures Chain(InPlace(edits), 0, length)
  {
    SortSorts(ReplacesFirst, edits);
    SortPairwise(ReplacesFirst, Disjoint, edits);
    forall e | e in Sort(ReplacesFirst, edits) ensures e in edits {
      SortMember(ReplacesFirst, edits, e);
    }
    DescendingIsChain(Sort(ReplacesFirst, edits), length);
  }

  /** The simultaneous substitution of edits in any order. */
  function SubstituteAll(source: string, edits: seq<Edit>): string
    requires NonOverlapping(edits, |source|)
  {
    InPlaceIsChain(edits, |source|);
    Substitute(source, InPlace(edits), 0)
  }

  lemma {:induction false} ReverseAppend<T>(s: seq<T>, x: T)
    ensures Reverse(s + [x]) == [x] + Reverse(s)
  {
    if s == [] {
      assert [x][1..] == [];
    } else {
      assert (s + [x])[1..] == s[1..] + [x];
      ReverseAppend(s[1..], x);
    }
  }

  lemma {:induction false} ReverseTwice<T>(s: seq<T>)
    ensures Reverse(Reverse(s)) == s
  {
    if s != [] {
      ReverseAppend(Reverse(s[1..]), s[0]);
      ReverseTwice(s[1..]);
    }
  }

  lemma {:induction false} ReverseRearranges<T>(s: seq<T>)
    ensures multiset(Reverse(s)) == multiset(s)
  {
    if s != [] {
      ReverseRearranges(s[1..]);
      assert s == [s[0]] + s[1..];
    }
  }

  lemma InPlaceRearranges(edits: seq<Edit>)
    ensures multiset(InPlace(edits)) == multiset(edits)
    ensures forall e :: e in InPlace(edits) <==> e in edits
  {
    SortRearranges(ReplacesFirst, edits);
    ReverseRearranges(Sort(ReplacesFirst, edits));
    forall e ensures e in InPlace(edits) <==> e in edits {
      assert e in InPlace(edits) <==> e in multiset(InPlace(edits));
    }
  }

  lemma {:induction false} SubstituteAllInOrder(source: string, edits: seq<Edit>)
    requires NonOverlapping(edits, |source|)
    ensures SubstituteAll(source, edits) == ApplyInOrder(source, Sort(ReplacesFirst, edits))
  {
    InPlaceIsChain(edits, |source|);
    ReverseTwice(Sort(ReplacesFirst, edits));
    ReverseOrderSubstitutes(source, InPlace(edits));
  }

  /** No replacement is emitted after another edit with its start. */
  ghost predicate ReplacementsLead(edits: seq<Edit>) {
    forall i, j :: 0 <= i < j < |edits| && edits[i].start == edits[j].start ==> IsInsertion(edits[j])
  }

  /** The splice loop is the simultaneous substitution where every replacement leads the edits with its start. */
  lemma {:induction false} SpliceIsSubstitution(source: string, edits: seq<Edit>)
    requires NonOverlapping(edits, |source|) && ReplacementsLead(edits)
    ensures Chain(InPlace(edits), 0, |source|) && multiset(InPlace(edits)) == multiset(edits)
    ensures ApplyInOrder(source, SortDescending(edits)) == SubstituteAll(source, edits)
  {
    InPlaceIsChain(edits, |source|);
    InPlaceRearranges(edits);
    SortsAgree(NoEarlier, ReplacesFirst, edits);
    SubstituteAllInOrder(source, edits);
  }

  ghost predicate StrictlyAscending(edits: seq<Edit>) {
    forall i, j :: 0 <= i < j < |edits| ==> edits[i].start < edits[j].start
  }

  /** Edits that already come in strictly ascending order are sorted by reversing them. */
  lemma {:induction false} SortReverses(edits: seq<Edit>)
    requires StrictlyAscending(edits)
    ensures SortDescending(edits) == Reverse(edits)
    ensures InPlace(edits) == edits
  {
    AscendingReverses(edits);
    SortsAgree(NoEarlier, ReplacesFirst, edits);
    ReverseTwice(edits);
  }

  lemma {:induction false} AscendingReverses(edits: seq<Edit>)
    requires StrictlyAscending(edits)
    ensures SortDescending(edits) == Reverse(edits)
  {
    if edits != [] {
      var front, last := edits[..|edits| - 1], edits[|edits| - 1];
      AscendingReverses(front);
      assert edits == front + [last];
      ReverseAppend(front, last);
      if front != [] {
        ReverseAppend(front[..|front| - 1], front[|front| - 1]);
        assert front == front[..|front| - 1] + [front[|front| - 1]];
      }
    }
  }

  // ----- What the substitution does to every character

  function Growth(edits: seq<Edit>): int {
    if edits == [] then 0 else |edits[0].text| - (edits[0].end - edits[0].start) + Growth(edits[1..])
  }

  /** How far the edits that end at or before `p` move the character at `p`. */
  function Shift(edits: seq<Edit>, p: nat): int {
    if edits == [] || edits[0].end > p then 0
    else |edits[0].text| - (edits[0].end - edits[0].start) + Shift(edits[1..], p)
  }

  ghost predicate Outside(edits: seq<Edit>, p: nat) {
    forall e :: e in edits ==> p < e.start || e.end <= p
  }

  lemma {:induction false} SubstituteLength(source: string, edits: seq<Edit>, from: nat)
    requires Chain(edits, from, |source|)
    ensures |Substitute(source, edits, from)| == |source| - from + Growth(edits)
    decreases |edits|
  {
    if edits != [] {
      SubstituteLength(source, edits[1..], edits[0].end);
    }
  }

  lemma {:induction false} ChainBounds(edits: seq<Edit>, from: nat, length: nat)
    requires Chain(edits, from, length)
    ensures forall e :: e in edits ==> from <= e.start <= e.end <= length
    decreases |edits|
  {
    if edits != [] {
      ChainBounds(edits[1..], edits[0].end, length);
    }
  }

  /** A character outside every edit's range survives, in order. */
  lemma {:induction false} OutsideSurvives(source: string, edits: seq<Edit>, from: nat, p: nat)
    requires Chain(edits, from, |source|) && from <= p < |source| && Outside(edits, p)
    ensures var out, q := Substitute(source, edits, from), p - from + Shift(edits, p);
            0 <= q < |out| && out[q] == source[p]
    decreases |edits|
  {
    if edits != [] {
      var e := edits[0];
      var rest := Substitute(source, edits[1..], e.end);
      if e.end <= p {
        OutsideSurvives(source, edits[1..], e.end, p);
        assert Substitute(source, edits, from) == (source[from..e.start] + e.text) + rest;
      } else {
        assert Substitute(source, edits, from) == source[from..e.start] + (e.text + rest);
      }
    }
  }

  lemma GrowthStep(edits: seq<Edit>, k: nat)
    requires 0 < k <= |edits|
    ensures Growth(edits[..k]) == |edits[0].text| - (edits[0].end - edits[0].start) + Growth(edits[1..][..k - 1])
  {
    assert edits[..k][1..] == edits[1..][..k - 1];
  }

  lemma Prepend<T>(lead: seq<T>, front: seq<T>, mid: seq<T>, rest: seq<T>)
    ensures lead + (front + mid + rest) == (lead + front) + mid + rest
  {
  }

  /**
   The substitution up to an edit's text is as long as the source up to its range, and what the earlier edits grew.
   */
  lemma {:induction false} SubstituteSplits(source: string, edits: seq<Edit>, from: nat, k: nat)
    returns (front: string, rest: string)
    requires Chain(edits, from, |source|) && k < |edits|
    ensures Substitute(source, edits, from) == front + edits[k].text + rest
    ensures |front| == edits[k].start - from + Growth(edits[..k])
    ensures Chain(edits[k + 1..], edits[k].end, |source|)
    ensures rest == Substitute(source, edits[k + 1..], edits[k].end)
    decreases |edits|
  {
    var e, later := edits[0], edits[1..];
    if k == 0 {
      front, rest := source[from..e.start], Substitute(source, later, e.end);
    } else {
      GrowthStep(edits, k);
      assert later[k..] == edits[k + 1..];
      front, rest := SubstituteSplits(source, later, e.end, k - 1);
      var lead := source[from..e.start] + e.text;
      Prepend(lead, front, later[k - 1].text, rest);
      front := lead + front;
    }
  }

  /** Every edit's text stands where its range was. */
  lemma TextIsPlaced(source: string, edits: seq<Edit>, from: nat, k: nat)
    requires Chain(edits, from, |source|) && k < |edits|
    ensures var out, q := Substitute(source, edits, from), edits[k].start - from + Growth(edits[..k]);
            0 <= q <= q + |edits[k].text| <= |out| && out[q..q + |edits[k].text|] == edits[k].text
  {
    var front, rest := SubstituteSplits(source, edits, from, k);
    SliceOfHead(front, edits[k].text, rest);
  }

  lemma SliceOfHead<T>(a: seq<T>, b: seq<T>, c: seq<T>)
    ensures (a + b + c)[|a|..|a| + |b|] == b
  {
  }

  /** The edits up to the last one that ends at or before `p` move the character at `p`. */
  lemma {:induction false} ShiftIsGrowth(edits: seq<Edit>, from: nat, length: nat, k: nat, p: nat)
    requires Chain(edits, from, length) && k < |edits| && edits[k].end <= p
    requires k + 1 < |edits| ==> p < edits[k + 1].start
    ensures Shift(edits, p) == Growth(edits[..k]) + |edits[k].text| - (edits[k].end - edits[k].start)
    decreases |edits|
  {
    if k == 0 {
      assert |edits| > 1 ==> edits[1..][0] == edits[1] && edits[1].start <= edits[1].end;
    } else {
      GrowthStep(edits, k);
      ShiftIsGrowth(edits[1..], edits[0].end, length, k - 1, p);
      ChainBounds(edits[1..], edits[0].end, length);
      assert edits[k] in edits[1..];
    }
  }

  lemma StartsWithSource(source: string, edits: seq<Edit>, from: nat, p: nat)
    requires Chain(edits, from, |source|) && from <= p < |source| && (edits != [] ==> p < edits[0].start)
    ensures source[from..p + 1] <= Substitute(source, edits, from)
  {
    if edits != [] {
      var tail := edits[0].text + Substitute(source, edits[1..], edits[0].end);
      assert Substitute(source, edits, from) == source[from..edits[0].start] + tail;
      assert source[from..edits[0].start] == source[from..p + 1] + source[p + 1..edits[0].start];
    } else {
      assert source[from..] == source[from..p + 1] + source[p + 1..];
    }
  }

  /** A text holds the character at `p` of the source, moved by `d`. */
  ghost predicate KeepsMoved(source: string, updated: string, p: nat, d: int) {
    p < |source| && exists q :: 0 <= q < |updated| && q == p + d && updated[q] == source[p]
  }

  ghost predicate EndsAt(s: string, text: string, m: int) {
    |text| <= m <= |s| && s[m - |text|..m] == text
  }

  /** A text holds the source from `from` to `p`, moved by `d`, right behind `text`. */
  ghost predicate HoldsBehind(source: string, updated: string, text: string, from: nat, p: nat, d: int) {
    && from <= p < |source| && 0 <= from + d && p + d < |updated|
    && EndsAt(updated, text, from + d) && updated[from + d..p + d + 1] == source[from..p + 1]
  }

  /** After the text of an edit comes what came after its range, up to the next edit. */
  lemma {:induction false} TextThenSource(source: string, edits: seq<Edit>, k: nat, p: nat)
    requires Chain(edits, 0, |source|) && k < |edits| && edits[k].end <= p < |source|
    requires k + 1 < |edits| ==> p < edits[k + 1].start
    ensures HoldsBehind(source, Substitute(source, edits, 0), edits[k].text, edits[k].end, p, Shift(edits, p))
  {
    var front, rest := SubstituteSplits(source, edits, 0, k);
    ShiftIsGrowth(edits, 0, |source|, k, p);
    StartsWithSource(source, edits[k + 1..], edits[k].end, p);
    SliceOfHead(front, edits[k].text, rest);
    var next := source[edits[k].end..p + 1];
    assert rest == next + rest[|next|..];
    SliceOfTail(front + edits[k].text, next, rest[|next|..]);
  }

  lemma SliceOfTail<T>(a: seq<T>, b: seq<T>, c: seq<T>)
    ensures (a + (b + c))[|a|..|a| + |b|] == b
  {
  }

  /** Edits that end at or before both of two positions or behind both move them equally. */
  lemma {:induction false} SameShift(edits: seq<Edit>, p: nat, q: nat)
    requires forall e :: e in edits ==> (e.end <= p <==> e.end <= q)
    ensures Shift(edits, p) == Shift(edits, q)
  {
    if edits != [] {
      SameShift(edits[1..], p, q);
    }
  }
}
